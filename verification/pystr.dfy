/**
 * The Python string operations the bots are built from: substring tests
 * (`p in s`), `str.replace`, `str.strip()` and `str.split(sep)[0]`.
 * Strings are sequences of Unicode code points, as in Python 3.
 */
module PyStr {
  import opened Common

  /** `p` is a prefix of `s` (`s.startswith(p)`). */
  predicate IsPrefix(p: string, s: string)
  {
    |p| <= |s| && s[..|p|] == p
  }

  /** `p` occurs in `s` starting at index `i`. */
  predicate OccursAt(s: string, p: string, i: int)
  {
    0 <= i && i + |p| <= |s| && s[i..i + |p|] == p
  }

  /** Python's `p in s` for strings. */
  predicate Contains(s: string, p: string)
    decreases |s|
  {
    IsPrefix(p, s) || (|s| > 0 && Contains(s[1..], p))
  }

  /** The character `c` does not occur in `s`. */
  predicate Lacks(s: string, c: char)
  {
    forall i :: 0 <= i < |s| ==> s[i] != c
  }

  // ---------------------------------------------------------------------
  // Substring tests

  /** An occurrence at any index is found by `in`. */
  lemma {:induction false} OccursContains(s: string, p: string, i: int)
    requires OccursAt(s, p, i)
    ensures Contains(s, p)
    decreases i
  {
    if i == 0 {
      assert IsPrefix(p, s);
    } else {
      assert s[1..][i - 1..i - 1 + |p|] == s[i..i + |p|];
      OccursContains(s[1..], p, i - 1);
    }
  }

  /** Whatever `in` finds occurs at some index. */
  lemma {:induction false} ContainsWitness(s: string, p: string) returns (i: nat)
    requires Contains(s, p)
    ensures OccursAt(s, p, i)
    decreases |s|
  {
    if IsPrefix(p, s) {
      i := 0;
    } else {
      var j := ContainsWitness(s[1..], p);
      assert s[1..][j..j + |p|] == s[j + 1..j + 1 + |p|];
      i := j + 1;
    }
  }

  /** `in` is exactly "occurs at some index". */
  lemma ContainsIff(s: string, p: string)
    ensures Contains(s, p) <==> exists i :: OccursAt(s, p, i)
  {
    if Contains(s, p) {
      var i := ContainsWitness(s, p);
    }
    if exists i :: OccursAt(s, p, i) {
      var i :| OccursAt(s, p, i);
      OccursContains(s, p, i);
    }
  }

  lemma ContainsTooShort(s: string, p: string)
    requires |s| < |p|
    ensures !Contains(s, p)
  {
    if Contains(s, p) {
      var i := ContainsWitness(s, p);
    }
  }

  lemma ContainsLeft(a: string, b: string, p: string)
    ensures Contains(a, p) ==> Contains(a + b, p)
  {
    if Contains(a, p) {
      var i := ContainsWitness(a, p);
      assert (a + b)[i..i + |p|] == a[i..i + |p|];
      OccursContains(a + b, p, i);
    }
  }

  lemma ContainsRight(a: string, b: string, p: string)
    ensures Contains(b, p) ==> Contains(a + b, p)
  {
    if Contains(b, p) {
      var i := ContainsWitness(b, p);
      assert (a + b)[|a| + i..|a| + i + |p|] == b[i..i + |p|];
      OccursContains(a + b, p, |a| + i);
    }
  }

  /** An occurrence of `p` inside an occurrence of `q` is an occurrence in `s`. */
  lemma ContainsTrans(s: string, q: string, p: string)
    requires Contains(s, q) && Contains(q, p)
    ensures Contains(s, p)
  {
    var i := ContainsWitness(s, q);
    var j := ContainsWitness(q, p);
    forall k | 0 <= k < |p|
      ensures s[i + j + k] == p[k]
    {
      assert q[j + k] == p[k];
    }
    assert s[i + j..i + j + |p|] == p;
    OccursContains(s, p, i + j);
  }

  /** A string without the first character of `p` does not contain `p`. */
  lemma LacksNotContains(s: string, p: string)
    requires |p| > 0 && Lacks(s, p[0])
    ensures !Contains(s, p)
  {
    if Contains(s, p) {
      var i := ContainsWitness(s, p);
    }
  }

  lemma LacksConcat(a: string, b: string, c: char)
    requires Lacks(a, c) && Lacks(b, c)
    ensures Lacks(a + b, c)
  {
  }

  // ---------------------------------------------------------------------
  // str.replace

  /**
   * Python's `s.replace(pat, rep)`: every leftmost, non-overlapping
   * occurrence of `pat` is replaced by `rep`, scanning left to right.
   * The bots only ever pass non-empty literal patterns.
   */
  function ReplaceAll(s: string, pat: string, rep: string): (r: string)
    requires |pat| > 0
    ensures |s| < |pat| ==> r == s
    ensures IsPrefix(pat, s) ==> IsPrefix(rep, r)
    decreases |s|
  {
    if |s| < |pat| then s
    else if s[..|pat|] == pat then rep + ReplaceAll(s[|pat|..], pat, rep)
    else [s[0]] + ReplaceAll(s[1..], pat, rep)
  }

  /** Replacing a pattern that does not occur changes nothing. */
  lemma {:induction false} ReplaceAbsent(s: string, pat: string, rep: string)
    requires |pat| > 0 && !Contains(s, pat)
    ensures ReplaceAll(s, pat, rep) == s
    decreases |s|
  {
    if |s| >= |pat| {
      assert !IsPrefix(pat, s);
      ReplaceAbsent(s[1..], pat, rep);
      assert [s[0]] + s[1..] == s;
    }
  }

  /** Text without the first character of `pat` is copied unchanged. */
  lemma {:induction false} ReplacePlainPrefix(a: string, b: string, pat: string, rep: string)
    requires |pat| > 0 && Lacks(a, pat[0])
    ensures ReplaceAll(a + b, pat, rep) == a + ReplaceAll(b, pat, rep)
    decreases |a|
  {
    if |a| == 0 {
      assert a + b == b;
    } else {
      var s := a + b;
      assert s[0] == a[0] && s[1..] == a[1..] + b;
      assert !IsPrefix(pat, s) by {
        if |pat| <= |s| {
          assert s[..|pat|][0] == s[0];
        }
      }
      ReplaceMissed(s, pat, rep);
      ReplacePlainPrefix(a[1..], b, pat, rep);
      var r := ReplaceAll(b, pat, rep);
      assert ReplaceAll(s, pat, rep) == [a[0]] + (a[1..] + r);
      Regroup([a[0]], a[1..], r);
      assert [a[0]] + a[1..] == a;
    }
  }

  /** Where `pat` does not start the text, its first character is copied. */
  lemma ReplaceMissed(s: string, pat: string, rep: string)
    requires |pat| > 0 && |s| > 0 && !IsPrefix(pat, s)
    ensures ReplaceAll(s, pat, rep) == [s[0]] + ReplaceAll(s[1..], pat, rep)
  {
    if |s| < |pat| {
      assert s == [s[0]] + s[1..];
    }
  }


  /** Replacing in `pat + b` replaces that leading occurrence first. */
  lemma ReplaceLeading(b: string, pat: string, rep: string)
    requires |pat| > 0
    ensures ReplaceAll(pat + b, pat, rep) == rep + ReplaceAll(b, pat, rep)
  {
    assert (pat + b)[..|pat|] == pat;
    assert (pat + b)[|pat|..] == b;
  }

  /**
   * `rep` can neither contain `x` nor start a partial `x` that the
   * following text could complete: every position of `rep` holding the
   * first character of `x` disagrees with `x` before either runs out.
   */
  predicate Shields(x: string, rep: string)
  {
    |x| > 0 &&
    forall i :: 0 <= i < |rep| && rep[i] == x[0] ==> !IsPrefix(x, rep[i..]) && !IsPrefix(rep[i..], x)
  }

  /**
   * Replacing with `rep` can neither create an `x` across a boundary nor
   * leave one inside `rep`: no `x` starts inside `rep`, and no `rep`
   * starts inside an `x` after its first character.
   */
  predicate Isolated(x: string, rep: string)
  {
    Shields(x, rep) && Shields(rep, x[1..])
  }

  /** `c` occurs in `s` at most at index 0. */
  predicate OnlyAtHead(s: string, c: char)
  {
    forall i :: 1 <= i < |s| ==> s[i] != c
  }

  /** A shielded text holds no occurrence of `x`. */
  lemma ShieldsNotContains(x: string, s: string)
    requires Shields(x, s)
    ensures !Contains(s, x)
  {
    ContainsIff(s, x);
    forall i | 0 <= i && i + |x| <= |s|
      ensures !OccursAt(s, x, i)
    {
      assert s[i..][..|x|] == s[i..i + |x|];
      assert s[i..i + |x|][0] == s[i];
    }
  }

  lemma ShieldsFromLacks(x: string, rep: string)
    requires |x| > 0 && Lacks(rep, x[0])
    ensures Shields(x, rep)
  {
  }

  /** Shielding texts stay shielding when joined. */
  lemma ShieldsConcat(x: string, a: string, b: string)
    requires Shields(x, a) && Shields(x, b)
    ensures Shields(x, a + b)
  {
    var r := a + b;
    forall i | 0 <= i < |r| && r[i] == x[0]
      ensures !IsPrefix(x, r[i..]) && !IsPrefix(r[i..], x)
    {
      if i < |a| {
        assert r[i..] == a[i..] + b;
      } else {
        assert r[i..] == b[i - |a|..];
      }
    }
  }

  /**
   * Each occurrence of `x[0]` in `rep` disagrees with `x` at one of the
   * next two characters, inside `rep`.
   */
  predicate MismatchSoon(x: string, rep: string)
  {
    |x| >= 3 && forall i :: 0 <= i < |rep| && rep[i] == x[0] ==> MismatchAfter(x, rep, i)
  }

  /** `rep` disagrees with `x` one or two characters after index `i`. */
  predicate MismatchAfter(x: string, rep: string, i: int)
    requires |x| >= 3 && 0 <= i
  {
    (i + 1 < |rep| && rep[i + 1] != x[1]) || (i + 2 < |rep| && rep[i + 2] != x[2])
  }

  lemma ShieldsFromMismatch(x: string, rep: string)
    requires MismatchSoon(x, rep)
    ensures Shields(x, rep)
  {
    forall i | 0 <= i < |rep| && rep[i] == x[0]
      ensures !IsPrefix(x, rep[i..]) && !IsPrefix(rep[i..], x)
    {
      if i + 1 < |rep| && rep[i + 1] != x[1] {
        assert rep[i..][1] == rep[i + 1];
      } else {
        assert rep[i..][2] == rep[i + 2];
      }
    }
  }

  /**
   * A text holding `x[0]` only at its start and disagreeing with `x` at
   * index `k` shields `x`.
   */
  lemma ShieldsAtStart(x: string, rep: string, k: nat)
    requires |x| > 0 && k < |rep| && k < |x| && rep[k] != x[k] && OnlyAtHead(rep, x[0])
    ensures Shields(x, rep)
  {
    forall i | 0 <= i < |rep| && rep[i] == x[0]
      ensures !IsPrefix(x, rep[i..]) && !IsPrefix(rep[i..], x)
    {
      assert rep[i..][k] == rep[k];
    }
  }

  /** No `x` starts inside a shielding `rep`, whatever follows it. */
  lemma ShieldedAt(rep: string, t: string, x: string, i: int)
    requires Shields(x, rep) && 0 <= i
    ensures i < |rep| ==> !OccursAt(rep + t, x, i)
  {
    var s := rep + t;
    if i < |rep| {
      assert s[i] == rep[i];
      if i + |x| <= |rep| {
        assert s[i..i + |x|] == rep[i..][..|x|];
      } else {
        assert s[i..|rep|] == rep[i..];
      }
    }
  }

  /** An `x` in `rep + t` cannot start inside `rep`. */
  lemma RepSkip(rep: string, t: string, x: string)
    requires Shields(x, rep)
    ensures Contains(rep + t, x) ==> Contains(t, x)
  {
    var s := rep + t;
    if Contains(s, x) {
      var i := ContainsWitness(s, x);
      ShieldedAt(rep, t, x, i);
      if i >= |rep| {
        assert t[i - |rep|..i - |rep| + |x|] == s[i..i + |x|];
        OccursContains(t, x, i - |rep|);
      }
    }
  }

  /** Two prefixes of one text agree on the shorter length. */
  lemma PrefixPair(w: string, rep: string, r: string)
    ensures |w| > 0 && |rep| > 0 && IsPrefix(w, r) && IsPrefix(rep, r) ==>
      w[0] == rep[0] && w[0..] == w && (IsPrefix(w, rep) || IsPrefix(rep, w))
  {
    if |w| > 0 && |rep| > 0 && IsPrefix(w, r) && IsPrefix(rep, r) {
      assert w[0] == r[0] == rep[0];
      if |w| <= |rep| {
        assert w == rep[..|w|];
      } else {
        assert rep == w[..|rep|];
      }
    }
  }

  /** Shielding `rep` from `w` carries over to the tail of `w`. */
  lemma ShieldsTail(rep: string, w: string)
    requires Shields(rep, w) && |w| > 0
    ensures Shields(rep, w[1..])
  {
    forall i | 0 <= i < |w| - 1 && w[1..][i] == rep[0]
      ensures !IsPrefix(rep, w[1..][i..]) && !IsPrefix(w[1..][i..], rep)
    {
      assert w[1..][i..] == w[i + 1..];
    }
  }

  /**
   * A prefix `w` of the replaced text inside which no `rep` can start was
   * already a prefix of the original.
   */
  lemma {:induction false} HeadFromRep(w: string, s: string, pat: string, rep: string)
    requires |pat| > 0 && Shields(rep, w)
    requires IsPrefix(w, ReplaceAll(s, pat, rep))
    ensures IsPrefix(w, s)
    decreases |s|
  {
    if |w| > 0 && |s| >= |pat| {
      var r := ReplaceAll(s, pat, rep);
      PrefixPair(w, rep, r);
      if s[..|pat|] != pat {
        assert r == [s[0]] + ReplaceAll(s[1..], pat, rep);
        assert w[1..] == r[1..][..|w| - 1];
        ShieldsTail(rep, w);
        HeadFromRep(w[1..], s[1..], pat, rep);
        assert w == [s[0]] + w[1..];
      }
    }
  }

  /**
   * A skipped first character followed by replaced text starts `x` only if
   * the original text did.
   */
  lemma SkipHead(s: string, pat: string, rep: string, x: string)
    requires |pat| > 0 && |x| > 0 && |s| > 0 && Shields(rep, x[1..])
    ensures IsPrefix(x, [s[0]] + ReplaceAll(s[1..], pat, rep)) ==> IsPrefix(x, s)
  {
    var t := ReplaceAll(s[1..], pat, rep);
    if IsPrefix(x, [s[0]] + t) {
      PrefixOfCons(x, s[0], t);
      HeadFromRep(x[1..], s[1..], pat, rep);
      ConsOfPrefix(x, s);
    }
  }

  lemma PrefixOfCons(x: string, c: char, t: string)
    requires |x| > 0 && IsPrefix(x, [c] + t)
    ensures x[0] == c && IsPrefix(x[1..], t)
  {
    assert x[1..] == ([c] + t)[..|x|][1..];
  }

  lemma ConsOfPrefix(x: string, s: string)
    requires |x| > 0 && |s| > 0 && x[0] == s[0] && IsPrefix(x[1..], s[1..])
    ensures IsPrefix(x, s)
  {
    assert s[..|x|] == [s[0]] + s[1..][..|x| - 1];
  }

  /** After replacing an isolated pattern, none is left. */
  lemma {:induction false} ReplaceClears(s: string, pat: string, rep: string)
    requires |pat| > 0 && Isolated(pat, rep)
    ensures !Contains(ReplaceAll(s, pat, rep), pat)
    decreases |s|
  {
    var r := ReplaceAll(s, pat, rep);
    if |s| < |pat| {
      ContainsTooShort(s, pat);
    } else if s[..|pat|] == pat {
      ReplaceClears(s[|pat|..], pat, rep);
      RepSkip(rep, ReplaceAll(s[|pat|..], pat, rep), pat);
    } else {
      var t := ReplaceAll(s[1..], pat, rep);
      ReplaceClears(s[1..], pat, rep);
      assert r[1..] == t;
      SkipHead(s, pat, rep, pat);
    }
  }

  /** Replacing with a text that isolates `x` never creates an `x`. */
  lemma {:induction false} ReplaceKeepsAbsent(s: string, pat: string, rep: string, x: string)
    requires |pat| > 0 && Isolated(x, rep) && !Contains(s, x)
    ensures !Contains(ReplaceAll(s, pat, rep), x)
    decreases |s|
  {
    var r := ReplaceAll(s, pat, rep);
    if |s| < |pat| {
    } else if s[..|pat|] == pat {
      assert s == pat + s[|pat|..];
      ContainsRight(pat, s[|pat|..], x);
      ReplaceKeepsAbsent(s[|pat|..], pat, rep, x);
      RepSkip(rep, ReplaceAll(s[|pat|..], pat, rep), x);
    } else {
      var t := ReplaceAll(s[1..], pat, rep);
      ReplaceKeepsAbsent(s[1..], pat, rep, x);
      assert r[1..] == t;
      SkipHead(s, pat, rep, x);
    }
  }

  /** A text inside which no `pat` can start is copied unchanged. */
  lemma {:induction false} ReplaceShieldedPrefix(w: string, t: string, pat: string, rep: string)
    requires Shields(pat, w)
    ensures ReplaceAll(w + t, pat, rep) == w + ReplaceAll(t, pat, rep)
    decreases |w|
  {
    if |w| == 0 {
      assert w + t == t;
    } else {
      var s := w + t;
      PrefixPair(pat, w, s);
      assert s[0] == w[0] && s[1..] == w[1..] + t;
      assert !IsPrefix(pat, s);
      ReplaceMissed(s, pat, rep);
      ShieldsTail(pat, w);
      ReplaceShieldedPrefix(w[1..], t, pat, rep);
      var r := ReplaceAll(t, pat, rep);
      assert ReplaceAll(s, pat, rep) == [w[0]] + (w[1..] + r);
      Regroup([w[0]], w[1..], r);
      assert [w[0]] + w[1..] == w;
    }
  }

  /** Where `pat` matches at the start, an `x` at index `i` inside that match is compatible with `pat`. */
  lemma OverlapAtMatch(s: string, pat: string, x: string, i: int)
    requires IsPrefix(pat, s) && OccursAt(s, x, i) && |x| > 0
    ensures i < |pat| ==> pat[i] == x[0] && (IsPrefix(x, pat[i..]) || IsPrefix(pat[i..], x))
  {
    if i < |pat| {
      var u := s[i..];
      assert pat[i..] == u[..|pat| - i];
      assert x == u[..|x|];
      if |x| <= |pat| - i {
        assert x == pat[i..][..|x|];
      } else {
        assert pat[i..] == x[..|pat| - i];
      }
    }
  }

  /** An `x` that cannot overlap `pat` and occurs in `s` lies after a leading `pat`. */
  lemma AfterMatch(s: string, pat: string, x: string, i: int)
    requires Isolated(x, pat) && IsPrefix(pat, s) && OccursAt(s, x, i)
    ensures |pat| <= i && OccursAt(s[|pat|..], x, i - |pat|)
  {
    OverlapAtMatch(s, pat, x, i);
    assert s[|pat|..][i - |pat|..i - |pat| + |x|] == s[i..i + |x|];
  }

  /** Where `pat` starts the text, it is replaced and the scan resumes after it. */
  lemma ReplaceMatched(s: string, pat: string, rep: string)
    requires |pat| > 0 && |pat| <= |s| && s[..|pat|] == pat
    ensures ReplaceAll(s, pat, rep) == rep + ReplaceAll(s[|pat|..], pat, rep)
  {
  }

  lemma OccursInTail(s: string, x: string, i: int)
    requires 0 < i && OccursAt(s, x, i)
    ensures OccursAt(s[1..], x, i - 1)
  {
    assert s[1..][i - 1..i - 1 + |x|] == s[i..i + |x|];
  }

  /** Replacing a pattern that cannot overlap `x` keeps every `x`. */
  lemma {:induction false} ReplaceKeepsPresent(s: string, pat: string, rep: string, x: string, i: int)
    requires |pat| > 0 && Isolated(x, pat) && OccursAt(s, x, i)
    ensures Contains(ReplaceAll(s, pat, rep), x)
    decreases |s|
  {
    if |s| < |pat| {
      OccursContains(s, x, i);
    } else if s[..|pat|] == pat {
      AfterMatch(s, pat, x, i);
      ReplaceKeepsPresent(s[|pat|..], pat, rep, x, i - |pat|);
      ReplaceMatched(s, pat, rep);
      ContainsRight(rep, ReplaceAll(s[|pat|..], pat, rep), x);
    } else if i > 0 {
      OccursInTail(s, x, i);
      ReplaceMissed(s, pat, rep);
      ReplaceKeepsPresent(s[1..], pat, rep, x, i - 1);
      ContainsRight([s[0]], ReplaceAll(s[1..], pat, rep), x);
    } else {
      KeepsLeading(s, pat, rep, x);
    }
  }

  /** An `x` at the very start that no `pat` can overlap is copied to the front of the result. */
  lemma KeepsLeading(s: string, pat: string, rep: string, x: string)
    requires |pat| > 0 && Isolated(x, pat) && OccursAt(s, x, 0) && |pat| <= |s| && s[..|pat|] != pat
    ensures Contains(ReplaceAll(s, pat, rep), x)
  {
    var w := x[1..];
    var t := s[|x|..];
    assert s[0] == x[0] && s[1..] == w + t;
    ReplaceMissed(s, pat, rep);
    ReplaceShieldedPrefix(w, t, pat, rep);
    var r := ReplaceAll(s, pat, rep);
    var rt := ReplaceAll(t, pat, rep);
    assert r == [s[0]] + (w + rt);
    Regroup([s[0]], w, rt);
    assert [s[0]] + w == x;
    assert r[0..|x|] == x;
    OccursContains(r, x, 0);
  }

  // ---------------------------------------------------------------------
  // Markdown code fences

  /** `text.replace("```html", "").replace("```", "")`. */
  function StripFences(s: string): (r: string)
    ensures !Contains(r, "```")
  {
    var r := ReplaceAll(ReplaceAll(s, "```html", ""), "```", "");
    FenceFree(ReplaceAll(s, "```html", ""));
    r
  }

  /** When `s` does not start with `pat`, replacing keeps its first character. */
  lemma HeadKept(s: string, pat: string, rep: string)
    requires |pat| > 0 && |s| > 0 && !IsPrefix(pat, s)
    ensures |ReplaceAll(s, pat, rep)| > 0 && ReplaceAll(s, pat, rep)[0] == s[0]
  {
  }

  /** Deleting every "```" leaves no run of three backquotes. */
  lemma {:induction false} FenceFree(s: string)
    ensures !Contains(ReplaceAll(s, "```", ""), "```")
    decreases |s|
  {
    var f := "```";
    var r := ReplaceAll(s, f, "");
    if |s| < 3 {
      ContainsTooShort(s, f);
    } else if s[..3] == f {
      FenceFree(s[3..]);
    } else {
      var t := ReplaceAll(s[1..], f, "");
      FenceFree(s[1..]);
      assert r[1..] == t && r[0] == s[0];
      if s[0] == '`' {
        HeadKept(s[1..], f, "");
        if s[1] == '`' {
          assert s[2] != '`';
          if |s| > 3 {
            HeadKept(s[2..], f, "");
            assert t == [s[1]] + ReplaceAll(s[2..], f, "");
          }
          assert t[1] == s[2];
        }
      }
    }
  }

  /** Stripping fences twice is the same as once. */
  lemma StripFencesIdempotent(s: string)
    ensures StripFences(StripFences(s)) == StripFences(s)
  {
    var once := StripFences(s);
    if Contains(once, "```html") {
      assert Contains("```html", "```") by { assert IsPrefix("```", "```html"); }
      ContainsTrans(once, "```html", "```");
    }
    ReplaceAbsent(once, "```html", "");
    ReplaceAbsent(once, "```", "");
  }

  // ---------------------------------------------------------------------
  // str.strip() and str.split(sep)[0]

  /** Python's `str.isspace()` for one character (the Unicode White_Space set Python uses). */
  predicate IsSpace(c: char)
  {
    c in {'\t', '\n', '\U{000B}', '\U{000C}', '\r', '\U{001C}', '\U{001D}', '\U{001E}', '\U{001F}', ' ',
          '\U{0085}', '\U{00A0}', '\U{1680}', '\U{2028}', '\U{2029}', '\U{202F}', '\U{205F}', '\U{3000}'}
    || ('\U{2000}' <= c <= '\U{200A}')
  }

  /** `s.lstrip()`. */
  function TrimStart(s: string): (r: string)
    ensures |r| <= |s| && r == s[|s| - |r|..]
    ensures forall i :: 0 <= i < |s| - |r| ==> IsSpace(s[i])
    ensures |r| > 0 ==> !IsSpace(r[0])
    decreases |s|
  {
    if |s| > 0 && IsSpace(s[0]) then TrimStart(s[1..]) else s
  }

  /** `s.rstrip()`. */
  function TrimEnd(s: string): (r: string)
    ensures |r| <= |s| && r == s[..|r|]
    ensures forall i :: |r| <= i < |s| ==> IsSpace(s[i])
    ensures |r| > 0 ==> !IsSpace(r[|r| - 1])
    decreases |s|
  {
    if |s| > 0 && IsSpace(s[|s| - 1]) then TrimEnd(s[..|s| - 1]) else s
  }

  /** `r` is `s` with the whitespace before index `a` and after `a + |r|` removed. */
  predicate TrimmedAt(s: string, r: string, a: int)
  {
    0 <= a <= |s| - |r| && r == s[a..a + |r|]
    && (forall i :: 0 <= i < a ==> IsSpace(s[i]))
    && (forall i :: a + |r| <= i < |s| ==> IsSpace(s[i]))
  }

  /** `s.strip()`: the slice of `s` between its leading and trailing whitespace. */
  function Strip(s: string): (r: string)
    ensures exists a :: TrimmedAt(s, r, a)
    ensures |r| > 0 ==> !IsSpace(r[0]) && !IsSpace(r[|r| - 1])
  {
    StripTrims(s);
    TrimEnd(TrimStart(s))
  }

  lemma StripTrims(s: string)
    ensures TrimmedAt(s, TrimEnd(TrimStart(s)), |s| - |TrimStart(s)|)
    ensures var r := TrimEnd(TrimStart(s)); |r| > 0 ==> !IsSpace(r[0]) && !IsSpace(r[|r| - 1])
  {
    TrimmedBoth(s, TrimStart(s), TrimEnd(TrimStart(s)));
  }

  /** Trimming the front of `s` to `t`, then the back of `t` to `r`, leaves `r` trimmed out of `s`. */
  lemma TrimmedBoth(s: string, t: string, r: string)
    requires |t| <= |s| && t == s[|s| - |t|..]
    requires forall i :: 0 <= i < |s| - |t| ==> IsSpace(s[i])
    requires |r| <= |t| && r == t[..|r|]
    requires forall i :: |r| <= i < |t| ==> IsSpace(t[i])
    requires |t| > 0 ==> !IsSpace(t[0])
    requires |r| > 0 ==> !IsSpace(r[|r| - 1])
    ensures TrimmedAt(s, r, |s| - |t|)
    ensures |r| > 0 ==> !IsSpace(r[0]) && !IsSpace(r[|r| - 1])
  {
    var a := |s| - |t|;
    if |r| > 0 {
      assert r[0] == t[0];
    }
    forall i | a + |r| <= i < |s|
      ensures IsSpace(s[i])
    {
      assert s[i] == t[i - a];
    }
  }

  /** Stripping an already stripped string changes nothing. */
  lemma StripIdempotent(s: string)
    ensures Strip(Strip(s)) == Strip(s)
  {
    var r := Strip(s);
    if |r| > 0 {
      assert TrimStart(r) == r;
      assert TrimEnd(r) == r;
    }
  }

  /**
   * The trimmed-out slice with non-space ends is unique, so it is the
   * stripped text: the contract of `Strip` determines its result.
   */
  lemma StripUnique(s: string, r: string, a: int)
    requires TrimmedAt(s, r, a)
    requires |r| > 0 ==> !IsSpace(r[0]) && !IsSpace(r[|r| - 1])
    ensures r == Strip(s)
  {
    var q := Strip(s);
    var b :| TrimmedAt(s, q, b);
    if |r| > 0 && |q| > 0 {
      assert s[a] == r[0] && s[b] == q[0];
      assert a == b;
      assert s[a + |r| - 1] == r[|r| - 1] && s[b + |q| - 1] == q[|q| - 1];
      assert |r| == |q|;
    }
  }

  /** The stripped text is a piece of the original. */
  lemma StripInfix(s: string)
    ensures Contains(s, Strip(s))
  {
    var r := Strip(s);
    var a :| TrimmedAt(s, r, a);
    OccursContains(s, r, a);
  }

  /** Stripping cannot create a pattern the text did not contain. */
  lemma StripKeepsAbsent(s: string, p: string)
    requires !Contains(s, p)
    ensures !Contains(Strip(s), p)
  {
    if Contains(Strip(s), p) {
      StripInfix(s);
      ContainsTrans(s, Strip(s), p);
    }
  }

  /** `s.split(sep)[0]`: the text before the first `sep`, or all of `s`. */
  function Before(s: string, sep: string): (r: string)
    requires |sep| > 0
    ensures IsPrefix(r, s)
    ensures !Contains(r, sep)
    ensures r == s || IsPrefix(sep, s[|r|..])
    ensures forall i :: 0 <= i < |r| ==> !OccursAt(s, sep, i)
    decreases |s|
  {
    if IsPrefix(sep, s) then ""
    else if |s| == 0 then ""
    else
      var t := Before(s[1..], sep);
      var r := [s[0]] + t;
      assert s[|r|..] == s[1..][|t|..];
      BeforeClean(s, sep, t);
      BeforeFirst(s, sep, |t|);
      r
  }

  /**
   * No `sep` starts at index 0, nor before index `n` of the tail, so none
   * starts before index `n + 1` of the text.
   */
  lemma BeforeFirst(s: string, sep: string, n: nat)
    requires |sep| > 0 && |s| > 0 && !IsPrefix(sep, s) && n < |s|
    requires forall i :: 0 <= i < n ==> !OccursAt(s[1..], sep, i)
    ensures forall i :: 0 <= i < n + 1 ==> !OccursAt(s, sep, i)
  {
    forall i | 0 <= i < n + 1
      ensures !OccursAt(s, sep, i)
    {
      if 0 < i && i + |sep| <= |s| {
        assert s[1..][i - 1..i - 1 + |sep|] == s[i..i + |sep|];
        assert !OccursAt(s[1..], sep, i - 1);
      }
    }
  }

  /**
   * One character that does not start `sep`, followed by the `sep`-free
   * text before the next `sep`, is still `sep`-free.
   */
  lemma BeforeClean(s: string, sep: string, t: string)
    requires |sep| > 0 && |s| > 0 && !IsPrefix(sep, s)
    requires IsPrefix(t, s[1..]) && !Contains(t, sep)
    ensures !Contains([s[0]] + t, sep)
  {
    var r := [s[0]] + t;
    assert r[1..] == t;
    assert r == s[..|r|];
  }

  /** Cutting at the first `sep` a second time changes nothing. */
  lemma BeforeIdempotent(s: string, sep: string)
    requires |sep| > 0
    ensures Before(Before(s, sep), sep) == Before(s, sep)
  {
    var r := Before(s, sep);
    var q := Before(r, sep);
    if q != r {
      assert IsPrefix(sep, r[|q|..]);
      assert r[|q|..|q| + |sep|] == sep;
      OccursContains(r, sep, |q|);
    }
  }

  /** Cutting at a separator that does not occur changes nothing. */
  lemma BeforeAbsent(s: string, sep: string)
    requires |sep| > 0 && !Contains(s, sep)
    ensures Before(s, sep) == s
  {
    BeforeCuts(s, sep);
  }

  /** `Before` only shortens a text that contains the separator. */
  lemma BeforeCuts(s: string, sep: string)
    requires |sep| > 0
    ensures Before(s, sep) == s || Contains(s, sep)
  {
    var r := Before(s, sep);
    if r != s {
      assert IsPrefix(sep, s[|r|..]);
      assert s[|r|..|r| + |sep|] == sep;
      OccursContains(s, sep, |r|);
    }
  }

  /** A prefix of a text without `p` is without `p` too. */
  lemma PrefixKeepsAbsent(q: string, s: string, p: string)
    requires IsPrefix(q, s) && !Contains(s, p)
    ensures !Contains(q, p)
  {
    if Contains(q, p) {
      assert s[0..|q|] == q;
      OccursContains(s, q, 0);
      ContainsTrans(s, q, p);
    }
  }
}
