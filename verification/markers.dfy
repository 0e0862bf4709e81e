/**
 * Image placeholders in generated text, rewritten the way `re.sub` does
 * with a lazy `(.*?)` group: the pattern `\(\(IMG:(.*?)\)\)` of
 * bot_v51_architect.py, bot_v52_failover.py and bot_v47_wait.py, and the
 * `[IMG: ...]` placeholder that bot_code.py describes.
 */
module Markers {
  import opened Common
  import opened PyStr

  /**
   * A placeholder: an opening literal, optionally whitespace that `\s*`
   * skips, a description (the lazy group, which `.` keeps on one line),
   * and a closing literal.
   */
  datatype Marker = Marker(open: string, close: string, skipSpace: bool)

  /** `\(\(IMG:(.*?)\)\)`. */
  const ImageMarker := Marker("((IMG:", "))", false)

  /** `\[IMG:\s*(.*?)\]`, the placeholder bot_code.py asks the model to write. */
  const BracketMarker := Marker("[IMG:", "]", true)

  /**
   * A marker the rewriting below accepts: both literals non-empty and on
   * one line, and the closing literal not starting with whitespace.
   */
  predicate WellFormed(m: Marker)
  {
    |m.open| > 0 && |m.close| > 0 && Lacks(m.open, '\n') && Lacks(m.close, '\n') && !IsSpace(m.close[0])
  }

  /**
   * The lazy search for the closing literal: the index of the first
   * `close` that starts before any newline, or None.
   */
  function FindClose(t: string, close: string): Option<nat>
    requires |close| > 0
    decreases |t|
  {
    if IsPrefix(close, t) then Some(0)
    else if |t| == 0 || t[0] == '\n' then None
    else
      match FindClose(t[1..], close)
      case Some(j) => Some(j + 1)
      case None => None
  }

  /** `close` starts at index `j` of `t` and no newline comes before it. */
  predicate ClosesAt(t: string, close: string, j: int)
  {
    0 <= j && j + |close| <= |t| && IsPrefix(close, t[j..]) && Lacks(t[..j], '\n')
  }

  /** A found index is the first place the description can end. */
  lemma {:induction false} FindCloseFound(t: string, close: string)
    requires |close| > 0 && FindClose(t, close).Some?
    ensures ClosesAt(t, close, FindClose(t, close).value)
    ensures forall j :: 0 <= j < FindClose(t, close).value ==> !IsPrefix(close, t[j..])
    decreases |t|
  {
    if !IsPrefix(close, t) {
      var j := FindClose(t[1..], close).value;
      FindCloseFound(t[1..], close);
      assert t[j + 1..] == t[1..][j..];
      assert t[..j + 1] == [t[0]] + t[1..][..j];
      forall k | 0 < k < j + 1
        ensures !IsPrefix(close, t[k..])
      {
        assert t[k..] == t[1..][k - 1..];
      }
    }
  }

  /** When nothing is found, no closing literal starts before the line ends. */
  lemma {:induction false} FindCloseNone(t: string, close: string, j: int)
    requires |close| > 0 && FindClose(t, close).None?
    ensures !ClosesAt(t, close, j)
    decreases |t|
  {
    if 0 < j <= |t| && t[0] != '\n' {
      FindCloseNone(t[1..], close, j - 1);
      assert t[j..] == t[1..][j - 1..];
      assert t[..j] == [t[0]] + t[1..][..j - 1];
    } else if 0 < j <= |t| {
      assert t[..j][0] == t[0];
    }
  }

  /** FindClose returns the first closing literal reachable on the line. */
  lemma FindCloseLeast(t: string, close: string, j: int)
    requires |close| > 0 && ClosesAt(t, close, j)
    requires forall k :: 0 <= k < j ==> !IsPrefix(close, t[k..])
    ensures FindClose(t, close) == Some(j)
  {
    var r := FindClose(t, close);
    if r.None? {
      FindCloseNone(t, close, j);
    } else {
      FindCloseFound(t, close);
    }
  }

  /** The result of trying the marker at the head of a text. */
  datatype Match = Miss | Hit(gap: string, desc: string, rest: string)

  /** The text after the opening literal, with the `\s*` run removed when the marker has one. */
  function Body(s: string, m: Marker): string
    requires IsPrefix(m.open, s)
  {
    if m.skipSpace then TrimStart(s[|m.open|..]) else s[|m.open|..]
  }

  /**
   * One `re.match` of the marker at the head of `s`: on a hit, `s` splits
   * into the opening literal, skipped whitespace, a one-line description,
   * the closing literal and the rest.
   */
  function MatchAt(s: string, m: Marker): Match
    requires WellFormed(m)
  {
    if !IsPrefix(m.open, s) then Miss
    else
      var body := Body(s, m);
      match FindClose(body, m.close)
      case None => Miss
      case Some(j) =>
        FindCloseFound(body, m.close);
        Hit(Gap(s, m), body[..j], body[j + |m.close|..])
  }

  /**
   * A hit splits `s` into the opening literal, skipped whitespace (none
   * unless the marker skips it), a one-line description, the closing
   * literal and the rest.
   */
  lemma MatchSplits(s: string, m: Marker)
    requires WellFormed(m)
    ensures var r := MatchAt(s, m);
      r.Hit? ==>
        (s == m.open + r.gap + (r.desc + m.close + r.rest)
         && Lacks(r.desc, '\n') && (m.skipSpace || r.gap == "")
         && forall i :: 0 <= i < |r.gap| ==> IsSpace(r.gap[i]))
  {
    if IsPrefix(m.open, s) {
      var body := Body(s, m);
      if FindClose(body, m.close).Some? {
        var j := FindClose(body, m.close).value;
        FindCloseFound(body, m.close);
        BodyAfterGap(s, m);
        GapSpaces(s, m);
        SplitAt(body, j, m.close);
      }
    }
  }

  /** `s` splits around an occurrence of `p` at index `i`. */
  lemma SplitAt(s: string, i: int, p: string)
    requires 0 <= i && i + |p| <= |s| && IsPrefix(p, s[i..])
    ensures s == s[..i] + p + s[i + |p|..]
  {
    assert s[i..] == p + s[i + |p|..];
  }

  /** The whitespace `\s*` consumed after the opening literal. */
  function Gap(s: string, m: Marker): string
    requires IsPrefix(m.open, s)
  {
    var after := s[|m.open|..];
    after[..|after| - |Body(s, m)|]
  }

  lemma BodyAfterGap(s: string, m: Marker)
    requires IsPrefix(m.open, s)
    ensures s == m.open + Gap(s, m) + Body(s, m)
    ensures !m.skipSpace ==> Gap(s, m) == ""
  {
    var after := s[|m.open|..];
    assert s == m.open + after;
    var b := Body(s, m);
    var g := Gap(s, m);
    var k := |after| - |b|;
    assert b == after[k..];
    assert g == after[..k];
    assert after == g + b;
    Regroup(m.open, g, b);
  }

  /** The gap is whitespace only. */
  lemma GapSpaces(s: string, m: Marker)
    requires IsPrefix(m.open, s)
    ensures forall i :: 0 <= i < |Gap(s, m)| ==> IsSpace(Gap(s, m)[i])
  {
    var after := s[|m.open|..];
    var g := Gap(s, m);
    if m.skipSpace {
      forall i | 0 <= i < |g|
        ensures IsSpace(g[i])
      {
        assert g[i] == after[i];
      }
    }
  }

  /**
   * `re.sub(pattern, render, s)`: scanning from the left, every match is
   * replaced by `render` of its description and the scan resumes after it;
   * elsewhere characters are copied.
   */
  function Rewrite(s: string, m: Marker, render: string -> string): string
    requires WellFormed(m)
    decreases |s|
  {
    if |s| == 0 then ""
    else
      MatchSplits(s, m);
      match MatchAt(s, m)
      case Hit(_, desc, rest) => render(desc) + Rewrite(rest, m, render)
      case Miss => [s[0]] + Rewrite(s[1..], m, render)
  }

  /** Some complete marker starts somewhere in `s`. */
  predicate Marked(s: string, m: Marker)
    requires WellFormed(m)
    decreases |s|
  {
    |s| > 0 && (MatchAt(s, m).Hit? || Marked(s[1..], m))
  }

  // ---------------------------------------------------------------------
  // Rewriting lemmas

  /** A text without the opening literal is left as it is. */
  lemma {:induction false} RewriteAbsent(s: string, m: Marker, render: string -> string)
    requires WellFormed(m) && !Contains(s, m.open)
    ensures Rewrite(s, m, render) == s
    decreases |s|
  {
    if |s| > 0 {
      assert !IsPrefix(m.open, s);
      RewriteAbsent(s[1..], m, render);
      assert s == [s[0]] + s[1..];
    }
  }

  /** Text without the first character of the opening literal is copied unchanged. */
  lemma {:induction false} RewritePlainPrefix(a: string, t: string, m: Marker, render: string -> string)
    requires WellFormed(m) && Lacks(a, m.open[0])
    ensures Rewrite(a + t, m, render) == a + Rewrite(t, m, render)
    decreases |a|
  {
    if |a| == 0 {
      assert a + t == t;
    } else {
      var s := a + t;
      assert s[0] == a[0] && s[1..] == a[1..] + t;
      RewriteMiss(s, m, render);
      RewritePlainPrefix(a[1..], t, m, render);
      var r := Rewrite(t, m, render);
      assert Rewrite(s, m, render) == [a[0]] + (a[1..] + r);
      Regroup([a[0]], a[1..], r);
      assert [a[0]] + a[1..] == a;
    }
  }

  /** A text not starting with the opening literal's first character keeps that character. */
  lemma RewriteMiss(s: string, m: Marker, render: string -> string)
    requires WellFormed(m) && |s| > 0 && s[0] != m.open[0]
    ensures Rewrite(s, m, render) == [s[0]] + Rewrite(s[1..], m, render)
  {
    assert !IsPrefix(m.open, s);
    assert MatchAt(s, m) == Miss;
  }

  /**
   * No closing literal starts inside `desc` when `close` follows it, so
   * the lazy group, scanning from the start of `desc`, stops right after it.
   */
  predicate NoEarlyClose(desc: string, close: string)
  {
    forall k :: 0 <= k < |desc| ==> !IsPrefix(close, desc[k..] + close)
  }

  /** A description without the closing literal's first character cannot close early. */
  lemma LacksNoEarlyClose(desc: string, close: string)
    requires |close| > 0 && Lacks(desc, close[0])
    ensures NoEarlyClose(desc, close)
  {
    forall k | 0 <= k < |desc|
      ensures !IsPrefix(close, desc[k..] + close)
    {
      assert (desc[k..] + close)[0] == desc[k];
    }
  }

  /** `lstrip` removes exactly a whitespace run in front of a text that starts with a non-space. */
  lemma {:induction false} TrimStartGap(gap: string, rest: string)
    requires forall i :: 0 <= i < |gap| ==> IsSpace(gap[i])
    requires |rest| > 0 && !IsSpace(rest[0])
    ensures TrimStart(gap + rest) == rest
    decreases |gap|
  {
    if |gap| == 0 {
      assert gap + rest == rest;
    } else {
      assert (gap + rest)[1..] == gap[1..] + rest;
      TrimStartGap(gap[1..], rest);
    }
  }

  /** A closing literal at `k` of `u + v`, with `u` long enough to hold it, lies in `u`. */
  lemma PrefixWithin(p: string, u: string, v: string)
    requires |p| <= |u| && IsPrefix(p, u + v)
    ensures IsPrefix(p, u)
  {
    assert (u + v)[..|p|] == u[..|p|];
  }

  /**
   * A complete one-line placeholder, with any whitespace run after the
   * opening literal that the marker skips, is replaced by `render(desc)`
   * and the scan resumes after it. The description ends at the first
   * closing literal, and when the marker skips whitespace it starts at the
   * first non-space character.
   */
  lemma RewriteSingle(gap: string, desc: string, t: string, m: Marker, render: string -> string)
    requires WellFormed(m) && Lacks(desc, '\n') && NoEarlyClose(desc, m.close)
    requires m.skipSpace ==> (forall i :: 0 <= i < |gap| ==> IsSpace(gap[i])) && (|desc| == 0 || !IsSpace(desc[0]))
    requires !m.skipSpace ==> gap == ""
    ensures Rewrite(m.open + (gap + (desc + (m.close + t))), m, render) == render(desc) + Rewrite(t, m, render)
  {
    MatchPlaceholder(gap, desc, t, m);
  }

  /** `re.match` at a complete placeholder hits, with its description and the text after it. */
  lemma MatchPlaceholder(gap: string, desc: string, t: string, m: Marker)
    requires WellFormed(m) && Lacks(desc, '\n') && NoEarlyClose(desc, m.close)
    requires m.skipSpace ==> (forall i :: 0 <= i < |gap| ==> IsSpace(gap[i])) && (|desc| == 0 || !IsSpace(desc[0]))
    requires !m.skipSpace ==> gap == ""
    ensures var r := MatchAt(m.open + (gap + (desc + (m.close + t))), m);
      r.Hit? && r.desc == desc && r.rest == t
  {
    BodyOfPlaceholder(gap, desc, t, m);
    FirstCloseAfter(desc, t, m.close);
    MatchAtClose(m.open + (gap + (desc + (m.close + t))), m, desc, t);
  }

  /** When the lazy search stops right after `desc`, the match yields `desc` and the rest. */
  lemma MatchAtClose(s: string, m: Marker, desc: string, rest: string)
    requires WellFormed(m) && IsPrefix(m.open, s) && Body(s, m) == desc + (m.close + rest)
    requires FindClose(Body(s, m), m.close) == Some(|desc|)
    ensures var r := MatchAt(s, m); r.Hit? && r.desc == desc && r.rest == rest
  {
    var body := Body(s, m);
    FindCloseFound(body, m.close);
    assert body[..|desc|] == desc;
    assert body[|desc| + |m.close|..] == rest;
  }

  /** After the opening literal and the skipped whitespace, the body is the description onwards. */
  lemma BodyOfPlaceholder(gap: string, desc: string, t: string, m: Marker)
    requires WellFormed(m)
    requires m.skipSpace ==> (forall i :: 0 <= i < |gap| ==> IsSpace(gap[i])) && (|desc| == 0 || !IsSpace(desc[0]))
    requires !m.skipSpace ==> gap == ""
    ensures var s := m.open + (gap + (desc + (m.close + t)));
      IsPrefix(m.open, s) && Body(s, m) == desc + (m.close + t)
  {
    var rest := desc + (m.close + t);
    var s := m.open + (gap + rest);
    assert s[..|m.open|] == m.open;
    assert s[|m.open|..] == gap + rest;
    if m.skipSpace {
      assert rest[0] == if |desc| > 0 then desc[0] else m.close[0];
      TrimStartGap(gap, rest);
    } else {
      assert gap + rest == rest;
    }
  }

  /** The lazy search finds the closing literal right after a description that cannot close early. */
  lemma FirstCloseAfter(desc: string, t: string, close: string)
    requires |close| > 0 && Lacks(desc, '\n') && NoEarlyClose(desc, close)
    ensures FindClose(desc + (close + t), close) == Some(|desc|)
  {
    var body := desc + (close + t);
    var j := |desc|;
    assert body[j..] == close + t;
    assert body[..j] == desc;
    forall k | 0 <= k < j
      ensures !IsPrefix(close, body[k..])
    {
      assert body[k..] == (desc[k..] + close) + t;
      if IsPrefix(close, body[k..]) {
        PrefixWithin(close, desc[k..] + close, t);
      }
    }
    FindCloseLeast(body, close, j);
  }

  // ---------------------------------------------------------------------
  // No image marker survives

  /**
   * Every rendering is a tag: it starts with '<' and holds no parenthesis
   * and no newline (the percent-encoding of section 2.1 of RFC 3986 turns
   * '(' and ')' of a description into %28 and %29).
   */
  ghost predicate TagLike(render: string -> string)
  {
    forall d :: |render(d)| > 0 && render(d)[0] == '<' && Lacks(render(d), '(') && Lacks(render(d), ')') && Lacks(render(d), '\n')
  }

  /** A prefix of the rewritten text that holds no '<' was already a prefix of the input. */
  lemma {:induction false} HeadFromRender(w: string, t: string, m: Marker, render: string -> string)
    requires WellFormed(m) && TagLike(render) && Lacks(w, '<')
    ensures IsPrefix(w, Rewrite(t, m, render)) ==> IsPrefix(w, t)
    decreases |t|
  {
    if |w| > 0 && |t| > 0 {
      var r := Rewrite(t, m, render);
      match MatchAt(t, m)
      case Hit(_, d, rest) =>
        assert r[0] == render(d)[0] == '<';
      case Miss =>
        HeadFromRender(w[1..], t[1..], m, render);
        if IsPrefix(w, r) {
          assert w[1..] == Rewrite(t[1..], m, render)[..|w| - 1];
          assert t[..|w|] == [t[0]] + t[1..][..|w| - 1];
        }
    }
  }

  /** A marker that matches has its closing literal on the line. */
  lemma HitCloses(t: string, m: Marker)
    requires WellFormed(m) && !m.skipSpace
    ensures MatchAt(t, m).Hit? ==> FindClose(t, m.close).Some?
  {
    var h := MatchAt(t, m);
    MatchSplits(t, m);
    if h.Hit? {
      var j := |m.open| + |h.desc|;
      assert t == (m.open + h.desc) + (m.close + h.rest);
      assert t[j..] == m.close + h.rest;
      assert t[..j] == m.open + h.desc;
      if FindClose(t, m.close).None? {
        FindCloseNone(t, m.close, j);
      }
    }
  }

  /**
   * Rewriting image markers puts no "))" in front of the first newline
   * that was not there before.
   */
  lemma {:induction false} FindCloseKept(t: string, render: string -> string)
    requires TagLike(render) && FindClose(t, "))").None?
    ensures FindClose(Rewrite(t, ImageMarker, render), "))").None?
    decreases |t|
  {
    var m := ImageMarker;
    if |t| > 0 {
      HitCloses(t, m);
      var r := Rewrite(t, m, render);
      var u := Rewrite(t[1..], m, render);
      assert r == [t[0]] + u;
      if t[0] != '\n' {
        FindCloseKept(t[1..], render);
        HeadFromRender(")", t[1..], m, render);
        assert r[1..] == u;
      }
    }
  }

  /** A complete marker in `a + b` lies in `b` when `a` has no opening character. */
  lemma {:induction false} MarkedSkip(a: string, b: string, m: Marker)
    requires WellFormed(m) && Lacks(a, m.open[0])
    ensures Marked(a + b, m) ==> Marked(b, m)
    decreases |a|
  {
    if |a| > 0 {
      var s := a + b;
      assert !IsPrefix(m.open, s) by { assert s[0] != m.open[0]; }
      MarkedSkip(a[1..], b, m);
      assert s[1..] == a[1..] + b;
    } else {
      assert a + b == b;
    }
  }

  /** After rewriting, no complete `((IMG:...))` marker is left. */
  lemma {:induction false} NoMarkerLeft(s: string, render: string -> string)
    requires TagLike(render)
    ensures !Marked(Rewrite(s, ImageMarker, render), ImageMarker)
    decreases |s|
  {
    var m := ImageMarker;
    if |s| > 0 {
      var r := Rewrite(s, m, render);
      match MatchAt(s, m)
      case Hit(_, d, rest) =>
        MatchSplits(s, m);
        NoMarkerLeft(rest, render);
        MarkedSkip(render(d), Rewrite(rest, m, render), m);
      case Miss =>
        var u := Rewrite(s[1..], m, render);
        NoMarkerLeft(s[1..], render);
        UnmatchedStaysUnmatched(s, render);
        assert r[1..] == u;
    }
  }

  /** A head where no marker matched still matches none once the rest is rewritten. */
  lemma UnmatchedStaysUnmatched(s: string, render: string -> string)
    requires TagLike(render) && |s| > 0 && MatchAt(s, ImageMarker).Miss?
    ensures MatchAt([s[0]] + Rewrite(s[1..], ImageMarker, render), ImageMarker).Miss?
  {
    var m := ImageMarker;
    var u := Rewrite(s[1..], m, render);
    var r := [s[0]] + u;
    assert |r| >= 6 ==> r[..6] == [s[0]] + u[..5];
    assert m.open == ['('] + "(IMG:";
    if s[0] != '(' {
      assert |r| >= 6 ==> r[..6][0] == s[0];
    } else if IsPrefix(m.open, s) {
      OpenedKept(s, render);
      FindCloseKept(s[6..], render);
      assert Body(r, m) == Rewrite(s[6..], m, render);
    } else {
      HeadFromRender("(IMG:", s[1..], m, render);
      assert |s| >= 6 ==> s[..6] == [s[0]] + s[1..][..5];
      assert !IsPrefix("(IMG:", s[1..]);
      assert |r| >= 6 ==> r[..6][1..] == u[..5];
      assert |m.open| == 6 && m.open[1..] == "(IMG:";
    }
  }

  /**
   * A `((IMG:` that did not match is copied, and what follows it is
   * rewritten on its own.
   */
  lemma OpenedKept(s: string, render: string -> string)
    requires IsPrefix(ImageMarker.open, s) && MatchAt(s, ImageMarker).Miss?
    ensures FindClose(s[6..], "))").None?
    ensures Rewrite(s, ImageMarker, render) == ImageMarker.open + Rewrite(s[6..], ImageMarker, render)
  {
    var m := ImageMarker;
    var t := s[6..];
    assert Body(s, m) == t;
    assert s[..6] == m.open;
    var s1 := s[1..];
    assert s1[..5] == "(IMG:" && s1[5..] == t by { assert s == m.open + t; }
    RewriteMissed(s, m, render);
    SecondOpenKept(s1, render);
    var r := Rewrite(t, m, render);
    assert Rewrite(s1, m, render) == "(IMG:" + r;
    assert Rewrite(s, m, render) == [s[0]] + ("(IMG:" + r);
    Regroup([s[0]], "(IMG:", r);
    assert [s[0]] + "(IMG:" == m.open;
  }

  /** The `(IMG:` after the first parenthesis of an unmatched `((IMG:` is copied too. */
  lemma SecondOpenKept(s1: string, render: string -> string)
    requires IsPrefix("(IMG:", s1)
    ensures Rewrite(s1, ImageMarker, render) == "(IMG:" + Rewrite(s1[5..], ImageMarker, render)
  {
    var m := ImageMarker;
    var t := s1[5..];
    assert s1 == "(IMG:" + t;
    assert !IsPrefix(m.open, s1) by { assert s1[1] == 'I'; }
    RewriteMissed(s1, m, render);
    assert s1[1..] == "IMG:" + t;
    RewritePlainPrefix("IMG:", t, m, render);
    var r := Rewrite(t, m, render);
    assert Rewrite(s1[1..], m, render) == "IMG:" + r;
    assert Rewrite(s1, m, render) == [s1[0]] + ("IMG:" + r);
    Regroup([s1[0]], "IMG:", r);
    assert [s1[0]] + "IMG:" == "(IMG:";
  }

  /** Where no marker matches, the first character is copied and the scan moves on by one. */
  lemma RewriteMissed(s: string, m: Marker, render: string -> string)
    requires WellFormed(m) && |s| > 0 && MatchAt(s, m).Miss?
    ensures Rewrite(s, m, render) == [s[0]] + Rewrite(s[1..], m, render)
  {
  }
}
