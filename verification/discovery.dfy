/**
 * How the bots decide which Gemini models to try: the models the listing
 * call reports as supporting `generateContent`, ranked so that fast
 * models come first, with a fixed fallback (bot_v51_architect.py), a
 * merged backup list (bot_v52_failover.py) or the first usable model
 * (main.py).
 */
module Discovery {
  import opened Common
  import opened PyStr

  /** One model reported by `genai.list_models()`. */
  datatype ListedModel = ListedModel(name: string, methods: seq<string>)

  /**
   * One run of `genai.list_models()`: the models it yields, and whether it
   * raises after yielding them.
   */
  datatype Listing = Listing(models: seq<ListedModel>, raises: bool)

  /** `'generateContent' in m.supported_generation_methods`. */
  predicate Generates(m: ListedModel)
  {
    "generateContent" in m.methods
  }

  /** The names of the generating models, in listing order. */
  function Qualifying(ms: seq<ListedModel>): (r: seq<string>)
    ensures |r| <= |ms|
    decreases |ms|
  {
    if |ms| == 0 then []
    else (if Generates(ms[0]) then [ms[0].name] else []) + Qualifying(ms[1..])
  }

  /** Filtering distributes over concatenation, so listing order is kept. */
  lemma {:induction false} QualifyingAppend(a: seq<ListedModel>, b: seq<ListedModel>)
    ensures Qualifying(a + b) == Qualifying(a) + Qualifying(b)
    decreases |a|
  {
    if |a| == 0 {
      assert a + b == b;
    } else {
      var h := if Generates(a[0]) then [a[0].name] else [];
      assert (a + b)[0] == a[0] && (a + b)[1..] == a[1..] + b;
      assert Qualifying(a + b) == h + Qualifying(a[1..] + b);
      QualifyingAppend(a[1..], b);
      Regroup(h, Qualifying(a[1..]), Qualifying(b));
    }
  }

  /** A name is kept exactly when some listed model of that name generates content. */
  lemma {:induction false} QualifyingMembers(ms: seq<ListedModel>, n: string)
    ensures n in Qualifying(ms) <==> exists i :: 0 <= i < |ms| && ms[i].name == n && Generates(ms[i])
    decreases |ms|
  {
    if |ms| > 0 {
      QualifyingMembers(ms[1..], n);
      if n in Qualifying(ms[1..]) {
        var i :| 0 <= i < |ms[1..]| && ms[1..][i].name == n && Generates(ms[1..][i]);
        assert ms[i + 1] == ms[1..][i];
      }
      if exists i :: 0 <= i < |ms| && ms[i].name == n && Generates(ms[i]) {
        var i :| 0 <= i < |ms| && ms[i].name == n && Generates(ms[i]);
        if i > 0 {
          assert ms[1..][i - 1] == ms[i];
        }
      }
    }
  }

  // ---------------------------------------------------------------------
  // Ranking

  /** The sort key: flash and 1.5 → 0, flash → 1, 1.5 → 2, anything else → 3. */
  function Rank(name: string): nat
  {
    if Contains(name, "flash") && Contains(name, "1.5") then 0
    else if Contains(name, "flash") then 1
    else if Contains(name, "1.5") then 2
    else 3
  }

  /** Keys never decrease along `s`. */
  predicate Sorted(key: string -> nat, s: seq<string>)
  {
    forall i, j :: 0 <= i < j < |s| ==> key(s[i]) <= key(s[j])
  }

  /** The names whose key is `k`, in order. */
  function Bucket(key: string -> nat, s: seq<string>, k: nat): (r: seq<string>)
    ensures |r| <= |s|
    decreases |s|
  {
    if |s| == 0 then []
    else (if key(s[0]) == k then [s[0]] else []) + Bucket(key, s[1..], k)
  }

  /** Puts `n` in front of the first name whose key is at least its own. */
  function InsertBy(key: string -> nat, n: string, s: seq<string>): seq<string>
    decreases |s|
  {
    if |s| == 0 || key(n) <= key(s[0]) then [n] + s
    else [s[0]] + InsertBy(key, n, s[1..])
  }

  /** `list.sort(key=key)`: Python's sort is stable, and so is this insertion sort. */
  function SortBy(key: string -> nat, s: seq<string>): seq<string>
    decreases |s|
  {
    if |s| == 0 then [] else InsertBy(key, s[0], SortBy(key, s[1..]))
  }

  /** The ranking both bots apply to their model lists. */
  function SortByRank(s: seq<string>): seq<string>
  {
    SortBy(Rank, s)
  }

  lemma {:induction false} InsertPermutes(key: string -> nat, n: string, s: seq<string>)
    ensures multiset(InsertBy(key, n, s)) == multiset([n] + s)
    decreases |s|
  {
    if |s| > 0 && key(n) > key(s[0]) {
      InsertPermutes(key, n, s[1..]);
      assert s == [s[0]] + s[1..];
    }
  }

  lemma {:induction false} InsertSorted(key: string -> nat, n: string, s: seq<string>)
    requires Sorted(key, s)
    ensures Sorted(key, InsertBy(key, n, s))
    decreases |s|
  {
    if |s| == 0 || key(n) <= key(s[0]) {
      SortedCons(key, n, s);
    } else {
      InsertSorted(key, n, s[1..]);
      InsertPermutes(key, n, s[1..]);
      var t := InsertBy(key, n, s[1..]);
      forall y | y in t
        ensures key(s[0]) <= key(y)
      {
        assert y in multiset([n] + s[1..]);
        if y != n {
          assert y in s[1..];
        }
      }
      SortedCons(key, s[0], t);
    }
  }

  /** A name no greater than every name of a sorted list can go in front of it. */
  lemma SortedCons(key: string -> nat, x: string, t: seq<string>)
    requires Sorted(key, t) && forall y :: y in t ==> key(x) <= key(y)
    ensures Sorted(key, [x] + t)
  {
    var u := [x] + t;
    forall i, j | 0 <= i < j < |u|
      ensures key(u[i]) <= key(u[j])
    {
      assert u[j] == t[j - 1];
      if i > 0 {
        assert u[i] == t[i - 1];
      }
    }
  }

  lemma {:induction false} InsertBuckets(key: string -> nat, n: string, s: seq<string>, k: nat)
    ensures Bucket(key, InsertBy(key, n, s), k) == Bucket(key, [n] + s, k)
    decreases |s|
  {
    if |s| > 0 && key(n) > key(s[0]) {
      InsertBuckets(key, n, s[1..], k);
      assert ([s[0]] + InsertBy(key, n, s[1..]))[1..] == InsertBy(key, n, s[1..]);
      assert ([n] + s)[1..] == s;
      assert ([n] + s[1..])[1..] == s[1..];
      assert s == [s[0]] + s[1..];
    }
  }

  /**
   * The sorted list is a permutation of the input, ordered by key, and
   * keeps names of equal key in their original order.
   */
  lemma {:induction false} SortByCorrect(key: string -> nat, s: seq<string>)
    ensures Sorted(key, SortBy(key, s))
    ensures multiset(SortBy(key, s)) == multiset(s)
    ensures forall k: nat :: Bucket(key, SortBy(key, s), k) == Bucket(key, s, k)
    decreases |s|
  {
    if |s| > 0 {
      SortByCorrect(key, s[1..]);
      var t := SortBy(key, s[1..]);
      InsertSorted(key, s[0], t);
      InsertPermutes(key, s[0], t);
      assert s == [s[0]] + s[1..];
      forall k: nat
        ensures Bucket(key, SortBy(key, s), k) == Bucket(key, s, k)
      {
        InsertBuckets(key, s[0], t, k);
        assert ([s[0]] + t)[1..] == t;
      }
    }
  }

  // ---------------------------------------------------------------------
  // bot_v51_architect.py

  const FallbackModel := "gemini-pro"

  /** `get_working_models`: the ranked generating models, or the fallback alone. */
  function WorkingModels(l: Listing): (r: seq<string>)
    ensures l.raises || |Qualifying(l.models)| == 0 ==> r == [FallbackModel]
    ensures !l.raises && |Qualifying(l.models)| > 0 ==>
      Sorted(Rank, r) && multiset(r) == multiset(Qualifying(l.models))
      && forall k: nat :: Bucket(Rank, r, k) == Bucket(Rank, Qualifying(l.models), k)
  {
    if l.raises then [FallbackModel]
    else
      var valid := Qualifying(l.models);
      if |valid| == 0 then [FallbackModel]
      else
        SortByCorrect(Rank, valid);
        SortByRank(valid)
  }

  // ---------------------------------------------------------------------
  // bot_v52_failover.py

  const BackupModels: seq<string> := ["gemini-1.5-pro", "gemini-pro", "gemini-1.0-pro"]

  /** Some entry of `list` contains `b` as a substring (the loop with `break`). */
  predicate Covered(list: seq<string>, b: string)
    decreases |list|
  {
    |list| > 0 && (Contains(list[0], b) || Covered(list[1..], b))
  }

  lemma {:induction false} CoveredIff(list: seq<string>, b: string)
    ensures Covered(list, b) <==> exists i :: 0 <= i < |list| && Contains(list[i], b)
    decreases |list|
  {
    if |list| > 0 {
      CoveredIff(list[1..], b);
      if exists i :: 0 <= i < |list| && Contains(list[i], b) {
        var i :| 0 <= i < |list| && Contains(list[i], b);
        if i > 0 {
          assert list[1..][i - 1] == list[i];
        }
      }
      if Covered(list[1..], b) {
        var i :| 0 <= i < |list[1..]| && Contains(list[1..][i], b);
        assert list[i + 1] == list[1..][i];
      }
    }
  }

  lemma CoveredAppend(list: seq<string>, extra: seq<string>, b: string)
    ensures Covered(list, b) ==> Covered(list + extra, b)
  {
    CoveredIff(list, b);
    CoveredIff(list + extra, b);
    if Covered(list, b) {
      var i :| 0 <= i < |list| && Contains(list[i], b);
      assert (list + extra)[i] == list[i];
    }
  }

  /**
   * The backup merge: each backup, in order, is appended unless an entry
   * of the list built so far already contains it.
   */
  function MergeBackups(valid: seq<string>, backups: seq<string>): seq<string>
    decreases |backups|
  {
    if |backups| == 0 then valid
    else
      var next := if Covered(valid, backups[0]) then valid else valid + [backups[0]];
      MergeBackups(next, backups[1..])
  }

  /**
   * The merge keeps the discovered names in place, covers every backup,
   * and appends only backups that nothing before them covered.
   */
  lemma {:induction false} MergeBackupsCorrect(valid: seq<string>, backups: seq<string>)
    ensures |valid| <= |MergeBackups(valid, backups)| && MergeBackups(valid, backups)[..|valid|] == valid
    ensures forall b :: b in backups ==> Covered(MergeBackups(valid, backups), b)
    ensures var r := MergeBackups(valid, backups);
      forall j :: |valid| <= j < |r| ==> r[j] in backups && !Covered(r[..j], r[j])
    decreases |backups|
  {
    if |backups| > 0 {
      var b := backups[0];
      var next := if Covered(valid, b) then valid else valid + [b];
      MergeBackupsCorrect(next, backups[1..]);
      var r := MergeBackups(valid, backups);
      assert r[..|next|] == next;
      assert r[..|valid|] == next[..|valid|] == valid;
      assert Covered(next, b) by {
        if !Covered(valid, b) {
          CoveredIff(next, b);
          assert Contains(next[|valid|], b) by {
            assert next[|valid|] == b;
            assert IsPrefix(b, b) by { assert b[..|b|] == b; }
          }
        }
      }
      CoveredAppend(next, r[|next|..], b);
      assert next + r[|next|..] == r;
      forall j | |valid| <= j < |r|
        ensures r[j] in backups && !Covered(r[..j], r[j])
      {
        if j == |valid| && !Covered(valid, b) {
          assert r[j] == next[j] == b;
          assert r[..j] == valid;
        }
      }
    }
  }

  /**
   * The merge read as the loop runs: handling one more backup appends it
   * exactly when nothing in the list built so far contains it.
   */
  lemma {:induction false} MergeBackupsStep(valid: seq<string>, backups: seq<string>, b: string)
    ensures var m := MergeBackups(valid, backups);
      MergeBackups(valid, backups + [b]) == if Covered(m, b) then m else m + [b]
    decreases |backups|
  {
    if |backups| == 0 {
      assert backups + [b] == [b];
      assert [b][1..] == [];
    } else {
      var next := if Covered(valid, backups[0]) then valid else valid + [backups[0]];
      assert (backups + [b])[0] == backups[0];
      assert (backups + [b])[1..] == backups[1..] + [b];
      MergeBackupsStep(next, backups[1..], b);
    }
  }

  /** `x` is `y` with some elements left out, the rest kept in order. */
  predicate InOrder(x: seq<string>, y: seq<string>)
    decreases |y|
  {
    |x| == 0 || (|y| > 0 && ((x[0] == y[0] && InOrder(x[1..], y[1..])) || InOrder(x, y[1..])))
  }

  /** The appended names come in the order the backup list gives them. */
  lemma {:induction false} MergeBackupsInOrder(valid: seq<string>, backups: seq<string>)
    ensures var r := MergeBackups(valid, backups);
      |valid| <= |r| && InOrder(r[|valid|..], backups)
    decreases |backups|
  {
    MergeBackupsCorrect(valid, backups);
    if |backups| > 0 {
      var b := backups[0];
      var next := if Covered(valid, b) then valid else valid + [b];
      MergeBackupsInOrder(next, backups[1..]);
      MergeBackupsCorrect(next, backups[1..]);
      var r := MergeBackups(valid, backups);
      var x := r[|valid|..];
      if !Covered(valid, b) && |x| > 0 {
        assert x[0] == r[|valid|] == next[|valid|] == b;
        assert x[1..] == r[|next|..];
      }
    }
  }

  /** `get_optimized_model_list`: the kept models plus missing backups, ranked. */
  function OptimizedModels(l: Listing): (r: seq<string>)
    ensures var merged := MergeBackups(Qualifying(l.models), BackupModels);
      Sorted(Rank, r) && multiset(r) == multiset(merged) && forall k: nat :: Bucket(Rank, r, k) == Bucket(Rank, merged, k)
  {
    var merged := MergeBackups(Qualifying(l.models), BackupModels);
    SortByCorrect(Rank, merged);
    SortByRank(merged)
  }

  lemma RankPro15()
    ensures Rank("gemini-1.5-pro") == 2
  {
    assert OccursAt("gemini-1.5-pro", "1.5", 7);
    OccursContains("gemini-1.5-pro", "1.5", 7);
    assert Lacks("gemini-1.5-pro", 'f');
    LacksNotContains("gemini-1.5-pro", "flash");
  }

  lemma RankPro()
    ensures Rank("gemini-pro") == 3
  {
    assert Lacks("gemini-pro", 'f') && Lacks("gemini-pro", '1');
    LacksNotContains("gemini-pro", "flash");
    LacksNotContains("gemini-pro", "1.5");
  }

  lemma RankPro10()
    ensures Rank("gemini-1.0-pro") == 3
  {
    assert Lacks("gemini-1.0-pro", 'f');
    LacksNotContains("gemini-1.0-pro", "flash");
    No15In10();
  }

  /** `1.5` is not a substring of `gemini-1.0-pro`: its only `1` is followed by `.0`. */
  lemma No15In10()
    ensures !Contains("gemini-1.0-pro", "1.5")
  {
    var rep := "gemini-1.0-pro";
    forall i | 0 <= i < |rep| && rep[i] == '1'
      ensures MismatchAfter("1.5", rep, i)
    {
      assert i == 7;
    }
    ShieldsFromMismatch("1.5", rep);
    ShieldsNotContains("1.5", rep);
  }

  /** `gemini-pro` is not a substring of `gemini-1.5-pro`. */
  lemma ProNotIn15()
    ensures !Contains("gemini-1.5-pro", "gemini-pro")
  {
    assert OnlyAtHead("gemini-1.5-pro", 'g');
    ShieldsAtStart("gemini-pro", "gemini-1.5-pro", 7);
    ShieldsNotContains("gemini-pro", "gemini-1.5-pro");
  }

  /** One round of the merge that appends the backup. */
  lemma MergeAppends(valid: seq<string>, backups: seq<string>)
    requires |backups| > 0 && !Covered(valid, backups[0])
    ensures MergeBackups(valid, backups) == MergeBackups(valid + [backups[0]], backups[1..])
  {
  }

  lemma NotCovered(list: seq<string>, b: string)
    requires forall i :: 0 <= i < |list| ==> !Contains(list[i], b)
    ensures !Covered(list, b)
  {
    CoveredIff(list, b);
  }

  /** `gemini-1.0-pro` is not a substring of `gemini-1.5-pro`. */
  lemma Pro10NotIn15()
    ensures !Contains("gemini-1.5-pro", "gemini-1.0-pro")
  {
    assert OnlyAtHead("gemini-1.5-pro", 'g');
    ShieldsAtStart("gemini-1.0-pro", "gemini-1.5-pro", 9);
    ShieldsNotContains("gemini-1.0-pro", "gemini-1.5-pro");
  }

  /** Three backups none of which contains a later one are all appended. */
  lemma MergeThree(x: string, y: string, z: string)
    requires !Contains(x, y) && !Contains(x, z) && !Contains(y, z)
    ensures MergeBackups([], [x, y, z]) == [x, y, z]
  {
    MergeAppends([], [x, y, z]);
    assert [] + [x] == [x] && [x, y, z][1..] == [y, z];
    NotCovered([x], y);
    MergeAppends([x], [y, z]);
    assert [x] + [y] == [x, y] && [y, z][1..] == [z];
    NotCovered([x, y], z);
    MergeAppends([x, y], [z]);
    assert [x, y] + [z] == [x, y, z] && [z][1..] == [];
  }

  lemma MergeIntoNothing()
    ensures MergeBackups([], BackupModels) == BackupModels
  {
    ProNotIn15();
    Pro10NotIn15();
    ContainsTooShort("gemini-pro", "gemini-1.0-pro");
    MergeThree("gemini-1.5-pro", "gemini-pro", "gemini-1.0-pro");
  }

  /** Three names already in key order are left as they are. */
  lemma SortThree(key: string -> nat, x: string, y: string, z: string)
    requires key(x) <= key(y) <= key(z)
    ensures SortBy(key, [x, y, z]) == [x, y, z]
  {
    assert [x, y, z][1..] == [y, z] && [y, z][1..] == [z] && [z][1..] == [];
    assert SortBy(key, [z]) == [z];
    assert SortBy(key, [y, z]) == [y, z];
  }

  /** When nothing is discovered the list is exactly the three backups, in order. */
  lemma NothingDiscovered(l: Listing)
    requires |Qualifying(l.models)| == 0
    ensures OptimizedModels(l) == BackupModels
  {
    assert Qualifying(l.models) == [];
    MergeIntoNothing();
    RankPro15();
    RankPro();
    RankPro10();
    SortThree(Rank, "gemini-1.5-pro", "gemini-pro", "gemini-1.0-pro");
  }

  // ---------------------------------------------------------------------
  // main.py

  /** The first generating model whose name contains `gemini`. */
  function FirstGemini(ms: seq<ListedModel>): (r: Option<string>)
    decreases |ms|
  {
    if |ms| == 0 then None
    else if Generates(ms[0]) && Contains(ms[0].name, "gemini") then Some(ms[0].name)
    else FirstGemini(ms[1..])
  }

  /** A model usable by main.py. */
  predicate Usable(m: ListedModel)
  {
    Generates(m) && Contains(m.name, "gemini")
  }

  /** Index `i` holds the first usable model of the listing. */
  predicate FirstUsableAt(ms: seq<ListedModel>, i: int)
  {
    0 <= i < |ms| && Usable(ms[i]) && forall j :: 0 <= j < i ==> !Usable(ms[j])
  }

  /**
   * `get_valid_model`: the first usable model yielded, once
   * `genai.GenerativeModel` has built it (`builds` says whether that
   * succeeds). A build that raises lands in the `except` and gives None
   * without trying later models; a listing that raises before yielding a
   * usable model gives None, as does a listing without one.
   */
  function GetValidModel(l: Listing, builds: string -> bool): (r: Option<string>)
    ensures r.Some? ==> builds(r.value) && Contains(r.value, "gemini")
  {
    FirstGeminiCorrect(l.models);
    match FirstGemini(l.models)
    case Some(name) => if builds(name) then Some(name) else None
    case None => None
  }

  lemma GetValidModelCorrect(l: Listing, builds: string -> bool)
    ensures GetValidModel(l, builds).Some? ==>
      exists i :: FirstUsableAt(l.models, i) && l.models[i].name == GetValidModel(l, builds).value
                  && builds(l.models[i].name)
    ensures GetValidModel(l, builds).None? <==>
      (forall i :: 0 <= i < |l.models| ==> !Usable(l.models[i]))
      || exists i :: FirstUsableAt(l.models, i) && !builds(l.models[i].name)
  {
    FirstGeminiCorrect(l.models);
    if FirstGemini(l.models).Some? {
      var k :| FirstUsableAt(l.models, k) && l.models[k].name == FirstGemini(l.models).value;
    }
  }

  /** The model at the first usable index is the one chosen. */
  lemma FirstGeminiAt(ms: seq<ListedModel>, i: int)
    requires FirstUsableAt(ms, i)
    ensures FirstGemini(ms) == Some(ms[i].name)
  {
    FirstGeminiCorrect(ms);
  }

  lemma {:induction false} FirstGeminiCorrect(ms: seq<ListedModel>)
    ensures FirstGemini(ms).Some? ==>
      exists i :: FirstUsableAt(ms, i) && ms[i].name == FirstGemini(ms).value
    ensures FirstGemini(ms).None? <==> forall i :: 0 <= i < |ms| ==> !Usable(ms[i])
    decreases |ms|
  {
    if |ms| > 0 && !Usable(ms[0]) {
      FirstGeminiCorrect(ms[1..]);
      if FirstGemini(ms).Some? {
        var i :| FirstUsableAt(ms[1..], i) && ms[1..][i].name == FirstGemini(ms).value;
        assert ms[i + 1] == ms[1..][i];
        forall j | 0 <= j < i + 1
          ensures !Usable(ms[j])
        {
          if j > 0 {
            assert ms[j] == ms[1..][j - 1];
          }
        }
      } else {
        forall i | 0 <= i < |ms|
          ensures !Usable(ms[i])
        {
          if i > 0 {
            assert ms[i] == ms[1..][i - 1];
          }
        }
      }
    } else if |ms| > 0 {
      assert FirstUsableAt(ms, 0);
    }
  }
}
