/**
 * `clean_rss_title` of bot_v46_final.py: a headline is cut at its first
 * " - " and then at its first " | ", and the rest is stripped. The helper
 * is defined there but never called by that script's `main`.
 */
module Titles {
  import opened PyStr

  /** `title.split(" - ")[0].split(" | ")[0].strip()`. */
  function CleanRssTitle(t: string): (r: string)
    ensures !Contains(r, " - ") && !Contains(r, " | ")
    ensures exists a :: TrimmedAt(Before(Before(t, " - "), " | "), r, a)
    ensures Contains(t, r)
    ensures |r| > 0 ==> !IsSpace(r[0]) && !IsSpace(r[|r| - 1])
  {
    var a := Before(t, " - ");
    var b := Before(a, " | ");
    PrefixKeepsAbsent(b, a, " - ");
    StripKeepsAbsent(b, " - ");
    StripKeepsAbsent(b, " | ");
    StripInfix(b);
    assert b == t[..|b|];
    OccursContains(t, b, 0);
    ContainsTrans(t, b, Strip(b));
    Strip(b)
  }

  /**
   * A headline is its own clean title exactly when it has neither
   * separator and no surrounding whitespace.
   */
  lemma CleanFixpoint(t: string)
    ensures CleanRssTitle(t) == t <==> !Contains(t, " - ") && !Contains(t, " | ") && Strip(t) == t
  {
    if !Contains(t, " - ") && !Contains(t, " | ") {
      BeforeAbsent(t, " - ");
      BeforeAbsent(t, " | ");
    }
  }

  /** Cleaning a cleaned title changes nothing. */
  lemma CleanIdempotent(t: string)
    ensures CleanRssTitle(CleanRssTitle(t)) == CleanRssTitle(t)
  {
    var r := CleanRssTitle(t);
    var b := Before(Before(t, " - "), " | ");
    StripIdempotent(b);
    CleanFixpoint(r);
  }
}
