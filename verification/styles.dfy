/**
 * The inline styles the content bots force onto generated HTML, one
 * `Theme` per bot, and the proof that no bot's style texts can recreate a
 * tag that an earlier rewrite already replaced.
 */
module Styles {
  import opened Common
  import opened PyStr

  // ---------------------------------------------------------------------
  // Style texts

  /** CSS declarations, each followed by `;`. */
  function Css(decls: seq<string>): string
    decreases |decls|
  {
    if |decls| == 0 then "" else decls[0] + ";" + Css(decls[1..])
  }

  /** `style="d1;d2;...;">`. */
  function StyleAttr(decls: seq<string>): string
  {
    "style=\"" + Css(decls) + "\">"
  }

  /** An opening tag text `lead` (ending in a space) followed by an inline style and `>`. */
  function Styled(lead: string, decls: seq<string>): string
  {
    lead + StyleAttr(decls)
  }

  /** A declaration without angle brackets. */
  predicate Plain(d: string)
  {
    forall i :: 0 <= i < |d| ==> d[i] != '<' && d[i] != '>'
  }

  /** The table rewrites of one bot; `None` where the bot has no such rewrite. */
  datatype TableStyle = TableStyle(table: string, tableEnd: Option<string>, cell: string, headerCell: Option<string>)

  /** The replacement texts of one bot. */
  datatype Theme = Theme(paragraph: string, heading: string, tables: TableStyle)

  const ImageHost := "https://image.pollinations.ai/prompt/"
  const ImageDecls: seq<string> := ["width:100%", "border-radius:10px", "margin:20px 0"]

  /** The `<img>` tag the placeholder replacer builds around an already quoted description. */
  function ImageTag(quoted: string): string
  {
    Styled("<img src=\"" + ImageHost + quoted + "?nologo=true\" ", ImageDecls)
  }

  const LargeParagraphDecls: seq<string> := ["margin-bottom:25px", "line-height:2.0", "font-size:18px", "color:#333"]
  const ScrollerDecls: seq<string> := ["overflow-x:auto"]
  const WideTableDecls: seq<string> := ["width:100%", "border-collapse:collapse", "margin:30px 0", "border:2px solid #333"]
  const WideCellDecls: seq<string> := ["padding:15px", "border:1px solid #ccc"]
  const V51HeadingDecls: seq<string> :=
    ["color:#b45309", "margin-top:40px", "font-size:24px", "border-bottom:2px solid #fbbf24", "padding-bottom:10px", "font-weight:bold"]
  const V51HeaderDecls: seq<string> := ["background:#fffbeb", "padding:15px", "border:1px solid #333", "font-weight:bold"]
  const V52HeadingDecls: seq<string> :=
    ["color:#008f7a", "margin-top:40px", "font-size:24px", "border-bottom:2px solid #00ffcc", "padding-bottom:10px", "font-weight:bold"]
  const V52HeaderDecls: seq<string> := ["background:#f0fdfa", "padding:15px", "border:1px solid #333", "font-weight:bold"]
  const V47ParagraphDecls: seq<string> := ["margin-bottom:25px", "line-height:2.0", "font-size:18px"]
  const V47HeadingDecls: seq<string> :=
    ["color:#0074D9", "margin-top:40px", "font-size:24px", "border-bottom:2px solid #ddd", "padding-bottom:10px"]
  const V47HeaderDecls: seq<string> := ["background:#f4f4f4", "padding:15px", "border:1px solid #333"]
  const V46ParagraphDecls: seq<string> := ["margin-bottom:20px", "line-height:1.8"]
  const V46HeadingDecls: seq<string> := ["color:#d946ef", "margin-top:30px"]
  const V46TableDecls: seq<string> := ["width:100%", "border-collapse:collapse", "margin:20px 0"]
  const V46CellDecls: seq<string> := ["padding:10px"]

  const TableLead := "<table border=\"1\" "
  /** The table of bots v47, v51 and v52: wrapped in a horizontally scrolling div. */
  const WideTable := Styled("<div ", ScrollerDecls) + Styled(TableLead, WideTableDecls)
  const CloseTable := "</table></div>"
  const WideCell := Styled("td ", WideCellDecls)

  /** bot_v51_architect.py. */
  const V51Theme := Theme(
    Styled("<p ", LargeParagraphDecls), Styled("<h2 ", V51HeadingDecls),
    TableStyle(WideTable, Some(CloseTable), WideCell, Some(Styled("th ", V51HeaderDecls))))

  /** bot_v52_failover.py. */
  const V52Theme := Theme(
    Styled("<p ", LargeParagraphDecls), Styled("<h2 ", V52HeadingDecls),
    TableStyle(WideTable, Some(CloseTable), WideCell, Some(Styled("th ", V52HeaderDecls))))

  /** bot_v47_wait.py. */
  const V47Theme := Theme(
    Styled("<p ", V47ParagraphDecls), Styled("<h2 ", V47HeadingDecls),
    TableStyle(WideTable, Some(CloseTable), WideCell, Some(Styled("th ", V47HeaderDecls))))

  /** bot_v46_final.py: no wrapping div, no `</table>` and no header-cell rewrite. */
  const V46Theme := Theme(
    Styled("<p ", V46ParagraphDecls), Styled("<h2 ", V46HeadingDecls),
    TableStyle(Styled(TableLead, V46TableDecls), None, Styled("td ", V46CellDecls), None))

  // ---------------------------------------------------------------------
  // Which rewrite can disturb which tag

  /** The opening tags whose rewrites must not be undone by later ones. */
  const Tags: seq<string> := ["<p>", "<h2>", "<table>"]

  /** None of the three opening tags can appear inside or across `rep`. */
  predicate TagsKept(rep: string)
  {
    Isolated("<p>", rep) && Isolated("<h2>", rep) && Isolated("<table>", rep)
  }

  /**
   * The replacement texts never recreate a tag that was rewritten before
   * them, nor the tag they replace.
   */
  predicate Sound(th: Theme)
  {
    var ts := th.tables;
    TagsKept(th.paragraph) && TagsKept(th.heading) && TagsKept(ts.table)
    && (ts.tableEnd.Some? ==> TagsKept(ts.tableEnd.value))
    && TagsKept(ts.cell) && Isolated("td>", ts.cell)
    && (ts.headerCell.Some? ==>
          TagsKept(ts.headerCell.value) && Isolated("td>", ts.headerCell.value) && Isolated("th>", ts.headerCell.value))
  }

  lemma {:induction false} CssLacks(decls: seq<string>, c: char)
    requires c != ';' && forall d :: d in decls ==> Lacks(d, c)
    ensures Lacks(Css(decls), c)
    decreases |decls|
  {
    if |decls| > 0 {
      assert decls[0] in decls;
      CssLacks(decls[1..], c);
      LacksConcat(decls[0], ";", c);
      LacksConcat(decls[0] + ";", Css(decls[1..]), c);
    }
  }

  lemma {:induction false} CssEndsWithSemicolon(decls: seq<string>)
    ensures |Css(decls)| > 0 ==> Css(decls)[|Css(decls)| - 1] == ';'
    decreases |decls|
  {
    if |decls| > 0 {
      CssEndsWithSemicolon(decls[1..]);
    }
  }

  /** Declarations of plain text shield a closing cell tag `x` such as `td>`. */
  lemma CssShieldsCell(x: string, decls: seq<string>)
    requires |x| == 3 && x[2] == '>' && x[0] != ';' && x[1] != ';'
    requires forall d :: d in decls ==> Plain(d)
    ensures MismatchSoon(x, Css(decls))
  {
    var css := Css(decls);
    CssLacks(decls, '>');
    CssEndsWithSemicolon(decls);
    forall i | 0 <= i < |css| && css[i] == x[0]
      ensures MismatchAfter(x, css, i)
    {
      if i + 2 >= |css| {
        assert i + 1 < |css| && css[i + 1] == ';';
      }
    }
  }

  /** Shielding only looks at the first three characters of the shielded text. */
  lemma MismatchExtends(a: string, b: string, w: string)
    requires MismatchSoon(a, w)
    ensures MismatchSoon(a + b, w)
  {
    var ab := a + b;
    assert ab[0] == a[0] && ab[1] == a[1] && ab[2] == a[2];
    forall i | 0 <= i < |w| && w[i] == ab[0]
      ensures MismatchAfter(ab, w, i)
    {
      assert MismatchAfter(a, w, i);
    }
  }

  /** How a prefix of `a + b` relates to `a`. */
  lemma PrefixOfConcat(a: string, b: string, v: string)
    ensures IsPrefix(a + b, v) ==> IsPrefix(a, v)
    ensures IsPrefix(v, a + b) ==> IsPrefix(v, a) || IsPrefix(a, v)
  {
    if IsPrefix(a + b, v) {
      assert v[..|a|] == (a + b)[..|a|];
    }
    if IsPrefix(v, a + b) {
      if |v| <= |a| {
        assert v == (a + b)[..|v|];
        assert a[..|v|] == (a + b)[..|v|];
      } else {
        assert v[..|a|] == (a + b)[..|a|];
      }
    }
  }

  /** A longer text is shielded wherever its prefix is. */
  lemma ShieldsExtend(a: string, b: string, w: string)
    requires Shields(a, w)
    ensures Shields(a + b, w)
  {
    forall i | 0 <= i < |w| && w[i] == (a + b)[0]
      ensures !IsPrefix(a + b, w[i..]) && !IsPrefix(w[i..], a + b)
    {
      PrefixOfConcat(a, b, w[i..]);
    }
  }

  /** `x` stays isolated from `a` followed by a text that shields it. */
  lemma IsolatedConcat(x: string, a: string, b: string)
    requires Isolated(x, a) && Shields(x, b)
    ensures Isolated(x, a + b)
  {
    ShieldsConcat(x, a, b);
    ShieldsExtend(a, b, x[1..]);
  }

  /** A style tag whose lead keeps the three tags apart keeps them out. */
  lemma StyledKeepsTags(lead: string, decls: seq<string>)
    requires forall x :: x in Tags ==> Shields(x, lead) && MismatchSoon(lead, x[1..])
    requires forall d :: d in decls ==> Plain(d)
    ensures TagsKept(Styled(lead, decls))
  {
    CssLacks(decls, '<');
    var attr := StyleAttr(decls);
    assert Lacks(attr, '<');
    var s := Styled(lead, decls);
    forall x | x in Tags
      ensures Isolated(x, s)
    {
      ShieldsFromLacks(x, attr);
      ShieldsConcat(x, lead, attr);
      MismatchExtends(lead, attr, x[1..]);
      ShieldsFromMismatch(s, x[1..]);
    }
    assert "<p>" in Tags && "<h2>" in Tags && "<table>" in Tags;
  }

  /** A cell text keeps a closing cell tag `x` out when its lead does. */
  lemma StyledKeepsCell(x: string, lead: string, decls: seq<string>)
    requires x in ["td>", "th>"] && Shields(x, lead) && MismatchSoon(lead, x[1..])
    requires forall d :: d in decls ==> Plain(d)
    ensures Isolated(x, Styled(lead, decls))
  {
    var attr := StyleAttr(decls);
    CssShieldsCell(x, decls);
    ShieldsFromMismatch(x, Css(decls));
    ShieldsFromMismatch(x, "style=\"");
    ShieldsFromLacks(x, "\">");
    ShieldsConcat(x, "style=\"", Css(decls));
    ShieldsConcat(x, "style=\"" + Css(decls), "\">");
    ShieldsConcat(x, lead, attr);
    MismatchExtends(lead, attr, x[1..]);
    ShieldsFromMismatch(Styled(lead, decls), x[1..]);
  }

  lemma ParagraphLead(x: string)
    requires x in Tags
    ensures Shields(x, "<p ") && MismatchSoon("<p ", x[1..])
  {
    if x == "<p>" { ShieldsAtStart(x, "<p ", 2); } else { ShieldsFromMismatch(x, "<p "); }
  }

  lemma HeadingLead(x: string)
    requires x in Tags
    ensures Shields(x, "<h2 ") && MismatchSoon("<h2 ", x[1..])
  {
    if x == "<h2>" { ShieldsAtStart(x, "<h2 ", 3); } else { ShieldsFromMismatch(x, "<h2 "); }
  }

  lemma DivLead(x: string)
    requires x in Tags
    ensures Shields(x, "<div ") && MismatchSoon("<div ", x[1..])
  {
    ShieldsFromMismatch(x, "<div ");
  }

  lemma TableLeadShields(x: string)
    requires x in Tags
    ensures Shields(x, TableLead) && MismatchSoon(TableLead, x[1..])
  {
    if x == "<table>" { ShieldsAtStart(x, TableLead, 6); } else { ShieldsFromMismatch(x, TableLead); }
  }

  lemma CellLead(x: string, lead: string)
    requires x in Tags && lead in ["td ", "th "]
    ensures Shields(x, lead) && MismatchSoon(lead, x[1..])
  {
    ShieldsFromLacks(x, lead);
  }

  lemma CloseTableKept(x: string)
    requires x in Tags
    ensures Isolated(x, CloseTable)
  {
    ShieldsFromMismatch(x, CloseTable);
    ShieldsFromMismatch(CloseTable, x[1..]);
  }

  /** A `<p ...>` text with plain declarations keeps the tags out. */
  lemma ParagraphKept(decls: seq<string>)
    requires forall d :: d in decls ==> Plain(d)
    ensures TagsKept(Styled("<p ", decls))
  {
    forall x | x in Tags
      ensures Shields(x, "<p ") && MismatchSoon("<p ", x[1..])
    {
      ParagraphLead(x);
    }
    StyledKeepsTags("<p ", decls);
  }

  /** A `<h2 ...>` text with plain declarations keeps the tags out. */
  lemma HeadingKept(decls: seq<string>)
    requires forall d :: d in decls ==> Plain(d)
    ensures TagsKept(Styled("<h2 ", decls))
  {
    forall x | x in Tags
      ensures Shields(x, "<h2 ") && MismatchSoon("<h2 ", x[1..])
    {
      HeadingLead(x);
    }
    StyledKeepsTags("<h2 ", decls);
  }

  /** A `<table ...>` text with plain declarations keeps the tags out. */
  lemma TableKept(decls: seq<string>)
    requires forall d :: d in decls ==> Plain(d)
    ensures TagsKept(Styled(TableLead, decls))
  {
    forall x | x in Tags
      ensures Shields(x, TableLead) && MismatchSoon(TableLead, x[1..])
    {
      TableLeadShields(x);
    }
    StyledKeepsTags(TableLead, decls);
  }

  /** A `td ...>` text with plain declarations keeps the tags and `td>` out. */
  lemma CellKept(decls: seq<string>)
    requires forall d :: d in decls ==> Plain(d)
    ensures TagsKept(Styled("td ", decls)) && Isolated("td>", Styled("td ", decls))
  {
    forall x | x in Tags
      ensures Shields(x, "td ") && MismatchSoon("td ", x[1..])
    {
      CellLead(x, "td ");
    }
    StyledKeepsTags("td ", decls);
    ShieldsAtStart("td>", "td ", 2);
    StyledKeepsCell("td>", "td ", decls);
  }

  /** A `th ...>` text with plain declarations keeps the tags, `td>` and `th>` out. */
  lemma HeaderKept(decls: seq<string>)
    requires forall d :: d in decls ==> Plain(d)
    ensures TagsKept(Styled("th ", decls))
    ensures Isolated("td>", Styled("th ", decls)) && Isolated("th>", Styled("th ", decls))
  {
    forall x | x in Tags
      ensures Shields(x, "th ") && MismatchSoon("th ", x[1..])
    {
      CellLead(x, "th ");
    }
    StyledKeepsTags("th ", decls);
    ShieldsFromMismatch("td>", "th ");
    StyledKeepsCell("td>", "th ", decls);
    ShieldsAtStart("th>", "th ", 2);
    StyledKeepsCell("th>", "th ", decls);
  }

  // ---------------------------------------------------------------------
  // The bots' declarations are plain

  lemma SharedDeclsPlain()
    ensures forall d :: d in LargeParagraphDecls ==> Plain(d)
    ensures forall d :: d in ScrollerDecls ==> Plain(d)
    ensures forall d :: d in WideTableDecls ==> Plain(d)
    ensures forall d :: d in WideCellDecls ==> Plain(d)
  {
    LargeParagraphDeclsPlain();
    ScrollerDeclsPlain();
    WideTableDeclsPlain();
    WideCellDeclsPlain();
  }

  lemma V51DeclsPlain()
    ensures forall d :: d in V51HeadingDecls ==> Plain(d)
    ensures forall d :: d in V51HeaderDecls ==> Plain(d)
  {
    V51HeadingDeclsPlain();
    V51HeaderDeclsPlain();
  }

  lemma V52DeclsPlain()
    ensures forall d :: d in V52HeadingDecls ==> Plain(d)
    ensures forall d :: d in V52HeaderDecls ==> Plain(d)
  {
    V52HeadingDeclsPlain();
    V52HeaderDeclsPlain();
  }

  lemma V47DeclsPlain()
    ensures forall d :: d in V47ParagraphDecls ==> Plain(d)
    ensures forall d :: d in V47HeadingDecls ==> Plain(d)
    ensures forall d :: d in V47HeaderDecls ==> Plain(d)
  {
    V47ParagraphDeclsPlain();
    V47HeadingDeclsPlain();
    V47HeaderDeclsPlain();
  }

  lemma V46DeclsPlain()
    ensures forall d :: d in V46ParagraphDecls ==> Plain(d)
    ensures forall d :: d in V46HeadingDecls ==> Plain(d)
    ensures forall d :: d in V46TableDecls ==> Plain(d)
    ensures forall d :: d in V46CellDecls ==> Plain(d)
  {
    V46ParagraphDeclsPlain();
    V46HeadingDeclsPlain();
    V46TableDeclsPlain();
    V46CellDeclsPlain();
  }

  lemma LargeParagraphDeclsPlain()
    ensures forall d :: d in LargeParagraphDecls ==> Plain(d)
  {
  }

  lemma ScrollerDeclsPlain()
    ensures forall d :: d in ScrollerDecls ==> Plain(d)
  {
  }

  lemma WideTableDeclsPlain()
    ensures forall d :: d in WideTableDecls ==> Plain(d)
  {
  }

  lemma WideCellDeclsPlain()
    ensures forall d :: d in WideCellDecls ==> Plain(d)
  {
  }

  lemma V51HeadingDeclsPlain()
    ensures forall d :: d in V51HeadingDecls ==> Plain(d)
  {
  }

  lemma V51HeaderDeclsPlain()
    ensures forall d :: d in V51HeaderDecls ==> Plain(d)
  {
  }

  lemma V52HeadingDeclsPlain()
    ensures forall d :: d in V52HeadingDecls ==> Plain(d)
  {
  }

  lemma V52HeaderDeclsPlain()
    ensures forall d :: d in V52HeaderDecls ==> Plain(d)
  {
  }

  lemma V47ParagraphDeclsPlain()
    ensures forall d :: d in V47ParagraphDecls ==> Plain(d)
  {
  }

  lemma V47HeadingDeclsPlain()
    ensures forall d :: d in V47HeadingDecls ==> Plain(d)
  {
  }

  lemma V47HeaderDeclsPlain()
    ensures forall d :: d in V47HeaderDecls ==> Plain(d)
  {
  }

  lemma V46ParagraphDeclsPlain()
    ensures forall d :: d in V46ParagraphDecls ==> Plain(d)
  {
  }

  lemma V46HeadingDeclsPlain()
    ensures forall d :: d in V46HeadingDecls ==> Plain(d)
  {
  }

  lemma V46TableDeclsPlain()
    ensures forall d :: d in V46TableDecls ==> Plain(d)
  {
  }

  lemma V46CellDeclsPlain()
    ensures forall d :: d in V46CellDecls ==> Plain(d)
  {
  }

  /** The table, closing-table and cell texts of v47, v51 and v52 keep the tags out. */
  lemma WideTablesKept()
    ensures TagsKept(WideTable) && TagsKept(CloseTable)
    ensures TagsKept(WideCell) && Isolated("td>", WideCell)
  {
    SharedDeclsPlain();
    forall x | x in Tags
      ensures Shields(x, "<div ") && MismatchSoon("<div ", x[1..])
    {
      DivLead(x);
    }
    StyledKeepsTags("<div ", ScrollerDecls);
    TableKept(WideTableDecls);
    forall x | x in Tags
      ensures Isolated(x, WideTable) && Isolated(x, CloseTable)
    {
      IsolatedConcat(x, Styled("<div ", ScrollerDecls), Styled(TableLead, WideTableDecls));
      CloseTableKept(x);
    }
    assert "<p>" in Tags && "<h2>" in Tags && "<table>" in Tags;
    CellKept(WideCellDecls);
  }

  /** The style texts of bot_v51_architect.py never undo one another. */
  lemma V51Sound()
    ensures Sound(V51Theme)
  {
    SharedDeclsPlain();
    V51DeclsPlain();
    ParagraphKept(LargeParagraphDecls);
    HeadingKept(V51HeadingDecls);
    HeaderKept(V51HeaderDecls);
    WideTablesKept();
  }

  /** The style texts of bot_v52_failover.py never undo one another. */
  lemma V52Sound()
    ensures Sound(V52Theme)
  {
    SharedDeclsPlain();
    V52DeclsPlain();
    ParagraphKept(LargeParagraphDecls);
    HeadingKept(V52HeadingDecls);
    HeaderKept(V52HeaderDecls);
    WideTablesKept();
  }

  /** The style texts of bot_v47_wait.py never undo one another. */
  lemma V47Sound()
    ensures Sound(V47Theme)
  {
    V47DeclsPlain();
    ParagraphKept(V47ParagraphDecls);
    HeadingKept(V47HeadingDecls);
    HeaderKept(V47HeaderDecls);
    WideTablesKept();
  }

  /** The style texts of bot_v46_final.py never undo one another. */
  lemma V46Sound()
    ensures Sound(V46Theme)
  {
    V46DeclsPlain();
    ParagraphKept(V46ParagraphDecls);
    HeadingKept(V46HeadingDecls);
    TableKept(V46TableDecls);
    CellKept(V46CellDecls);
  }
}
