/**
 * The clean-up every content bot applies to a generated article before
 * mailing it: code fences are removed, `((IMG:...))` placeholders become
 * `<img>` tags, paragraphs and headings are restyled, and, only when the
 * article has a `<table>`, the table tags are restyled too.
 */
module PostProcess {
  import opened Common
  import opened PyStr
  import opened Markers
  import opened Styles

  /** The placeholder replacer; `urllib.parse.quote` is a parameter of the model. */
  function ImageRender(quote: string -> string): string -> string
  {
    d => ImageTag(quote(d))
  }

  /** `re.sub` of the image pattern over the text. */
  function Images(quote: string -> string, s: string): string
  {
    Rewrite(s, ImageMarker, ImageRender(quote))
  }

  /** The unconditional rewrites: `<p>`, then `<h2>`. */
  function Headings(th: Theme, h: string): string
  {
    ReplaceAll(ReplaceAll(h, "<p>", th.paragraph), "<h2>", th.heading)
  }

  /** The table rewrites in source order: `<table>`, `</table>`, `td>`, `th>`. */
  function RestyleTables(ts: TableStyle, h: string): string
  {
    var a := ReplaceAll(h, "<table>", ts.table);
    var b := if ts.tableEnd.Some? then ReplaceAll(a, "</table>", ts.tableEnd.value) else a;
    var c := ReplaceAll(b, "td>", ts.cell);
    if ts.headerCell.Some? then ReplaceAll(c, "th>", ts.headerCell.value) else c
  }

  /** The style injection: the table rewrites run only when the text has a `<table>` at that point. */
  function Style(th: Theme, h: string): string
  {
    var g := Headings(th, h);
    if Contains(g, "<table>") then RestyleTables(th.tables, g) else g
  }

  /** The whole clean-up of a generated text, before the hero image and button are added around it. */
  function Process(th: Theme, quote: string -> string, text: string): string
  {
    Style(th, Images(quote, StripFences(text)))
  }

  // ---------------------------------------------------------------------
  // Style injection

  /** Every table replacement text keeps the three opening tags out. */
  predicate TablesKeepTags(ts: TableStyle)
  {
    TagsKept(ts.table) && (ts.tableEnd.Some? ==> TagsKept(ts.tableEnd.value))
    && TagsKept(ts.cell) && (ts.headerCell.Some? ==> TagsKept(ts.headerCell.value))
  }

  lemma KeptIsolates(x: string, rep: string)
    requires x in Tags && TagsKept(rep)
    ensures Isolated(x, rep)
  {
  }

  /** The table rewrites never create one of the three opening tags. */
  lemma RestyleKeepsAbsent(ts: TableStyle, h: string, x: string)
    requires x in Tags && TablesKeepTags(ts) && !Contains(h, x)
    ensures !Contains(RestyleTables(ts, h), x)
  {
    var a := ReplaceAll(h, "<table>", ts.table);
    KeptIsolates(x, ts.table);
    ReplaceKeepsAbsent(h, "<table>", ts.table, x);
    var b := if ts.tableEnd.Some? then ReplaceAll(a, "</table>", ts.tableEnd.value) else a;
    if ts.tableEnd.Some? {
      KeptIsolates(x, ts.tableEnd.value);
      ReplaceKeepsAbsent(a, "</table>", ts.tableEnd.value, x);
    }
    var c := ReplaceAll(b, "td>", ts.cell);
    KeptIsolates(x, ts.cell);
    ReplaceKeepsAbsent(b, "td>", ts.cell, x);
    if ts.headerCell.Some? {
      KeptIsolates(x, ts.headerCell.value);
      ReplaceKeepsAbsent(c, "th>", ts.headerCell.value, x);
    }
  }

  /** After style injection no bare `<p>` or `<h2>` is left, whatever the text. */
  lemma StyleClears(th: Theme, h: string)
    requires Sound(th)
    ensures !Contains(Style(th, h), "<p>") && !Contains(Style(th, h), "<h2>")
  {
    var a := ReplaceAll(h, "<p>", th.paragraph);
    ReplaceClears(h, "<p>", th.paragraph);
    var g := ReplaceAll(a, "<h2>", th.heading);
    ReplaceKeepsAbsent(a, "<h2>", th.heading, "<p>");
    ReplaceClears(a, "<h2>", th.heading);
    if Contains(g, "<table>") {
      RestyleKeepsAbsent(th.tables, g, "<p>");
      RestyleKeepsAbsent(th.tables, g, "<h2>");
    }
  }

  /**
   * A text with a `<table>` gets the table rewrites: afterwards no bare
   * `<table>` and no `td>` is left, and no `th>` for a bot that restyles
   * header cells.
   */
  lemma StyleTables(th: Theme, h: string)
    requires Sound(th) && Contains(h, "<table>")
    ensures Style(th, h) == RestyleTables(th.tables, Headings(th, h))
    ensures !Contains(Style(th, h), "<table>") && !Contains(Style(th, h), "td>")
    ensures th.tables.headerCell.Some? ==> !Contains(Style(th, h), "th>")
  {
    var i := ContainsWitness(h, "<table>");
    var a := ReplaceAll(h, "<p>", th.paragraph);
    ShieldsFromMismatch("<table>", "<p>");
    ShieldsFromLacks("<p>", "table>");
    ReplaceKeepsPresent(h, "<p>", th.paragraph, "<table>", i);
    var j := ContainsWitness(a, "<table>");
    ShieldsFromMismatch("<table>", "<h2>");
    ShieldsFromLacks("<h2>", "table>");
    ReplaceKeepsPresent(a, "<h2>", th.heading, "<table>", j);
    var g := Headings(th, h);
    var ts := th.tables;
    var a1 := ReplaceAll(g, "<table>", ts.table);
    ReplaceClears(g, "<table>", ts.table);
    var b := if ts.tableEnd.Some? then ReplaceAll(a1, "</table>", ts.tableEnd.value) else a1;
    if ts.tableEnd.Some? {
      ReplaceKeepsAbsent(a1, "</table>", ts.tableEnd.value, "<table>");
    }
    var c := ReplaceAll(b, "td>", ts.cell);
    ReplaceKeepsAbsent(b, "td>", ts.cell, "<table>");
    ReplaceClears(b, "td>", ts.cell);
    if ts.headerCell.Some? {
      var hc := ts.headerCell.value;
      ReplaceKeepsAbsent(c, "th>", hc, "<table>");
      ReplaceKeepsAbsent(c, "th>", hc, "td>");
      ReplaceClears(c, "th>", hc);
    }
  }

  /** A text without `<table>` gets only the paragraph and heading rewrites. */
  lemma StyleSkipsTables(th: Theme, h: string)
    requires Sound(th) && !Contains(h, "<table>")
    ensures Style(th, h) == Headings(th, h)
  {
    var a := ReplaceAll(h, "<p>", th.paragraph);
    ReplaceKeepsAbsent(h, "<p>", th.paragraph, "<table>");
    ReplaceKeepsAbsent(a, "<h2>", th.heading, "<table>");
  }

  /**
   * The `td>` rewrite also restyles closing `</td>` tags: a `</td>` splits
   * the rewrite, since no `td>` can straddle its edges, and its own `td>`
   * becomes the cell style after the `</`.
   */
  lemma {:induction false} ClosingCellRestyled(a: string, b: string, cell: string)
    ensures ReplaceAll(a + "</td>" + b, "td>", cell)
         == ReplaceAll(a, "td>", cell) + "</" + cell + ReplaceAll(b, "td>", cell)
    decreases |a|
  {
    var s := a + "</td>" + b;
    if |a| == 0 {
      assert s == "</" + ("td>" + b);
      LacksConcat([], "</", 't');
      ReplacePlainPrefix("</", "td>" + b, "td>", cell);
      ReplaceLeading(b, "td>", cell);
    } else {
      var n := if IsPrefix("td>", a) then 3 else 1;
      var head := ClosingCellHead(a, b, cell);
      DropAroundClose(a, b, n);
      ClosingCellRestyled(a[n..], b, cell);
      var m := ReplaceAll(a[n..], "td>", cell);
      var t := ReplaceAll(b, "td>", cell);
      assert ReplaceAll(s, "td>", cell) == head + (m + "</" + cell + t);
      PrependBoth(head, m, "</", cell, t);
    }
  }

  /** Both `a` and `a + "</td>" + b` begin their rewrite with the same piece. */
  lemma ClosingCellHead(a: string, b: string, cell: string) returns (head: string)
    requires |a| > 0
    ensures var n := if IsPrefix("td>", a) then 3 else 1;
      ReplaceAll(a, "td>", cell) == head + ReplaceAll(a[n..], "td>", cell)
      && ReplaceAll(a + "</td>" + b, "td>", cell) == head + ReplaceAll((a + "</td>" + b)[n..], "td>", cell)
  {
    var s := a + "</td>" + b;
    if IsPrefix("td>", a) {
      assert s[..3] == "td>";
      head := cell;
    } else {
      assert !IsPrefix("td>", s) by {
        if |a| == 1 {
          assert s[2] == '/';
        } else if |a| == 2 {
          assert s[2] == '<';
        } else {
          assert s[..3] == a[..3];
        }
      }
      ReplaceMissed(s, "td>", cell);
      ReplaceMissed(a, "td>", cell);
      head := [a[0]];
    }
  }

  lemma DropAroundClose(a: string, b: string, n: nat)
    requires n <= |a|
    ensures (a + "</td>" + b)[n..] == a[n..] + "</td>" + b
  {
  }

  lemma PrependBoth(h: string, m: string, x: string, y: string, t: string)
    ensures h + (m + x + y + t) == (h + m) + x + y + t
  {
  }

  /**
   * bot_v46_final.py restyles neither closing tables nor header cells:
   * its table rewrites keep every `</table>` and `th>`.
   */
  lemma V46KeepsClosingAndHeader(h: string)
    ensures Contains(h, "</table>") ==> Contains(RestyleTables(V46Theme.tables, h), "</table>")
    ensures Contains(h, "th>") ==> Contains(RestyleTables(V46Theme.tables, h), "th>")
  {
    var ts := V46Theme.tables;
    var a := ReplaceAll(h, "<table>", ts.table);
    ShieldsFromMismatch("</table>", "<table>");
    ShieldsFromLacks("<table>", "/table>");
    ShieldsFromLacks("</table>", "td>");
    ShieldsFromMismatch("td>", "/table>");
    ShieldsFromMismatch("th>", "<table>");
    ShieldsFromLacks("<table>", "h>");
    ShieldsFromMismatch("th>", "td>");
    ShieldsFromLacks("td>", "h>");
    if Contains(h, "</table>") {
      var i := ContainsWitness(h, "</table>");
      ReplaceKeepsPresent(h, "<table>", ts.table, "</table>", i);
      var j := ContainsWitness(a, "</table>");
      ReplaceKeepsPresent(a, "td>", ts.cell, "</table>", j);
    }
    if Contains(h, "th>") {
      var i := ContainsWitness(h, "th>");
      ReplaceKeepsPresent(h, "<table>", ts.table, "th>", i);
      var j := ContainsWitness(a, "th>");
      ReplaceKeepsPresent(a, "td>", ts.cell, "th>", j);
    }
  }

  // ---------------------------------------------------------------------
  // Images

  /**
   * What `urllib.parse.quote` guarantees and the model relies on: its
   * output never holds a parenthesis or a newline, since it
   * percent-encodes them.
   */
  ghost predicate QuoteSafe(quote: string -> string)
  {
    forall d :: Lacks(quote(d), '(') && Lacks(quote(d), ')') && Lacks(quote(d), '\n')
  }

  lemma ImageTagLacks(q: string, c: char)
    requires c in "()\n" && Lacks(q, c)
    ensures Lacks(ImageTag(q), c)
  {
    ImagePartsLack(c);
    var head := "<img src=\"" + ImageHost;
    LacksConcat(head, q, c);
    LacksConcat(head + q, "?nologo=true\" ", c);
    LacksConcat("style=\"", Css(ImageDecls), c);
    LacksConcat("style=\"" + Css(ImageDecls), "\">", c);
    LacksConcat(head + q + "?nologo=true\" ", StyleAttr(ImageDecls), c);
  }

  /** The fixed pieces of the image tag hold no parenthesis and no newline. */
  lemma ImagePartsLack(c: char)
    requires c in "()\n"
    ensures Lacks(Css(ImageDecls), c)
    ensures Lacks("<img src=\"" + ImageHost, c) && Lacks("?nologo=true\" ", c) && Lacks("style=\"", c) && Lacks("\">", c)
  {
    ImageDeclsLack(c);
    CssLacks(ImageDecls, c);
  }

  lemma ImageDeclsLack(c: char)
    requires c in "()\n"
    ensures forall d :: d in ImageDecls ==> Lacks(d, c)
  {
  }

  /** With a safe `quote`, every replacement is an HTML tag free of parentheses and newlines. */
  lemma ImageRenderTagLike(quote: string -> string)
    requires QuoteSafe(quote)
    ensures TagLike(ImageRender(quote))
  {
    forall d
      ensures |ImageRender(quote)(d)| > 0 && ImageRender(quote)(d)[0] == '<'
      ensures Lacks(ImageRender(quote)(d), '(') && Lacks(ImageRender(quote)(d), ')') && Lacks(ImageRender(quote)(d), '\n')
    {
      var q := quote(d);
      ImageTagLacks(q, '(');
      ImageTagLacks(q, ')');
      ImageTagLacks(q, '\n');
    }
  }

  /**
   * A placeholder closed on its own line, whose description ends at the
   * first `))`, becomes the `<img>` tag whose source is the image service
   * URL with the quoted description.
   */
  lemma ImageReplaced(quote: string -> string, desc: string, t: string)
    requires Lacks(desc, '\n') && NoEarlyClose(desc, "))")
    ensures Images(quote, "((IMG:" + (desc + ("))" + t))) == ImageTag(quote(desc)) + Images(quote, t)
  {
    assert "" + (desc + ("))" + t)) == desc + ("))" + t);
    RewriteSingle("", desc, t, ImageMarker, ImageRender(quote));
  }

  /** After the image step no complete placeholder is left. */
  lemma NoPlaceholderLeft(quote: string -> string, s: string)
    requires QuoteSafe(quote)
    ensures !Marked(Images(quote, s), ImageMarker)
  {
    ImageRenderTagLike(quote);
    NoMarkerLeft(s, ImageRender(quote));
  }

  /** The clean-up of any bot leaves no bare `<p>` or `<h2>`. */
  lemma ProcessClears(th: Theme, quote: string -> string, text: string)
    requires th in [V51Theme, V52Theme, V47Theme, V46Theme]
    ensures !Contains(Process(th, quote, text), "<p>") && !Contains(Process(th, quote, text), "<h2>")
  {
    ThemeSound(th);
    StyleClears(th, Images(quote, StripFences(text)));
  }

  /** Each bot's theme keeps the tags its later replacements look for. */
  lemma ThemeSound(th: Theme)
    requires th in [V51Theme, V52Theme, V47Theme, V46Theme]
    ensures Sound(th)
  {
    if th == V51Theme {
      V51Sound();
    } else if th == V52Theme {
      V52Sound();
    } else if th == V47Theme {
      V47Sound();
    } else {
      V46Sound();
    }
  }
}
