/**
 * `markdownToHtml`: the nine rewrites in source order (headings h3, h2, h1;
 * bold `**`, `__`; italic `*`, `_`; links; paragraphs), and what that order
 * guarantees.
 */
module MarkdownHtml {
  import opened JsText
  import opened Seqs
  import opened MarkdownPasses
  import opened Paragraphs

  /** The three heading rewrites, deepest level first. */
  function Headings(s: string): string {
    HeadingPass(HeadingPass(HeadingPass(s, 3, true), 2, true), 1, true)
  }

  /** The two bold rewrites. */
  function Bold(s: string): string {
    SpanPass(SpanPass(s, "**", "<strong>", "</strong>"), "__", "<strong>", "</strong>")
  }

  /** The two italic rewrites. */
  function Italic(s: string): string {
    SpanPass(SpanPass(s, "*", "<em>", "</em>"), "_", "<em>", "</em>")
  }

  /** The bold rewrites followed by the italic rewrites. */
  function Emphasis(s: string): string {
    Italic(Bold(s))
  }

  /** Everything before the paragraph step. */
  function Rewrite(markdown: string): string {
    LinkPass(Emphasis(Headings(markdown)))
  }

  /** The output is a sequence of `<p>` elements joined by newlines: it starts with "<p>",
      ends with "</p>", and holds one newline per "\n\n" that `split` consumed in the
      rewritten text (so one paragraph more than that), each between "</p>" and "<p>". */
  function MarkdownToHtml(markdown: string): (html: string)
    ensures "<p>" <= html && |html| >= 7 && html[|html| - 4..] == "</p>"
    ensures CountChar(html, '\n') == CountSeparators(Rewrite(markdown))
    ensures CountChar(html, '\n') + 1 == |Split(Rewrite(markdown))|
    ensures NewlinesSeparate(html)
  {
    SplitCount(Rewrite(markdown));
    ParagraphPass(Rewrite(markdown))
  }

  /** The empty document is one empty paragraph. */
  lemma EmptyMarkdown()
    ensures MarkdownToHtml("") == "<p></p>"
  {
    assert Rewrite("") == "";
    ParagraphPassPlain("");
  }

  // ---------------------------------------------------------------------------
  // Headings, line by line
  // ---------------------------------------------------------------------------

  /** What the three heading rewrites do to one line. */
  function HeadingLine(line: string): string {
    MarkLine(MarkLine(MarkLine(line, 3), 2), 1)
  }

  /** The reference reading of the heading rewrites: each line on its own. */
  function HeadingLines(s: string): string
    decreases |s|
  {
    var n := LineLength(s);
    if n == |s| then HeadingLine(s) else HeadingLine(s[..n]) + [s[n]] + HeadingLines(s[n + 1..])
  }

  lemma HeadingsLine(line: string, tail: string)
    requires NoLineTerminator(line) && StartsLine(tail)
    ensures Headings(line + tail) == HeadingLine(line) + Headings(tail)
  {
    var l3 := MarkLine(line, 3);
    var l2 := MarkLine(l3, 2);
    var t3 := HeadingPass(tail, 3, true);
    var t2 := HeadingPass(t3, 2, true);
    MarkLineKeepsLine(line, 3);
    MarkLineKeepsLine(l3, 2);
    HeadingPassLine(line, tail, 3);
    HeadingPassStartsLine(tail, 3);
    assert HeadingPass(line + tail, 3, true) == l3 + t3;
    HeadingPassLine(l3, t3, 2);
    HeadingPassStartsLine(t3, 2);
    assert HeadingPass(l3 + t3, 2, true) == l2 + t2;
    HeadingPassLine(l2, t2, 1);
  }

  lemma HeadingsTerminator(t: char, rest: string)
    requires IsLineTerminator(t)
    ensures Headings([t] + rest) == [t] + Headings(rest)
  {
    HeadingPassTerminator(t, rest, 3);
    HeadingPassTerminator(t, HeadingPass(rest, 3, true), 2);
    HeadingPassTerminator(t, HeadingPass(HeadingPass(rest, 3, true), 2, true), 1);
  }

  /** The heading rewrites act on each line independently, as `HeadingLine` says. */
  lemma {:induction false} HeadingsByLine(s: string)
    ensures Headings(s) == HeadingLines(s)
    decreases |s|
  {
    var n := LineLength(s);
    if n == |s| {
      AppendEmpty(s);
      HeadingsLine(s, []);
      AppendEmpty(HeadingLine(s));
    } else {
      var line, rest := s[..n], s[n + 1..];
      CutAt(s, n);
      HeadingsLine(line, [s[n]] + rest);
      HeadingsTerminator(s[n], rest);
      HeadingsByLine(rest);
      Assoc3(HeadingLine(line), [s[n]], HeadingLines(rest));
    }
  }

  /** A line `#`, `##` or `###` followed by a space becomes a heading of that level holding
      the rest of the line: the h3 rewrite runs first, and its output starts with '<', so the
      h2 and h1 rewrites never take a "### " line for their own. */
  lemma HeadingLevels(level: HeadingLevel, x: string)
    ensures HeadingLine(Marker(level) + x) == HeadingOpen(level) + x + HeadingClose(level)
  {
    var s := Marker(level) + x;
    assert s[..|Marker(level)|] == Marker(level);
    assert s[|Marker(level)|..] == x;
    var e := HeadingOpen(level) + x + HeadingClose(level);
    assert e[0] == '<';
    if level == 3 {
      assert MarkLine(s, 3) == e;
    } else if level == 2 {
      assert !("### " <= s) by { assert s[2] == ' '; }
      assert MarkLine(MarkLine(s, 3), 2) == e;
    } else {
      assert !("### " <= s) by { assert s[1] == ' '; }
      assert !("## " <= s) by { assert s[1] == ' '; }
    }
  }

  /** A line that starts with four or more '#' matches none of the heading rewrites. */
  lemma DeepHeadingUntouched(line: string)
    requires "####" <= line
    ensures HeadingLine(line) == line
  {
    assert line[3] == '#' && line[2] == '#' && line[1] == '#';
  }

  /** A line that does not start with '#' is left alone by the heading rewrites. */
  lemma NonHeadingUntouched(line: string)
    requires |line| == 0 || line[0] != '#'
    ensures HeadingLine(line) == line
  {
  }

  /** A `### ` line inside a document: rendered as h3, everything after it handled on its own. */
  lemma H3LineInDocument(x: string, tail: string)
    requires NoLineTerminator(x) && StartsLine(tail)
    ensures Headings("### " + x + tail) == "<h3>" + x + "</h3>" + Headings(tail)
  {
    var line := Marker(3) + x;
    assert NoLineTerminator(line) by {
      assert forall i :: 0 <= i < |line| ==> line[i] == (if i < 4 then "### "[i] else x[i - 4]);
    }
    assert "### " + x + tail == line + tail;
    HeadingsLine(line, tail);
    HeadingLevels(3, x);
  }

  /** A line of four or more '#' inside a document is copied as it is. */
  lemma DeepHeadingInDocument(line: string, tail: string)
    requires "####" <= line && NoLineTerminator(line) && StartsLine(tail)
    ensures Headings(line + tail) == line + Headings(tail)
  {
    HeadingsLine(line, tail);
    DeepHeadingUntouched(line);
  }

  // ---------------------------------------------------------------------------
  // Emphasis
  // ---------------------------------------------------------------------------

  /** Text holding neither '*' nor '_' passes through the bold rewrites unchanged. */
  lemma BoldSkip(x: string, y: string)
    requires Plain(x)
    ensures Bold(x + y) == x + Bold(y)
  {
    SpanPassSkip(x, y, "**", "<strong>", "</strong>");
    SpanPassSkip(x, SpanPass(y, "**", "<strong>", "</strong>"), "__", "<strong>", "</strong>");
  }

  /** Text holding neither '*' nor '_' passes through the italic rewrites unchanged. */
  lemma ItalicSkip(x: string, y: string)
    requires Plain(x)
    ensures Italic(x + y) == x + Italic(y)
  {
    SpanPassSkip(x, y, "*", "<em>", "</em>");
    SpanPassSkip(x, SpanPass(y, "*", "<em>", "</em>"), "_", "<em>", "</em>");
  }

  lemma EmphasisSkip(x: string, y: string)
    requires Plain(x)
    ensures Emphasis(x + y) == x + Emphasis(y)
  {
    BoldSkip(x, y);
    ItalicSkip(x, Bold(y));
  }

  lemma EmphasisIdentity(x: string)
    requires Plain(x)
    ensures Emphasis(x) == x
  {
    AppendEmpty(x);
    EmphasisSkip(x, []);
  }

  /** A text that begins a new line still does after the bold or the italic rewrites. */
  lemma EmphasisStartsLine(tail: string)
    requires StartsLine(tail)
    ensures StartsLine(Bold(tail)) && StartsLine(Italic(tail))
  {
    SpanPassStartsLine(tail, "**", "<strong>", "</strong>");
    SpanPassStartsLine(SpanPass(tail, "**", "<strong>", "</strong>"), "__", "<strong>", "</strong>");
    SpanPassStartsLine(tail, "*", "<em>", "</em>");
    SpanPassStartsLine(SpanPass(tail, "*", "<em>", "</em>"), "_", "<em>", "</em>");
  }

  /** Neither emphasis character: what the emphasis rewrites copy unchanged. */
  predicate Plain(s: string) {
    '*' !in s && '_' !in s
  }

  lemma StrongPlain(x: string)
    requires Plain(x)
    ensures Plain("<strong>" + x + "</strong>")
  {
  }

  /** The bold rewrites turn `**x**` into `<strong>x</strong>` and go on after it. */
  lemma BoldMatch(x: string, y: string)
    requires Plain(x) && NoLineTerminator(x)
    ensures Bold("**" + x + "**" + y) == "<strong>" + x + "</strong>" + Bold(y)
  {
    var strong := "<strong>" + x + "</strong>";
    SpanPassMatch(x, y, "**", "<strong>", "</strong>");
    StrongPlain(x);
    SpanPassSkip(strong, SpanPass(y, "**", "<strong>", "</strong>"), "__", "<strong>", "</strong>");
  }

  /** `BoldBeforeItalic` at the start of the text. */
  lemma StrongAtStart(x: string, y: string)
    requires Plain(x) && NoLineTerminator(x)
    ensures Emphasis("**" + x + "**" + y) == "<strong>" + x + "</strong>" + Emphasis(y)
  {
    BoldMatch(x, y);
    StrongPlain(x);
    ItalicSkip("<strong>" + x + "</strong>", Bold(y));
  }

  /** The bold rewrites leave a '*' that is alone on its line as it is. */
  lemma BoldLoneStar(l: string, tail: string)
    requires Plain(l) && NoLineTerminator(l) && StartsLine(tail)
    ensures Bold("*" + (l + tail)) == "*" + (l + Bold(tail))
  {
    assert ["**"[0]] == "*";
    SpanPassLoneChar(l, tail, "**", "<strong>", "</strong>");
    var t1 := SpanPass(tail, "**", "<strong>", "</strong>");
    SpanPassStartsLine(tail, "**", "<strong>", "</strong>");
    SpanPassSkip("*", l + t1, "__", "<strong>", "</strong>");
    SpanPassSkip(l, t1, "__", "<strong>", "</strong>");
  }

  /** The italic rewrites leave a '*' that is alone on its line as it is. */
  lemma ItalicLoneStar(l: string, tail: string)
    requires Plain(l) && NoLineTerminator(l) && StartsLine(tail)
    ensures Italic("*" + (l + tail)) == "*" + (l + Italic(tail))
  {
    assert ["*"[0]] == "*";
    SpanPassLoneChar(l, tail, "*", "<em>", "</em>");
    var t1 := SpanPass(tail, "*", "<em>", "</em>");
    SpanPassSkip("*", l + t1, "_", "<em>", "</em>");
    SpanPassSkip(l, t1, "_", "<em>", "</em>");
  }

  /** `LoneStarLiteral` at the start of the text. */
  lemma LoneStarAtStart(l: string, tail: string)
    requires Plain(l) && NoLineTerminator(l) && StartsLine(tail)
    ensures Emphasis("*" + l + tail) == "*" + l + Emphasis(tail)
  {
    Assoc3("*", l, tail);
    BoldLoneStar(l, tail);
    EmphasisStartsLine(tail);
    ItalicLoneStar(l, Bold(tail));
    Assoc3("*", l, Emphasis(tail));
  }

  /** The bold rewrites copy a `**` that has no partner on its line. */
  lemma BoldUnclosed(l: string, tail: string)
    requires Plain(l) && NoLineTerminator(l) && StartsLine(tail)
    ensures Bold("**" + (l + tail)) == "**" + (l + Bold(tail))
  {
    SpanPassUnclosed(l, tail, "**", "<strong>", "</strong>");
    var t1 := SpanPass(tail, "**", "<strong>", "</strong>");
    SpanPassSkip("**", l + t1, "__", "<strong>", "</strong>");
    SpanPassSkip(l, t1, "__", "<strong>", "</strong>");
  }

  /** The italic rewrites read `**` as an empty italic span, since `(.*?)` may match nothing. */
  lemma ItalicEmptySpan(rest: string)
    ensures Italic("**" + rest) == "<em></em>" + Italic(rest)
  {
    assert "**" + rest == "*" + [] + "*" + rest;
    SpanPassMatch([], rest, "*", "<em>", "</em>");
    assert "<em>" + [] + "</em>" == "<em></em>";
    SpanPassSkip("<em></em>", SpanPass(rest, "*", "<em>", "</em>"), "_", "<em>", "</em>");
  }

  /** `LeftoverDoubleStar` at the start of the text. */
  lemma LeftoverAtStart(l: string, tail: string)
    requires Plain(l) && NoLineTerminator(l) && StartsLine(tail)
    ensures Emphasis("**" + l + tail) == "<em></em>" + l + Emphasis(tail)
  {
    Assoc3("**", l, tail);
    BoldUnclosed(l, tail);
    ItalicEmptySpan(l + Bold(tail));
    ItalicSkip(l, Bold(tail));
    Assoc3("<em></em>", l, Emphasis(tail));
  }

  // ---------------------------------------------------------------------------
  // The emphasis rewrites line by line
  // ---------------------------------------------------------------------------

  lemma TagsOneLine()
    ensures NoLineTerminator("<strong>") && NoLineTerminator("</strong>")
    ensures NoLineTerminator("<em>") && NoLineTerminator("</em>")
  {
  }

  /** The bold rewrites handle a line and the lines after it independently. */
  lemma BoldLine(line: string, tail: string)
    requires NoLineTerminator(line) && StartsLine(tail)
    ensures Bold(line + tail) == Bold(line) + Bold(tail)
    ensures NoLineTerminator(Bold(line)) && StartsLine(Bold(tail))
  {
    TagsOneLine();
    PassLine(line, tail, "**", "<strong>", "</strong>");
    PassLine(SpanPass(line, "**", "<strong>", "</strong>"), SpanPass(tail, "**", "<strong>", "</strong>"),
             "__", "<strong>", "</strong>");
  }

  /** The italic rewrites handle a line and the lines after it independently. */
  lemma ItalicLine(line: string, tail: string)
    requires NoLineTerminator(line) && StartsLine(tail)
    ensures Italic(line + tail) == Italic(line) + Italic(tail)
    ensures NoLineTerminator(Italic(line)) && StartsLine(Italic(tail))
  {
    TagsOneLine();
    PassLine(line, tail, "*", "<em>", "</em>");
    PassLine(SpanPass(line, "*", "<em>", "</em>"), SpanPass(tail, "*", "<em>", "</em>"),
             "_", "<em>", "</em>");
  }

  /** The emphasis rewrites handle a line and the lines after it independently. */
  lemma EmphasisLine(line: string, tail: string)
    requires NoLineTerminator(line) && StartsLine(tail)
    ensures Emphasis(line + tail) == Emphasis(line) + Emphasis(tail)
  {
    BoldLine(line, tail);
    ItalicLine(Bold(line), Bold(tail));
  }

  lemma EmphasisTerminator(t: char, rest: string)
    requires IsLineTerminator(t)
    ensures Emphasis([t] + rest) == [t] + Emphasis(rest)
  {
    EmphasisSkip([t], rest);
  }

  /** Whole lines before a line start are rewritten apart from what follows them. */
  lemma {:induction false} EmphasisAfterLines(pre: string, s: string)
    requires EndsLine(pre)
    ensures Emphasis(pre + s) == Emphasis(pre) + Emphasis(s)
    decreases |pre|
  {
    if |pre| == 0 {
      assert pre + s == s;
      EmphasisIdentity(pre);
    } else {
      // `pre` ends with a line terminator, so its first line stops before its end.
      var n := LineLength(pre);
      assert n < |pre|;
      var l, t, r := pre[..n], pre[n], pre[n + 1..];
      assert pre == l + ([t] + r);
      assert |r| > 0 ==> r[|r| - 1] == pre[|pre| - 1];
      EmphasisAfterLines(r, s);
      EmphasisLineThen(l, t, r, s);
    }
  }

  /** One step of `EmphasisAfterLines`: a first line and its terminator put in front. */
  lemma EmphasisLineThen(l: string, t: char, r: string, s: string)
    requires NoLineTerminator(l) && IsLineTerminator(t)
    requires Emphasis(r + s) == Emphasis(r) + Emphasis(s)
    ensures Emphasis(l + ([t] + r) + s) == Emphasis(l + ([t] + r)) + Emphasis(s)
  {
    Assoc3(l, [t] + r, s);
    Assoc3([t], r, s);
    EmphasisLine(l, [t] + (r + s));
    EmphasisTerminator(t, r + s);
    EmphasisLine(l, [t] + r);
    EmphasisTerminator(t, r);
    Regroup(Emphasis(l), [t], Emphasis(r), Emphasis(s));
  }

  /** `**x**` at the start of any line, with x free of '*', '_' and line terminators, becomes
      `<strong>x</strong>`, not nested `<em>`: bold runs before italic, and its output holds
      no '*'. The lines before it are rewritten on their own. */
  lemma BoldBeforeItalic(pre: string, x: string, y: string)
    requires EndsLine(pre) && Plain(x) && NoLineTerminator(x)
    ensures Emphasis(pre + ("**" + x + "**" + y)) == Emphasis(pre) + ("<strong>" + x + "</strong>" + Emphasis(y))
  {
    EmphasisAfterLines(pre, "**" + x + "**" + y);
    StrongAtStart(x, y);
  }

  /** A '*' that starts a line and is the only one on it (the line has no '_' either) stays a
      literal '*', on whichever line it is. */
  lemma LoneStarLiteral(pre: string, l: string, tail: string)
    requires EndsLine(pre) && Plain(l) && NoLineTerminator(l) && StartsLine(tail)
    ensures Emphasis(pre + ("*" + l + tail)) == Emphasis(pre) + ("*" + l + Emphasis(tail))
  {
    EmphasisAfterLines(pre, "*" + l + tail);
    LoneStarAtStart(l, tail);
  }

  /** A `**` that starts a line and has no partner on it (the line has no '_' either) is not
      bold; the italic rewrite then reads it as an empty italic span. */
  lemma LeftoverDoubleStar(pre: string, l: string, tail: string)
    requires EndsLine(pre) && Plain(l) && NoLineTerminator(l) && StartsLine(tail)
    ensures Emphasis(pre + ("**" + l + tail)) == Emphasis(pre) + ("<em></em>" + l + Emphasis(tail))
  {
    EmphasisAfterLines(pre, "**" + l + tail);
    LeftoverAtStart(l, tail);
  }

  // ---------------------------------------------------------------------------
  // The whole rewrite on one-line documents
  // ---------------------------------------------------------------------------

  /** Text none of the rewrites reacts to in the middle of a line: no '*', '_', '[' and no
      line terminator. */
  predicate Inert(s: string) {
    Plain(s) && '[' !in s && NoLineTerminator(s)
  }

  lemma InertAppend(a: string, b: string)
    requires Inert(a) && Inert(b)
    ensures Inert(a + b)
  {
    NoLineTerminatorAppend(a, b);
  }

  /** A single line not starting with '#' is left alone by the heading rewrites. */
  lemma SingleLineHeadings(s: string)
    requires NoLineTerminator(s) && (|s| == 0 || s[0] != '#')
    ensures Headings(s) == s
  {
    AppendEmpty(s);
    HeadingsLine(s, []);
    NonHeadingUntouched(s);
  }

  /** When the rewrites turn a document into text without '\n', the output is that text as
      one paragraph. */
  lemma OneParagraph(markdown: string, out: string)
    requires '\n' !in out && Rewrite(markdown) == out
    ensures MarkdownToHtml(markdown) == "<p>" + out + "</p>"
  {
    ParagraphPassPlain(out);
  }

  /** A one-line document whose emphasis rewrite yields inert text: headings and links leave
      it alone and it becomes one paragraph. */
  lemma EmphasisOnly(s: string, out: string)
    requires NoLineTerminator(s) && (|s| == 0 || s[0] != '#')
    requires Emphasis(s) == out && Inert(out)
    ensures MarkdownToHtml(s) == "<p>" + out + "</p>"
  {
    SingleLineHeadings(s);
    LinkPassIdentity(out);
    assert IsLineTerminator('\n');
    OneParagraph(s, out);
  }

  /** One line without markdown syntax is only wrapped in a paragraph. */
  lemma PlainTextWrapped(text: string)
    requires Inert(text) && (|text| == 0 || text[0] != '#')
    ensures MarkdownToHtml(text) == "<p>" + text + "</p>"
  {
    EmphasisIdentity(text);
    EmphasisOnly(text, text);
  }

  lemma StarsInline()
    ensures NoLineTerminator("**") && NoLineTerminator("*")
    ensures Inert("<strong>") && Inert("</strong>") && Inert("<em></em>")
  {
  }

  /** `**x**` renders as strong text. */
  lemma BoldRendered(x: string)
    requires Inert(x)
    ensures MarkdownToHtml("**" + x + "**") == "<p>" + ("<strong>" + x + "</strong>") + "</p>"
  {
    var s := "**" + x + "**";
    var out := "<strong>" + x + "</strong>";
    StarsInline();
    NoLineTerminatorAppend("**", x);
    NoLineTerminatorAppend("**" + x, "**");
    AppendEmpty(s);
    StrongAtStart(x, []);
    AppendEmpty(out);
    assert Emphasis([]) == [];
    InertAppend("<strong>", x);
    InertAppend("<strong>" + x, "</strong>");
    EmphasisOnly(s, out);
  }

  /** An unmatched `**` on a line renders as an empty italic element. */
  lemma LeftoverDoubleStarRendered(a: string, b: string)
    requires Inert(a) && Inert(b) && (|a| == 0 || a[0] != '#')
    ensures MarkdownToHtml(a + "**" + b) == "<p>" + (a + "<em></em>" + b) + "</p>"
  {
    var s := a + "**" + b;
    var out := a + "<em></em>" + b;
    StarsInline();
    NoLineTerminatorAppend(a, "**");
    NoLineTerminatorAppend(a + "**", b);
    assert |s| == 0 || s[0] != '#' by {
      if |a| == 0 { assert s[0] == '*'; } else { assert s[0] == a[0]; }
    }
    Assoc3(a, "**", b);
    EmphasisSkip(a, "**" + b);
    AppendEmpty(b);
    AppendEmpty("**" + b);
    LeftoverAtStart(b, []);
    AppendEmpty("<em></em>" + b);
    assert Emphasis([]) == [];
    Assoc3(a, "<em></em>", b);
    InertAppend(a, "<em></em>");
    InertAppend(a + "<em></em>", b);
    EmphasisOnly(s, out);
  }

  /** The source text of a link lies on one line, holds no emphasis character and does not
      start with '#'. */
  lemma LinkSourceLine(m: LinkMatch)
    requires Plain(m.caption) && NoLineTerminator(m.caption) && Plain(m.target) && NoLineTerminator(m.target)
    ensures NoLineTerminator(m.Source()) && Plain(m.Source()) && m.Source()[0] == '['
  {
    NoLineTerminatorAppend("[", m.caption);
    NoLineTerminatorAppend("[" + m.caption, "](");
    NoLineTerminatorAppend("[" + m.caption + "](", m.target);
    NoLineTerminatorAppend("[" + m.caption + "](" + m.target, ")");
  }

  lemma AnchorOneLine(m: LinkMatch)
    requires NoLineTerminator(m.caption) && NoLineTerminator(m.target)
    ensures '\n' !in Anchor(m)
  {
    NoNewline(m.caption);
    NoNewline(m.target);
  }

  /** `[caption](target)` renders as an anchor with the target copied verbatim into `href`;
      the caption may itself hold '[', as in `[[a](b)`, which becomes `<a href="b">[a</a>`. */
  lemma LinkRendered(m: LinkMatch)
    requires WellFormedLink(m) && Plain(m.caption) && NoLineTerminator(m.caption)
    requires Plain(m.target) && NoLineTerminator(m.target)
    ensures MarkdownToHtml(m.Source()) == "<p>" + Anchor(m) + "</p>"
  {
    var s := m.Source();
    LinkSourceLine(m);
    SingleLineHeadings(s);
    EmphasisIdentity(s);
    AppendEmpty(s);
    LinkPassMatch(m, []);
    var out := Anchor(m);
    assert LinkPass([]) == [];
    AppendEmpty(out);
    AnchorOneLine(m);
    OneParagraph(s, out);
  }
}
