/**
 * The eight regular-expression rewrites of `markdownToHtml`, each as a pure
 * function with the semantics of a global JavaScript `String.prototype.replace`:
 * the input is scanned left to right, the leftmost match is replaced, and the
 * scan resumes after it, so matches never overlap and replacement text is never
 * re-scanned. None of these patterns can match the empty string, so the
 * empty-match advance rule of `replace` never applies.
 */
module MarkdownPasses {
  import opened Wrappers
  import opened JsText
  import opened Seqs

  // ---------------------------------------------------------------------------
  // Headings: /^### (.*$)/gim, /^## (.*$)/gim, /^# (.*$)/gim
  // ---------------------------------------------------------------------------

  type HeadingLevel = l: nat | 1 <= l <= 3 witness 1

  /** The literal that opens a heading of the given level: one to three '#' and a space. */
  function Marker(level: HeadingLevel): string {
    if level == 1 then "# " else if level == 2 then "## " else "### "
  }

  /** The replacement `<hN>$1</hN>` is `HeadingOpen(N) + $1 + HeadingClose(N)`. */
  function HeadingOpen(level: HeadingLevel): string {
    if level == 1 then "<h1>" else if level == 2 then "<h2>" else "<h3>"
  }

  function HeadingClose(level: HeadingLevel): string {
    if level == 1 then "</h1>" else if level == 2 then "</h2>" else "</h3>"
  }

  lemma MarkerShape(level: HeadingLevel)
    ensures 2 <= |Marker(level)| && NoLineTerminator(Marker(level)) && Marker(level)[0] == '#'
  {
  }

  lemma TagsInline(level: HeadingLevel)
    ensures NoLineTerminator(HeadingOpen(level)) && NoLineTerminator(HeadingClose(level))
  {
  }

  /** A marker that prefixes a text lies within its first line. */
  lemma MarkerInFirstLine(s: string, level: HeadingLevel)
    requires Marker(level) <= s
    ensures |Marker(level)| <= LineLength(s)
  {
    MarkerShape(level);
  }

  /**
   * One heading rewrite. `atLineStart` is whether `^` holds at the current
   * position under the `m` flag: at the start of the input or right after a
   * line terminator. `(.*$)` is greedy and `.` stops at a line terminator, so
   * the captured text is the rest of the line. The `i` flag changes nothing,
   * as the pattern contains no letters.
   */
  function HeadingPass(s: string, level: HeadingLevel, atLineStart: bool): string
    decreases |s|
  {
    if |s| == 0 then ""
    else if atLineStart && Marker(level) <= s then
      MarkerInFirstLine(s, level);
      var n := LineLength(s);
      HeadingOpen(level) + s[|Marker(level)|..n] + HeadingClose(level) + HeadingPass(s[n..], level, false)
    else [s[0]] + HeadingPass(s[1..], level, IsLineTerminator(s[0]))
  }

  /** Where no heading starts, the character is copied and `^` holds next exactly after a line terminator. */
  lemma HeadingPassStep(c: char, rest: string, level: HeadingLevel, atLineStart: bool)
    requires !(atLineStart && Marker(level) <= [c] + rest)
    ensures HeadingPass([c] + rest, level, atLineStart) == [c] + HeadingPass(rest, level, IsLineTerminator(c))
  {
    assert ([c] + rest)[0] == c && ([c] + rest)[1..] == rest;
  }

  /** The heading rewrite of one level applied to a single line, the reference for `HeadingPass`. */
  function MarkLine(line: string, level: HeadingLevel): string {
    if Marker(level) <= line then HeadingOpen(level) + line[|Marker(level)|..] + HeadingClose(level) else line
  }

  lemma MarkLineKeepsLine(line: string, level: HeadingLevel)
    requires NoLineTerminator(line)
    ensures NoLineTerminator(MarkLine(line, level))
  {
    if Marker(level) <= line {
      TagsInline(level);
      NoLineTerminatorSlice(line, |Marker(level)|, |line|);
      assert line[|Marker(level)|..|line|] == line[|Marker(level)|..];
      NoLineTerminatorAppend(HeadingOpen(level), line[|Marker(level)|..]);
      NoLineTerminatorAppend(HeadingOpen(level) + line[|Marker(level)|..], HeadingClose(level));
    }
  }

  /** Inside a line no heading can start: the rest of the line is copied. */
  lemma {:induction false} HeadingPassMidLine(x: string, tail: string, level: HeadingLevel)
    requires NoLineTerminator(x) && StartsLine(tail)
    ensures HeadingPass(x + tail, level, false) == x + HeadingPass(tail, level, true)
    decreases |x|
  {
    if |x| == 0 {
      assert x + tail == tail;
      if |tail| > 0 {
        Uncons(tail, []);
        assert tail == [tail[0]] + tail[1..];
        HeadingPassStep(tail[0], tail[1..], level, false);
        HeadingPassTerminator(tail[0], tail[1..], level);
      }
      assert x + HeadingPass(tail, level, true) == HeadingPass(tail, level, true);
    } else {
      var rest, h := x[1..], HeadingPass(tail, level, true);
      Uncons(x, tail);
      HeadingPassStep(x[0], rest + tail, level, false);
      HeadingPassMidLine(rest, tail, level);
      Uncons(x, h);
    }
  }

  /** At the start of a line, `HeadingPass` does to that line exactly what `MarkLine` does. */
  lemma {:induction false} HeadingPassLine(line: string, tail: string, level: HeadingLevel)
    requires NoLineTerminator(line) && StartsLine(tail)
    ensures HeadingPass(line + tail, level, true) == MarkLine(line, level) + HeadingPass(tail, level, true)
  {
    var s := line + tail;
    var m := |Marker(level)|;
    var h := HeadingPass(tail, level, true);
    if |line| == 0 {
      assert s == tail;
      assert MarkLine(line, level) + h == h;
    } else if Marker(level) <= s {
      HeadingPassMarked(line, tail, level);
    } else {
      assert !(Marker(level) <= line);
      var rest := line[1..];
      Uncons(line, tail);
      HeadingPassStep(line[0], rest + tail, level, true);
      HeadingPassMidLine(rest, tail, level);
      Uncons(line, h);
    }
  }

  /** A line that starts with the marker becomes a heading holding the rest of the line. */
  lemma HeadingPassMarked(line: string, tail: string, level: HeadingLevel)
    requires NoLineTerminator(line) && StartsLine(tail) && Marker(level) <= line + tail
    ensures Marker(level) <= line
    ensures HeadingPass(line + tail, level, true)
         == HeadingOpen(level) + line[|Marker(level)|..] + HeadingClose(level) + HeadingPass(tail, level, true)
  {
    var s := line + tail;
    var m := |Marker(level)|;
    LineLengthOfLine(line, tail);
    MarkerInFirstLine(s, level);
    assert line[..m] == s[..m];
    assert s[m..|line|] == line[m..];
    assert s[|line|..] == tail;
    assert [] + tail == tail;
    HeadingPassMidLine([], tail, level);
  }

  /** A line terminator is copied and the next position is a line start. */
  lemma HeadingPassTerminator(t: char, rest: string, level: HeadingLevel)
    requires IsLineTerminator(t)
    ensures HeadingPass([t] + rest, level, true) == [t] + HeadingPass(rest, level, true)
  {
    MarkerShape(level);
    assert !(Marker(level) <= [t] + rest) by { assert ([t] + rest)[0] != Marker(level)[0]; }
    assert ([t] + rest)[1..] == rest;
  }

  lemma HeadingPassStartsLine(tail: string, level: HeadingLevel)
    requires StartsLine(tail)
    ensures StartsLine(HeadingPass(tail, level, true))
  {
    if |tail| > 0 {
      assert tail == [tail[0]] + tail[1..];
      HeadingPassTerminator(tail[0], tail[1..], level);
    }
  }

  // ---------------------------------------------------------------------------
  // Emphasis: /\*\*(.*?)\*\*/g, /\_\_(.*?)\_\_/g, /\*(.*?)\*/g, /\_(.*?)\_/g
  // ---------------------------------------------------------------------------

  /** A delimiter is one or two copies of the same character, never a line terminator. */
  predicate IsDelimiter(d: string) {
    (|d| == 1 || (|d| == 2 && d[1] == d[0])) && !IsLineTerminator(d[0])
  }

  /** A position found in a suffix, seen from `n` characters earlier. */
  function Shift(r: Option<nat>, n: nat): Option<nat> {
    match r
    case None => None
    case Some(k) => Some(k + n)
  }

  /**
   * The lazy `(.*?)` followed by the closing delimiter `d`: the least `k` such
   * that `d` occurs at `k` in `s` and no line terminator precedes `k`.
   */
  function LazyClose(s: string, d: string): (r: Option<nat>)
    requires |d| > 0
    ensures r.Some? ==> r.value + |d| <= |s|
    decreases |s|
  {
    if d <= s then Some(0)
    else if |s| == 0 || IsLineTerminator(s[0]) then None
    else Shift(LazyClose(s[1..], d), 1)
  }

  /** A found position holds the closing delimiter. */
  lemma {:induction false} LazyCloseFound(s: string, d: string)
    requires |d| > 0 && LazyClose(s, d).Some?
    ensures s[LazyClose(s, d).value..LazyClose(s, d).value + |d|] == d
    decreases |s|
  {
    if !(d <= s) {
      var k := LazyClose(s, d).value;
      LazyCloseFound(s[1..], d);
      assert s[1..][k - 1..k - 1 + |d|] == s[k..k + |d|];
    }
  }

  /** Dropping the first character of a text keeps its later positions. */
  lemma ShiftedLine(s: string, j: nat)
    requires 1 <= j <= |s| && NoLineTerminator(s[..j])
    ensures NoLineTerminator(s[1..][..j - 1]) && s[j..] == s[1..][j - 1..]
  {
    assert s[1..][..j - 1] == s[1..j];
  }

  /** `Some(k)` is the least position on the first line where `d` occurs. */
  lemma {:induction false} LazyCloseLeast(s: string, d: string)
    requires |d| > 0 && LazyClose(s, d).Some?
    ensures NoLineTerminator(s[..LazyClose(s, d).value])
    ensures forall j :: 0 <= j < LazyClose(s, d).value ==> !(d <= s[j..])
    decreases |s|
  {
    if !(d <= s) {
      LazyCloseLeast(s[1..], d);
      var k := LazyClose(s, d).value;
      assert s[..k] == [s[0]] + s[1..][..k - 1];
      forall j | 1 <= j < k
        ensures !(d <= s[j..])
      {
        assert s[j..] == s[1..][j - 1..];
      }
    }
  }

  /** `None` means `d` occurs at no position before the first line terminator. */
  lemma {:induction false} LazyCloseAbsent(s: string, d: string)
    requires |d| > 0 && LazyClose(s, d).None?
    ensures forall j :: 0 <= j <= |s| && NoLineTerminator(s[..j]) ==> !(d <= s[j..])
    decreases |s|
  {
    if |s| > 0 && !IsLineTerminator(s[0]) {
      LazyCloseAbsent(s[1..], d);
      forall j | 1 <= j <= |s| && NoLineTerminator(s[..j])
        ensures !(d <= s[j..])
      {
        ShiftedLine(s, j);
      }
    } else if |s| > 0 {
      forall j | 1 <= j <= |s|
        ensures !NoLineTerminator(s[..j])
      {
        assert s[..j][0] == s[0];
      }
    }
  }

  /** One emphasis rewrite: `d` is the delimiter; the replacement is `open + $1 + close`. */
  function SpanPass(s: string, d: string, open: string, close: string): string
    requires |d| > 0
    decreases |s|
  {
    if |s| == 0 then ""
    else if d <= s && LazyClose(s[|d|..], d).Some? then
      var k := LazyClose(s[|d|..], d).value;
      open + s[|d|..|d| + k] + close + SpanPass(s[|d| + k + |d|..], d, open, close)
    else [s[0]] + SpanPass(s[1..], d, open, close)
  }

  /** Text without the delimiter character does not affect the closing search. */
  lemma {:induction false} LazyCloseSkip(x: string, y: string, d: string)
    requires IsDelimiter(d) && d[0] !in x && NoLineTerminator(x)
    ensures LazyClose(x + y, d) == Shift(LazyClose(y, d), |x|)
    decreases |x|
  {
    if |x| == 0 {
      assert x + y == y;
    } else {
      Uncons(x, y);
      assert !(d <= [x[0]] + (x[1..] + y)) by { assert ([x[0]] + (x[1..] + y))[0] != d[0]; }
      LazyCloseStep(x[0], x[1..] + y, d);
      LazyCloseSkip(x[1..], y, d);
      assert Shift(Shift(LazyClose(y, d), |x| - 1), 1) == Shift(LazyClose(y, d), |x|);
    }
  }

  /** A line that holds no delimiter character never closes a span. */
  lemma LazyCloseNone(x: string, tail: string, d: string)
    requires IsDelimiter(d) && d[0] !in x && NoLineTerminator(x) && StartsLine(tail)
    ensures LazyClose(x + tail, d).None?
  {
    LazyCloseSkip(x, tail, d);
    if |tail| > 0 {
      assert !(d <= tail) by { assert tail[0] != d[0]; }
    }
  }

  /** A match at the scan position: the span up to the lazily found closing delimiter is
      replaced and the scan resumes after that delimiter. */
  lemma SpanPassAt(s: string, d: string, open: string, close: string, k: nat)
    requires IsDelimiter(d) && d <= s && LazyClose(s[|d|..], d) == Some(k)
    ensures SpanPass(s, d, open, close)
         == open + s[|d|..|d| + k] + close + SpanPass(s[|d| + k + |d|..], d, open, close)
  {
  }

  /** A position where the delimiter does not start is copied. */
  lemma SpanPassStep(c: char, rest: string, d: string, open: string, close: string)
    requires IsDelimiter(d) && !(d <= [c] + rest)
    ensures SpanPass([c] + rest, d, open, close) == [c] + SpanPass(rest, d, open, close)
  {
    assert ([c] + rest)[1..] == rest;
  }

  /** A position where the delimiter does not start moves the closing search one step on. */
  lemma LazyCloseStep(c: char, rest: string, d: string)
    requires IsDelimiter(d) && !(d <= [c] + rest) && !IsLineTerminator(c)
    ensures LazyClose([c] + rest, d) == Shift(LazyClose(rest, d), 1)
  {
    assert ([c] + rest)[1..] == rest;
  }

  /** Text without the delimiter character is copied unchanged. */
  lemma {:induction false} SpanPassSkip(x: string, y: string, d: string, open: string, close: string)
    requires IsDelimiter(d) && d[0] !in x
    ensures SpanPass(x + y, d, open, close) == x + SpanPass(y, d, open, close)
    decreases |x|
  {
    if |x| == 0 {
      assert x + y == y;
      assert x + SpanPass(y, d, open, close) == SpanPass(y, d, open, close);
    } else {
      var rest := x[1..];
      Uncons(x, y);
      assert !(d <= [x[0]] + (rest + y)) by { assert ([x[0]] + (rest + y))[0] != d[0]; }
      SpanPassStep(x[0], rest + y, d, open, close);
      SpanPassSkip(rest, y, d, open, close);
      Uncons(x, SpanPass(y, d, open, close));
    }
  }

  /** `d x d` with `x` free of the delimiter character and of line terminators becomes `open + x + close`. */
  lemma SpanPassMatch(x: string, y: string, d: string, open: string, close: string)
    requires IsDelimiter(d) && d[0] !in x && NoLineTerminator(x)
    ensures SpanPass(d + x + d + y, d, open, close) == open + x + close + SpanPass(y, d, open, close)
  {
    LazyCloseSkip(x, d + y, d);
    assert d <= d + y;
    SpanPassAtSplit(x, y, d, open, close);
    Assoc4(d, x, d, y);
  }

  /** The match lemma with the text already grouped as delimiter, content, delimiter, rest. */
  lemma SpanPassAtSplit(x: string, y: string, d: string, open: string, close: string)
    requires IsDelimiter(d) && LazyClose(x + (d + y), d) == Some(|x|)
    ensures SpanPass(d + (x + (d + y)), d, open, close) == open + x + close + SpanPass(y, d, open, close)
  {
    Pieces4(d, x, d, y);
    PrefixOfAppend(d, x + (d + y));
  }

  /** An opening delimiter with no closing one on its line: its first character is copied. */
  lemma SpanPassNoClose(s: string, d: string, open: string, close: string)
    requires IsDelimiter(d) && d <= s && LazyClose(s[|d|..], d).None?
    ensures SpanPass(s, d, open, close) == [s[0]] + SpanPass(s[1..], d, open, close)
  {
  }

  /** A delimiter character alone among the characters of its line stays literal. */
  lemma SpanPassLoneChar(l: string, tail: string, d: string, open: string, close: string)
    requires IsDelimiter(d) && d[0] !in l && NoLineTerminator(l) && StartsLine(tail)
    ensures SpanPass([d[0]] + (l + tail), d, open, close) == [d[0]] + (l + SpanPass(tail, d, open, close))
  {
    var c := d[0];
    var s := [c] + (l + tail);
    assert s[1..] == l + tail;
    assert |s| == 1 || s[1] != c by {
      if |l| > 0 { assert s[1] == l[0]; } else if |tail| > 0 { assert s[1] == tail[0]; }
    }
    if d <= s {
      assert |d| == 1;
      assert s[|d|..] == l + tail;
      LazyCloseNone(l, tail, d);
      SpanPassNoClose(s, d, open, close);
    } else {
      SpanPassStep(c, l + tail, d, open, close);
    }
    SpanPassSkip(l, tail, d, open, close);
  }

  /** An opening delimiter whose line holds no other delimiter character is copied as it is. */
  lemma SpanPassUnclosed(l: string, tail: string, d: string, open: string, close: string)
    requires IsDelimiter(d) && d[0] !in l && NoLineTerminator(l) && StartsLine(tail)
    ensures SpanPass(d + (l + tail), d, open, close) == d + (l + SpanPass(tail, d, open, close))
  {
    if |d| == 1 {
      assert d == [d[0]];
      SpanPassLoneChar(l, tail, d, open, close);
    } else {
      var s := d + (l + tail);
      assert d == [d[0]] + [d[0]];
      assert s == [d[0]] + ([d[0]] + (l + tail));
      PrefixOfAppend(d, l + tail);
      assert s[|d|..] == l + tail;
      LazyCloseNone(l, tail, d);
      SpanPassNoClose(s, d, open, close);
      SpanPassLoneChar(l, tail, d, open, close);
    }
  }

  /** A pass starting at a line terminator copies it. */
  lemma SpanPassTerminator(t: char, rest: string, d: string, open: string, close: string)
    requires IsDelimiter(d) && IsLineTerminator(t)
    ensures SpanPass([t] + rest, d, open, close) == [t] + SpanPass(rest, d, open, close)
  {
    SpanPassSkip([t], rest, d, open, close);
  }

  lemma SpanPassStartsLine(tail: string, d: string, open: string, close: string)
    requires IsDelimiter(d) && StartsLine(tail)
    ensures StartsLine(SpanPass(tail, d, open, close))
  {
    if |tail| > 0 {
      assert tail == [tail[0]] + tail[1..];
      SpanPassTerminator(tail[0], tail[1..], d, open, close);
    }
  }

  /** A delimiter found at the start of a line followed by more lines lies within that line. */
  lemma DelimiterInLine(x: string, tail: string, d: string)
    requires IsDelimiter(d) && StartsLine(tail)
    ensures d <= x + tail <==> d <= x
  {
    if |d| > |x| && |x + tail| >= |d| {
      assert (x + tail)[|x|] == tail[0];
      assert d[|x|] == d[0];
    }
  }

  /** The closing search never looks past the end of the line it starts on. */
  lemma {:induction false} LazyCloseLine(x: string, tail: string, d: string)
    requires IsDelimiter(d) && NoLineTerminator(x) && StartsLine(tail)
    ensures LazyClose(x + tail, d) == LazyClose(x, d)
    decreases |x|
  {
    DelimiterInLine(x, tail, d);
    if |x| == 0 {
      assert x + tail == tail;
    } else if !(d <= x) {
      assert (x + tail)[1..] == x[1..] + tail;
      NoLineTerminatorSlice(x, 1, |x|);
      LazyCloseLine(x[1..], tail, d);
    }
  }

  /** One emphasis rewrite keeps a line a line when its tags hold no line terminator. */
  lemma {:induction false} SpanPassKeepsLine(x: string, d: string, open: string, close: string)
    requires IsDelimiter(d) && NoLineTerminator(x) && NoLineTerminator(open) && NoLineTerminator(close)
    ensures NoLineTerminator(SpanPass(x, d, open, close))
    decreases |x|
  {
    if |x| > 0 {
      if d <= x && LazyClose(x[|d|..], d).Some? {
        var k := LazyClose(x[|d|..], d).value;
        var m := |d| + k + |d|;
        NoLineTerminatorSlice(x, |d|, |d| + k);
        NoLineTerminatorSlice(x, m, |x|);
        SpanPassKeepsLine(x[m..], d, open, close);
        NoLineTerminatorAppend(open, x[|d|..|d| + k]);
        NoLineTerminatorAppend(open + x[|d|..|d| + k], close);
        NoLineTerminatorAppend(open + x[|d|..|d| + k] + close, SpanPass(x[m..], d, open, close));
      } else {
        NoLineTerminatorSlice(x, 1, |x|);
        SpanPassKeepsLine(x[1..], d, open, close);
        NoLineTerminatorAppend([x[0]], SpanPass(x[1..], d, open, close));
      }
    }
  }

  /** An emphasis rewrite works line by line: a line and what follows it are rewritten
      independently, since the lazy `(.*?)` cannot cross the line terminator between them. */
  lemma {:induction false} SpanPassLine(x: string, tail: string, d: string, open: string, close: string)
    requires IsDelimiter(d) && NoLineTerminator(x) && StartsLine(tail)
    ensures SpanPass(x + tail, d, open, close) == SpanPass(x, d, open, close) + SpanPass(tail, d, open, close)
    decreases |x|, 1
  {
    DelimiterInLine(x, tail, d);
    if |x| == 0 {
      assert x + tail == tail;
    } else if d <= x && LazyClose(x[|d|..], d).Some? {
      SpanPassLineMatch(x, tail, d, open, close);
    } else {
      SpanPassLineCopy(x, tail, d, open, close);
    }
  }

  /** `SpanPassLine` where a span opens at the start of the line and closes on it. */
  lemma {:induction false} SpanPassLineMatch(x: string, tail: string, d: string, open: string, close: string)
    requires IsDelimiter(d) && NoLineTerminator(x) && StartsLine(tail)
    requires d <= x && LazyClose(x[|d|..], d).Some?
    ensures SpanPass(x + tail, d, open, close) == SpanPass(x, d, open, close) + SpanPass(tail, d, open, close)
    decreases |x|, 0
  {
    var s := x + tail;
    var k := LazyClose(x[|d|..], d).value;
    var m := |d| + k + |d|;
    var span := open + x[|d|..|d| + k] + close;
    SpanPassLineOpens(x, tail, d, open, close);
    SpanPassAt(x, d, open, close, k);
    NoLineTerminatorSlice(x, m, |x|);
    SpanPassLine(x[m..], tail, d, open, close);
    Assoc3(span, SpanPass(x[m..], d, open, close), SpanPass(tail, d, open, close));
  }

  /** The span that opens at the start of the line closes at the same place when more
      lines follow. */
  lemma SpanPassLineOpens(x: string, tail: string, d: string, open: string, close: string)
    requires IsDelimiter(d) && NoLineTerminator(x) && StartsLine(tail)
    requires d <= x && LazyClose(x[|d|..], d).Some?
    ensures var k := LazyClose(x[|d|..], d).value;
      var m := |d| + k + |d|;
      m <= |x| &&
      SpanPass(x + tail, d, open, close)
        == open + x[|d|..|d| + k] + close + SpanPass(x[m..] + tail, d, open, close)
  {
    var s := x + tail;
    var k := LazyClose(x[|d|..], d).value;
    var m := |d| + k + |d|;
    PrefixOfAppend(x, tail);
    SliceOfAppend(x, tail, |d|, |d| + k);
    NoLineTerminatorSlice(x, |d|, |x|);
    LazyCloseLine(x[|d|..], tail, d);
    SpanPassAt(s, d, open, close, k);
    SliceOfAppend(x, tail, m, m);
  }

  /** `SpanPassLine` where the first character of the line is copied. */
  lemma {:induction false} SpanPassLineCopy(x: string, tail: string, d: string, open: string, close: string)
    requires IsDelimiter(d) && NoLineTerminator(x) && StartsLine(tail) && |x| > 0
    requires !(d <= x && LazyClose(x[|d|..], d).Some?)
    ensures SpanPass(x + tail, d, open, close) == SpanPass(x, d, open, close) + SpanPass(tail, d, open, close)
    decreases |x|, 0
  {
    var s := x + tail;
    DelimiterInLine(x, tail, d);
    SliceOfAppend(x, tail, 1, 1);
    if d <= x {
      SliceOfAppend(x, tail, |d|, |d|);
      NoLineTerminatorSlice(x, |d|, |x|);
      LazyCloseLine(x[|d|..], tail, d);
      SpanPassNoClose(s, d, open, close);
      SpanPassNoClose(x, d, open, close);
    }
    assert s[0] == x[0];
    NoLineTerminatorSlice(x, 1, |x|);
    SpanPassLine(x[1..], tail, d, open, close);
    Assoc3([x[0]], SpanPass(x[1..], d, open, close), SpanPass(tail, d, open, close));
  }

  /** `SpanPassLine` together with what it keeps: the line stays one line and the rest still
      begins a new line. */
  lemma PassLine(x: string, tail: string, d: string, open: string, close: string)
    requires IsDelimiter(d) && NoLineTerminator(x) && StartsLine(tail)
    requires NoLineTerminator(open) && NoLineTerminator(close)
    ensures SpanPass(x + tail, d, open, close) == SpanPass(x, d, open, close) + SpanPass(tail, d, open, close)
    ensures NoLineTerminator(SpanPass(x, d, open, close)) && StartsLine(SpanPass(tail, d, open, close))
  {
    SpanPassLine(x, tail, d, open, close);
    SpanPassKeepsLine(x, d, open, close);
    SpanPassStartsLine(tail, d, open, close);
  }

  // ---------------------------------------------------------------------------
  // Links: /\[([^\]]+)\]\(([^)]+)\)/g
  // ---------------------------------------------------------------------------

  /** The longest prefix of `s` without `c`: what a greedy `[^c]+`/`[^c]*` consumes.
      A negated class matches line terminators too. */
  function RunWithout(s: string, c: char): (n: nat)
    ensures n <= |s| && c !in s[..n]
    ensures n < |s| ==> s[n] == c
  {
    if |s| == 0 || s[0] == c then 0 else 1 + RunWithout(s[1..], c)
  }

  datatype LinkMatch = LinkMatch(caption: string, target: string)
  {
    /** The source text the match spans: `[label](target)`. */
    function Source(): string {
      "[" + caption + "](" + target + ")"
    }
  }

  predicate WellFormedLink(m: LinkMatch) {
    |m.caption| > 0 && ']' !in m.caption && |m.target| > 0 && ')' !in m.target
  }

  /**
   * The link pattern anchored at the start of `s`. Backtracking cannot help a
   * greedy negated class here: a shorter label ends before a character that is
   * not ']', so only the longest run can be followed by `](`, and likewise for
   * the target and `)`.
   */
  function MatchLink(s: string): (r: Option<LinkMatch>)
    ensures r.Some? ==> WellFormedLink(r.value) && r.value.Source() <= s
  {
    if |s| == 0 || s[0] != '[' then None
    else
      var a := RunWithout(s[1..], ']');
      if a == 0 || 2 + a >= |s| || s[2 + a] != '(' then None
      else
        var b := RunWithout(s[3 + a..], ')');
        if b == 0 || 3 + a + b >= |s| then None
        else
          var m := LinkMatch(s[1..1 + a], s[3 + a..3 + a + b]);
          LinkSourceAt(s, m);
          Some(m)
  }

  /** The pieces of `[caption](target)` found at the start of `s` make up its source text. */
  lemma LinkSourceAt(s: string, m: LinkMatch)
    requires 4 + |m.caption| + |m.target| <= |s|
    requires s[0] == '[' && s[1..1 + |m.caption|] == m.caption
    requires s[1 + |m.caption|] == ']' && s[2 + |m.caption|] == '('
    requires s[3 + |m.caption|..3 + |m.caption| + |m.target|] == m.target
    requires s[3 + |m.caption| + |m.target|] == ')'
    ensures m.Source() <= s
  {
    var a, b := |m.caption|, |m.target|;
    var n := 4 + a + b;
    assert s[..n] == s[..1] + s[1..1 + a] + s[1 + a..3 + a] + s[3 + a..3 + a + b] + s[3 + a + b..n];
    assert s[..1] == "[" && s[1 + a..3 + a] == "](" && s[3 + a + b..n] == ")";
  }

  /** The converse of `MatchLink`'s contract: a well-formed link at the start is always found. */
  lemma MatchLinkFinds(m: LinkMatch, rest: string)
    requires WellFormedLink(m)
    ensures MatchLink(m.Source() + rest) == Some(m)
  {
    var s := m.Source() + rest;
    var a := |m.caption|;
    LinkLayout(m, rest);
    RunWithoutStops(m.caption, "](" + (m.target + (")" + rest)), ']');
    RunWithoutStops(m.target, ")" + rest, ')');
  }

  /** Where the pieces of a link followed by more text sit. */
  lemma LinkLayout(m: LinkMatch, rest: string)
    ensures var s, a, b := m.Source() + rest, |m.caption|, |m.target|;
      && |s| == 4 + a + b + |rest|
      && s[0] == '[' && s[1 + a] == ']' && s[2 + a] == '(' && s[3 + a + b] == ')'
      && s[1..] == m.caption + ("](" + (m.target + (")" + rest)))
      && s[3 + a..] == m.target + (")" + rest)
      && s[1..1 + a] == m.caption && s[3 + a..3 + a + b] == m.target
      && s[4 + a + b..] == rest
  {
    var s, a, b := m.Source() + rest, |m.caption|, |m.target|;
    var t := m.target + (")" + rest);
    var u := "](" + t;
    assert s == "[" + (m.caption + u);
    assert s[1..] == m.caption + u;
    assert s[1 + a..] == u;
    assert s[3 + a..] == t;
    assert s[4 + a + b..] == rest;
  }

  lemma {:induction false} RunWithoutStops(x: string, y: string, c: char)
    requires c !in x && |y| > 0 && y[0] == c
    ensures RunWithout(x + y, c) == |x|
    decreases |x|
  {
    if |x| == 0 {
      assert x + y == y;
    } else {
      Uncons(x, y);
      RunWithoutStops(x[1..], y, c);
    }
  }

  /** `$2` and `$1` are inserted verbatim: no escaping of the target. */
  function Anchor(m: LinkMatch): string {
    "<a href=\"" + m.target + "\">" + m.caption + "</a>"
  }

  function LinkPass(s: string): string
    decreases |s|
  {
    if |s| == 0 then ""
    else match MatchLink(s)
      case Some(m) => Anchor(m) + LinkPass(s[|m.Source()|..])
      case None => [s[0]] + LinkPass(s[1..])
  }

  /** A character other than '[' never starts a link and is copied. */
  lemma LinkPassStep(c: char, rest: string)
    requires c != '['
    ensures LinkPass([c] + rest) == [c] + LinkPass(rest)
  {
    var s := [c] + rest;
    assert s[0] == c && s[1..] == rest;
    assert MatchLink(s) == None;
  }

  /** Text without '[' is copied unchanged. */
  lemma {:induction false} LinkPassSkip(x: string, y: string)
    requires '[' !in x
    ensures LinkPass(x + y) == x + LinkPass(y)
    decreases |x|
  {
    if |x| == 0 {
      assert x + y == y;
      assert x + LinkPass(y) == LinkPass(y);
    } else {
      var rest := x[1..];
      Uncons(x, y);
      LinkPassStep(x[0], rest + y);
      LinkPassSkip(rest, y);
      Uncons(x, LinkPass(y));
    }
  }

  lemma LinkPassIdentity(x: string)
    requires '[' !in x
    ensures LinkPass(x) == x
  {
    LinkPassSkip(x, []);
    assert x + [] == x;
  }

  /** A well-formed link at the scan position becomes an anchor and the scan resumes after it. */
  lemma LinkPassMatch(m: LinkMatch, rest: string)
    requires WellFormedLink(m)
    ensures LinkPass(m.Source() + rest) == Anchor(m) + LinkPass(rest)
  {
    MatchLinkFinds(m, rest);
    assert (m.Source() + rest)[|m.Source()|..] == rest;
  }
}
