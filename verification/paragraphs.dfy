/**
 * The last step of `markdownToHtml`:
 * `html.split('\n\n').map(p => `<p>${p.replace(/\n/g, '<br>')}</p>`).join('\n')`.
 * Only '\n' matters here; the other line terminators are ordinary characters.
 */
module Paragraphs {
  import opened Seqs

  /** True when `p` holds no blank line, i.e. no two consecutive '\n'. */
  predicate NoSeparator(p: string) {
    forall i :: 0 <= i < |p| - 1 ==> !(p[i] == '\n' && p[i + 1] == '\n')
  }

  predicate EndsWithNewline(p: string) {
    |p| > 0 && p[|p| - 1] == '\n'
  }

  /** What `split` promises of its pieces: none holds the separator, and a piece that is
      followed by another does not end in '\n' (else the separator would have started earlier). */
  predicate SplitPieces(ps: seq<string>) {
    && |ps| >= 1
    && (forall i :: 0 <= i < |ps| ==> NoSeparator(ps[i]))
    && (forall i :: 0 <= i < |ps| - 1 ==> !EndsWithNewline(ps[i]))
  }

  /** `a.join(sep)` for a non-empty array. */
  function Join(ps: seq<string>, sep: string): string
    requires |ps| >= 1
  {
    if |ps| == 1 then ps[0] else ps[0] + sep + Join(ps[1..], sep)
  }

  /** `s.split("\n\n")`: the separator is searched left to right and occurrences do not overlap. */
  function Split(s: string): (ps: seq<string>)
    ensures |ps| >= 1
    decreases |s|
  {
    if |s| == 0 then [""]
    else if "\n\n" <= s then [""] + Split(s[2..])
    else
      var rest := Split(s[1..]);
      [[s[0]] + rest[0]] + rest[1..]
  }

  /** Joining after an empty first piece starts with the separator. */
  lemma JoinEmptyFirst(ps: seq<string>)
    requires |ps| >= 1
    ensures Join([""] + ps, "\n\n") == "\n\n" + Join(ps, "\n\n")
  {
    var qs := [""] + ps;
    assert qs[0] == "" && qs[1..] == ps;
  }

  /** Joining after a character is put in front of the first piece puts it in front of the text. */
  lemma JoinConsFirst(c: char, ps: seq<string>)
    requires |ps| >= 1
    ensures Join([[c] + ps[0]] + ps[1..], "\n\n") == [c] + Join(ps, "\n\n")
  {
    var qs := [[c] + ps[0]] + ps[1..];
    assert qs[0] == [c] + ps[0] && qs[1..] == ps[1..];
    if |ps| > 1 {
      Assoc3([c], ps[0], "\n\n" + Join(ps[1..], "\n\n"));
      Assoc3([c] + ps[0], "\n\n", Join(ps[1..], "\n\n"));
      Assoc3(ps[0], "\n\n", Join(ps[1..], "\n\n"));
    }
  }

  /** Joining the pieces with the separator gives back the text. */
  lemma {:induction false} SplitJoin(s: string)
    ensures Join(Split(s), "\n\n") == s
    decreases |s|
  {
    if |s| == 0 {
    } else if "\n\n" <= s {
      SplitJoin(s[2..]);
      JoinEmptyFirst(Split(s[2..]));
      assert s == "\n\n" + s[2..];
    } else {
      SplitJoin(s[1..]);
      JoinConsFirst(s[0], Split(s[1..]));
      assert s == [s[0]] + s[1..];
    }
  }

  /** The pieces `Split` returns have the shape `split` promises. */
  lemma {:induction false} SplitShape(s: string)
    ensures SplitPieces(Split(s))
    decreases |s|
  {
    if |s| == 0 {
    } else if "\n\n" <= s {
      SplitShape(s[2..]);
      var rest := Split(s[2..]);
      var ps := [""] + rest;
      forall i | 1 <= i < |ps| ensures ps[i] == rest[i - 1] { }
    } else {
      SplitShape(s[1..]);
      var rest := Split(s[1..]);
      SplitJoin(s[1..]);
      SplitFirstPiece(s[0], rest, s[1..]);
      var ps := [[s[0]] + rest[0]] + rest[1..];
      forall i | 1 <= i < |ps| ensures ps[i] == rest[i] { }
    }
  }

  /** Putting a character in front of a piece keeps it free of the separator unless the
      character and the piece's first character are both '\n'. */
  lemma ConsNoSeparator(c: char, r: string)
    requires NoSeparator(r) && !(c == '\n' && |r| > 0 && r[0] == '\n')
    ensures NoSeparator([c] + r)
  {
    var first := [c] + r;
    forall i | 1 <= i < |first| - 1
      ensures !(first[i] == '\n' && first[i + 1] == '\n')
    {
      assert first[i] == r[i - 1] && first[i + 1] == r[i];
    }
  }

  /** The joined text begins with the first piece, followed by the separator when there
      are more pieces. */
  lemma JoinStart(ps: seq<string>)
    requires |ps| >= 1
    ensures |ps[0]| <= |Join(ps, "\n\n")| && Join(ps, "\n\n")[..|ps[0]|] == ps[0]
    ensures |ps| > 1 ==> |ps[0]| < |Join(ps, "\n\n")| && Join(ps, "\n\n")[|ps[0]|] == '\n'
  {
    if |ps| > 1 {
      Assoc3(ps[0], "\n\n", Join(ps[1..], "\n\n"));
    }
  }

  /** A character in front of a text that does not start a separator. */
  lemma NoSeparatorStart(c: char, t: string)
    requires !("\n\n" <= [c] + t) && |t| > 0
    ensures !(c == '\n' && t[0] == '\n')
  {
    assert ([c] + t)[..2] == [c, t[0]];
  }

  /** The first piece after a character is put in front of it keeps the piece shape, provided
      the character and the text after it do not start a separator. */
  lemma SplitFirstPiece(c: char, rest: seq<string>, t: string)
    requires SplitPieces(rest) && Join(rest, "\n\n") == t && !("\n\n" <= [c] + t)
    ensures NoSeparator([c] + rest[0])
    ensures |rest| > 1 ==> !EndsWithNewline([c] + rest[0])
  {
    var r := rest[0];
    JoinStart(rest);
    if |t| > 0 {
      NoSeparatorStart(c, t);
    }
    if |r| > 0 {
      assert t[0] == r[0];
    }
    ConsNoSeparator(c, r);
  }

  /** The converse: any pieces of that shape that join to `s` are exactly `Split(s)`,
      so `Split` is the only reading of `split` the pieces admit. */
  lemma {:induction false} SplitUnique(ps: seq<string>, s: string)
    requires SplitPieces(ps) && Join(ps, "\n\n") == s
    ensures Split(s) == ps
    decreases |s|, |ps[0]|
  {
    if |ps[0]| == 0 {
      if |ps| == 1 {
      } else {
        assert s == "\n\n" + Join(ps[1..], "\n\n");
        assert "\n\n" <= s;
        assert s[2..] == Join(ps[1..], "\n\n");
        assert SplitPieces(ps[1..]) by {
          forall i | 0 <= i < |ps[1..]| ensures NoSeparator(ps[1..][i]) { assert ps[1..][i] == ps[i + 1]; }
          forall i | 0 <= i < |ps[1..]| - 1 ensures !EndsWithNewline(ps[1..][i]) { assert ps[1..][i] == ps[i + 1]; }
        }
        SplitUnique(ps[1..], s[2..]);
        assert ps == [""] + ps[1..];
      }
    } else {
      var p := ps[0];
      var tailPieces := [p[1..]] + ps[1..];
      var rest := if |ps| == 1 then "" else "\n\n" + Join(ps[1..], "\n\n");
      assert s == p + rest;
      assert Join(tailPieces, "\n\n") == p[1..] + rest;
      assert s[1..] == p[1..] + rest;
      if |p| >= 2 {
        assert s[0] == p[0] && s[1] == p[1];
      } else if |ps| > 1 {
        assert !EndsWithNewline(ps[0]) && s[0] == p[0];
      } else {
        assert |s| == 1;
      }
      assert !("\n\n" <= s);
      assert SplitPieces(tailPieces) by {
        assert NoSeparator(p[1..]) by {
          forall i | 0 <= i < |p[1..]| - 1
            ensures !(p[1..][i] == '\n' && p[1..][i + 1] == '\n')
          {
            assert p[1..][i] == p[i + 1] && p[1..][i + 1] == p[i + 2];
          }
        }
        forall i | 0 <= i < |tailPieces| ensures NoSeparator(tailPieces[i]) {
          if i > 0 { assert tailPieces[i] == ps[i]; }
        }
        forall i | 0 <= i < |tailPieces| - 1 ensures !EndsWithNewline(tailPieces[i]) {
          if i > 0 {
            assert tailPieces[i] == ps[i];
          } else if |p[1..]| > 0 {
            assert p[1..][|p[1..]| - 1] == p[|p| - 1];
          }
        }
      }
      SplitUnique(tailPieces, s[1..]);
      assert s[0] == p[0] && p == [p[0]] + p[1..];
      assert ps == [[s[0]] + p[1..]] + ps[1..];
    }
  }

  /** The number of separators `split` consumes: occurrences of "\n\n", left to right, not overlapping. */
  function CountSeparators(s: string): nat
    decreases |s|
  {
    if |s| == 0 then 0
    else if "\n\n" <= s then 1 + CountSeparators(s[2..])
    else CountSeparators(s[1..])
  }

  lemma {:induction false} SplitCount(s: string)
    ensures |Split(s)| == CountSeparators(s) + 1
    decreases |s|
  {
    if |s| == 0 {
    } else if "\n\n" <= s {
      SplitCount(s[2..]);
    } else {
      SplitCount(s[1..]);
    }
  }

  function CountChar(s: string, c: char): nat {
    if |s| == 0 then 0 else (if s[0] == c then 1 else 0) + CountChar(s[1..], c)
  }

  lemma {:induction false} CountCharAppend(a: string, b: string, c: char)
    ensures CountChar(a + b, c) == CountChar(a, c) + CountChar(b, c)
    decreases |a|
  {
    if |a| == 0 {
      assert a + b == b;
    } else {
      assert (a + b)[1..] == a[1..] + b;
      CountCharAppend(a[1..], b, c);
    }
  }

  lemma {:induction false} CountCharAbsent(s: string, c: char)
    requires c !in s
    ensures CountChar(s, c) == 0
    decreases |s|
  {
    if |s| > 0 {
      CountCharAbsent(s[1..], c);
    }
  }

  /** `p.replace(/\n/g, '<br>')`. */
  function BreakLines(p: string): (r: string)
    ensures '\n' !in r
    ensures |r| == |p| + 3 * CountChar(p, '\n')
  {
    if |p| == 0 then ""
    else (if p[0] == '\n' then "<br>" else [p[0]]) + BreakLines(p[1..])
  }

  /** `BreakLines` works character by character, so it distributes over concatenation. */
  lemma {:induction false} BreakLinesAppend(a: string, b: string)
    ensures BreakLines(a + b) == BreakLines(a) + BreakLines(b)
    decreases |a|
  {
    if |a| == 0 {
      assert a + b == b;
    } else {
      assert (a + b)[1..] == a[1..] + b;
      BreakLinesAppend(a[1..], b);
    }
  }

  /** Every '\n' becomes "<br>" and every other character is kept: with `BreakLinesAppend`
      these two facts determine `BreakLines` on every input. */
  lemma BreakLinesNewline(a: string, b: string)
    ensures BreakLines(a + "\n" + b) == BreakLines(a) + "<br>" + BreakLines(b)
  {
    BreakLinesAppend(a + "\n", b);
    BreakLinesAppend(a, "\n");
  }

  lemma {:induction false} BreakLinesPlain(p: string)
    requires '\n' !in p
    ensures BreakLines(p) == p
    decreases |p|
  {
    if |p| > 0 {
      BreakLinesPlain(p[1..]);
      assert p == [p[0]] + p[1..];
    }
  }

  function Paragraph(p: string): string {
    "<p>" + BreakLines(p) + "</p>"
  }

  /** The paragraphs joined by single newlines. */
  function Render(ps: seq<string>): (html: string)
    requires |ps| >= 1
    ensures "<p>" <= html && |html| >= 7 && html[|html| - 4..] == "</p>"
  {
    if |ps| == 1 then Paragraph(ps[0]) else Paragraph(ps[0]) + "\n" + Render(ps[1..])
  }

  /** Every newline of `html` separates two paragraphs: "</p>" ends right before it and
      "<p>" starts right after it. */
  predicate NewlinesSeparate(html: string) {
    forall i :: 0 <= i < |html| && html[i] == '\n' ==>
      4 <= i && i + 4 <= |html| && html[i - 4..i] == "</p>" && html[i + 1..i + 4] == "<p>"
  }

  lemma SeparateJoin(first: string, rest: string)
    requires '\n' !in first && |first| >= 4 && first[|first| - 4..] == "</p>"
    requires "<p>" <= rest && NewlinesSeparate(rest)
    ensures NewlinesSeparate(first + "\n" + rest)
  {
    var html := first + "\n" + rest;
    assert forall i :: 0 <= i < |first| ==> html[i] == first[i];
    forall i | |first| <= i < |html| && html[i] == '\n'
      ensures 4 <= i && i + 4 <= |html| && html[i - 4..i] == "</p>" && html[i + 1..i + 4] == "<p>"
    {
      if i == |first| {
        assert html[i - 4..i] == first[|first| - 4..];
        assert html[i + 1..i + 4] == rest[..3];
      } else {
        var j := i - |first| - 1;
        assert rest[j] == html[i];
        assert html[i - 4..i] == rest[j - 4..j];
        assert html[i + 1..i + 4] == rest[j + 1..j + 4];
      }
    }
  }

  /** The rendered text has one newline per paragraph boundary, and each one separates
      two paragraphs. */
  lemma {:induction false} RenderSeparators(ps: seq<string>)
    requires |ps| >= 1
    ensures CountChar(Render(ps), '\n') == |ps| - 1
    ensures NewlinesSeparate(Render(ps))
  {
    var first := Paragraph(ps[0]);
    assert '\n' !in first;
    CountCharAbsent(first, '\n');
    if |ps| > 1 {
      var rest := Render(ps[1..]);
      RenderSeparators(ps[1..]);
      assert Render(ps) == first + "\n" + rest;
      CountCharAppend(first + "\n", rest, '\n');
      CountCharAppend(first, "\n", '\n');
      SeparateJoin(first, rest);
    }
  }

  /** The whole paragraph step. */
  function ParagraphPass(s: string): (html: string)
    ensures "<p>" <= html && |html| >= 7 && html[|html| - 4..] == "</p>"
    ensures CountChar(html, '\n') == CountSeparators(s)
    ensures NewlinesSeparate(html)
  {
    SplitCount(s);
    RenderSeparators(Split(s));
    Render(Split(s))
  }

  /** A text without '\n' is one paragraph, wrapped as it is. */
  lemma ParagraphPassPlain(s: string)
    requires '\n' !in s
    ensures ParagraphPass(s) == "<p>" + s + "</p>"
  {
    SplitCount(s);
    CountCharAbsent(s, '\n');
    SplitJoin(s);
    BreakLinesPlain(s);
  }
}
