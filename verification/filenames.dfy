/**
 * The title-to-filename step of `generateEpub`: every UTF-16 code unit of the
 * title that is not an ASCII letter or digit becomes '_', the result is
 * lower-cased, and ".epub" is appended.
 */
module Filenames {
  import opened JsText
  import opened Seqs

  predicate IsAsciiLetter(c: char) {
    'a' <= c <= 'z' || 'A' <= c <= 'Z'
  }

  predicate IsAsciiDigit(c: char) {
    '0' <= c <= '9'
  }

  /** What `[a-z0-9]` matches under the `i` flag without the `u` flag: that mode compares
      characters by upper-casing them, but never maps a character at or above 128 onto one
      below 128 (so U+017F and U+212A match nothing here), hence exactly the ASCII letters
      and digits. */
  predicate IsAsciiAlnum(c: char) {
    IsAsciiLetter(c) || IsAsciiDigit(c)
  }

  /** The characters a sanitised title is made of. */
  predicate IsSafe(c: char) {
    'a' <= c <= 'z' || IsAsciiDigit(c) || c == '_'
  }

  predicate AllSafe(s: string) {
    forall i :: 0 <= i < |s| ==> IsSafe(s[i])
  }

  /** `n` underscores. */
  function Underscores(n: nat): (r: string)
    ensures |r| == n && AllSafe(r)
    ensures forall i :: 0 <= i < n ==> r[i] == '_'
  {
    if n == 0 then "" else "_" + Underscores(n - 1)
  }

  /** What the replacement makes of one character: itself when it is an ASCII letter or
      digit, otherwise one '_' per UTF-16 code unit (a character outside the Basic
      Multilingual Plane is a surrogate pair, and each half is replaced). */
  function ReplaceChar(c: char): (r: string)
    ensures |r| == Utf16Units(c)
  {
    if IsAsciiAlnum(c) then [c] else Underscores(Utf16Units(c))
  }

  /** `title.replace(/[^a-z0-9]/gi, '_')`. */
  function ReplaceNonAlnum(s: string): (r: string)
    ensures |r| == Utf16Length(s)
    ensures forall i :: 0 <= i < |r| ==> IsAsciiAlnum(r[i]) || r[i] == '_'
  {
    if |s| == 0 then "" else ReplaceChar(s[0]) + ReplaceNonAlnum(s[1..])
  }

  /** Lower-casing of an ASCII letter; every other character is kept. */
  function AsciiLower(c: char): (r: char)
    ensures IsAsciiAlnum(c) ==> 'a' <= r <= 'z' || IsAsciiDigit(r)
    ensures !IsAsciiLetter(c) ==> r == c
  {
    if 'A' <= c <= 'Z' then (c as int + 32) as char else c
  }

  /** `toLowerCase()` applied to text made of ASCII letters, digits and '_', the only text it
      receives here; on that text the full Unicode mapping is the ASCII one. */
  function LowerCase(s: string): (r: string)
    ensures |r| == |s|
    ensures forall i :: 0 <= i < |s| ==> r[i] == AsciiLower(s[i])
  {
    if |s| == 0 then "" else [AsciiLower(s[0])] + LowerCase(s[1..])
  }

  /** The sanitised title: as many characters as the title has UTF-16 code units, all of
      them lower-case ASCII letters, digits or '_'. */
  function SanitizedTitle(title: string): (r: string)
    ensures |r| == Utf16Length(title)
    ensures AllSafe(r)
  {
    LowerCase(ReplaceNonAlnum(title))
  }

  /** `${sanitizedTitle}.epub`. */
  function EpubFileName(title: string): (name: string)
    ensures |name| == Utf16Length(title) + 5
    ensures name[..|name| - 5] == SanitizedTitle(title) && name[|name| - 5..] == ".epub"
  {
    SanitizedTitle(title) + ".epub"
  }

  // ---------------------------------------------------------------------------
  // The sanitiser is a per-character map
  // ---------------------------------------------------------------------------

  /** The reference reading: what one character of the title turns into. */
  function SanitizeChar(c: char): string {
    if IsAsciiAlnum(c) then [AsciiLower(c)] else Underscores(Utf16Units(c))
  }

  lemma {:induction false} LowerCaseAppend(a: string, b: string)
    ensures LowerCase(a + b) == LowerCase(a) + LowerCase(b)
  {
    var l := LowerCase(a + b);
    var r := LowerCase(a) + LowerCase(b);
    assert |l| == |r|;
    forall i | 0 <= i < |l| ensures l[i] == r[i] {
      if i < |a| {
        assert (a + b)[i] == a[i];
      } else {
        assert (a + b)[i] == b[i - |a|];
      }
    }
  }

  lemma LowerUnderscores(n: nat)
    ensures LowerCase(Underscores(n)) == Underscores(n)
  {
    var u := Underscores(n);
    assert forall i :: 0 <= i < n ==> AsciiLower(u[i]) == u[i];
  }

  lemma SanitizeOneChar(c: char)
    ensures LowerCase(ReplaceChar(c)) == SanitizeChar(c)
  {
    if !IsAsciiAlnum(c) {
      LowerUnderscores(Utf16Units(c));
    }
  }

  /** Sanitising works character by character: the title is cut anywhere and the halves are
      sanitised on their own. */
  lemma {:induction false} SanitizedAppend(a: string, b: string)
    ensures SanitizedTitle(a + b) == SanitizedTitle(a) + SanitizedTitle(b)
    decreases |a|
  {
    if |a| == 0 {
      AppendEmpty(b);
      AppendEmpty(SanitizedTitle(b));
    } else {
      Uncons(a, b);
      assert ReplaceNonAlnum(a + b) == ReplaceChar(a[0]) + ReplaceNonAlnum(a[1..] + b);
      ReplaceAppend(a[1..], b);
      LowerCaseAppend(ReplaceChar(a[0]), ReplaceNonAlnum(a[1..]) + ReplaceNonAlnum(b));
      LowerCaseAppend(ReplaceNonAlnum(a[1..]), ReplaceNonAlnum(b));
      LowerCaseAppend(ReplaceChar(a[0]), ReplaceNonAlnum(a[1..]));
      Assoc3(LowerCase(ReplaceChar(a[0])), LowerCase(ReplaceNonAlnum(a[1..])), LowerCase(ReplaceNonAlnum(b)));
    }
  }

  lemma {:induction false} ReplaceAppend(a: string, b: string)
    ensures ReplaceNonAlnum(a + b) == ReplaceNonAlnum(a) + ReplaceNonAlnum(b)
    decreases |a|
  {
    if |a| == 0 {
      AppendEmpty(b);
      AppendEmpty(ReplaceNonAlnum(b));
    } else {
      Uncons(a, b);
      ReplaceAppend(a[1..], b);
      Assoc3(ReplaceChar(a[0]), ReplaceNonAlnum(a[1..]), ReplaceNonAlnum(b));
    }
  }

  /** One character of the title becomes `SanitizeChar` of it. */
  lemma SanitizedChar(c: char)
    ensures SanitizedTitle([c]) == SanitizeChar(c)
  {
    assert ReplaceNonAlnum([c]) == ReplaceChar(c) + ReplaceNonAlnum([]);
    AppendEmpty(ReplaceChar(c));
    SanitizeOneChar(c);
  }

  /** For a title in the Basic Multilingual Plane the sanitised title lines up with it
      character for character: an ASCII letter or digit is lower-cased, anything else is '_'. */
  lemma {:induction false} SanitizedBmp(title: string)
    requires forall i :: 0 <= i < |title| ==> title[i] as int < 0x1_0000
    ensures |SanitizedTitle(title)| == |title|
    ensures forall i :: 0 <= i < |title| ==>
      SanitizedTitle(title)[i] == if IsAsciiAlnum(title[i]) then AsciiLower(title[i]) else '_'
    decreases |title|
  {
    Utf16LengthBmp(title);
    if |title| > 0 {
      var c, rest := title[0], title[1..];
      Uncons(title, []);
      AppendEmpty(rest);
      SanitizedAppend([c], rest);
      SanitizedChar(c);
      SanitizedBmp(rest);
      var r := SanitizedTitle(title);
      assert r == SanitizeChar(c) + SanitizedTitle(rest);
      forall i | 0 <= i < |title|
        ensures r[i] == if IsAsciiAlnum(title[i]) then AsciiLower(title[i]) else '_'
      {
        if i > 0 {
          assert r[i] == SanitizedTitle(rest)[i - 1] && title[i] == rest[i - 1];
        }
      }
    }
  }

  /** A sanitised title is sanitised again to itself. */
  lemma {:induction false} SanitizedIdempotent(title: string)
    ensures SanitizedTitle(SanitizedTitle(title)) == SanitizedTitle(title)
  {
    var s := SanitizedTitle(title);
    assert forall i :: 0 <= i < |s| ==> s[i] as int < 0x1_0000 by {
      assert forall i :: 0 <= i < |s| ==> IsSafe(s[i]);
    }
    SanitizedBmp(s);
    Utf16LengthBmp(s);
    var t := SanitizedTitle(s);
    forall i | 0 <= i < |s| ensures t[i] == s[i] {
      assert IsSafe(s[i]);
    }
  }

  /** A title spelled "Test Post", one character at a time. */
  predicate SpellsTestPost(t: string) {
    && |t| == 9 && t[0] == 'T' && t[1] == 'e' && t[2] == 's' && t[3] == 't' && t[4] == ' '
    && t[5] == 'P' && t[6] == 'o' && t[7] == 's' && t[8] == 't'
  }

  /** The example of the project's own usage: "Test Post" is saved as "test_post.epub". */
  lemma TestPostFileName()
    ensures EpubFileName("Test Post") == "test_post.epub"
  {
    var title := "Test Post";
    assert SpellsTestPost(title);
    SpelledTestPostFileName(title);
  }

  /** `TestPostFileName` for any string spelling "Test Post": reading the title through the
      predicate's indices keeps the solver from unfolding the literal's sanitisation. */
  lemma SpelledTestPostFileName(title: string)
    requires SpellsTestPost(title)
    ensures EpubFileName(title) == "test_post.epub"
  {
    var expected := "test_post";
    SanitizedBmp(title);
    var s := SanitizedTitle(title);
    assert AsciiLower('T') == 't' && AsciiLower('P') == 'p';
    assert s[0] == expected[0] && s[1] == expected[1] && s[2] == expected[2];
    assert s[3] == expected[3] && s[4] == expected[4] && s[5] == expected[5];
    assert s[6] == expected[6] && s[7] == expected[7] && s[8] == expected[8];
    assert s == expected;
  }
}
