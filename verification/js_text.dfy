/**
 * The JavaScript string facts the rest of the model relies on: which characters
 * end a line for the regular-expression engine, how `String.prototype.length`
 * counts, and how a caught value becomes a message.
 */
module JsText {

  /** The line terminators of ECMAScript (LF, CR, LINE SEPARATOR, PARAGRAPH SEPARATOR).
      `.` never matches one, and under the `m` flag `^`/`$` match next to one. */
  predicate IsLineTerminator(c: char) {
    c == '\n' || c == '\r' || c == '\U{2028}' || c == '\U{2029}'
  }

  predicate NoLineTerminator(s: string) {
    forall i :: 0 <= i < |s| ==> !IsLineTerminator(s[i])
  }

  lemma NoLineTerminatorAppend(a: string, b: string)
    requires NoLineTerminator(a) && NoLineTerminator(b)
    ensures NoLineTerminator(a + b)
  {
    assert forall i :: 0 <= i < |a + b| ==> (a + b)[i] == if i < |a| then a[i] else b[i - |a|];
  }

  lemma NoLineTerminatorSlice(s: string, i: nat, j: nat)
    requires NoLineTerminator(s) && i <= j <= |s|
    ensures NoLineTerminator(s[i..j])
  {
    assert forall k :: 0 <= k < j - i ==> s[i..j][k] == s[i + k];
  }

  lemma NoNewline(s: string)
    requires NoLineTerminator(s)
    ensures '\n' !in s
  {
    assert IsLineTerminator('\n');
  }

  /** A text that is empty or begins a new line: what may follow the end of a line. */
  predicate StartsLine(s: string) {
    |s| == 0 || IsLineTerminator(s[0])
  }

  /** A text that is empty or ends with a line terminator: what may come before a line start. */
  predicate EndsLine(s: string) {
    |s| == 0 || IsLineTerminator(s[|s| - 1])
  }

  /** The length of the first line of `s`: the longest prefix without a line terminator. */
  function LineLength(s: string): (n: nat)
    ensures n <= |s|
    ensures NoLineTerminator(s[..n])
    ensures StartsLine(s[n..])
  {
    if |s| == 0 || IsLineTerminator(s[0]) then 0 else 1 + LineLength(s[1..])
  }

  /** A line followed by what comes after it splits at the line's length. */
  lemma {:induction false} LineLengthOfLine(line: string, tail: string)
    requires NoLineTerminator(line) && StartsLine(tail)
    ensures LineLength(line + tail) == |line|
    decreases |line|
  {
    if |line| == 0 {
      assert line + tail == tail;
    } else {
      assert (line + tail)[1..] == line[1..] + tail;
      LineLengthOfLine(line[1..], tail);
    }
  }

  /** How many UTF-16 code units encode `c`: JavaScript strings are sequences of code units. */
  function Utf16Units(c: char): nat {
    if c as int < 0x1_0000 then 1 else 2
  }

  /** `s.length` in JavaScript: the number of UTF-16 code units of `s`. */
  function Utf16Length(s: string): (n: nat)
    ensures |s| <= n <= 2 * |s|
  {
    if |s| == 0 then 0 else Utf16Units(s[0]) + Utf16Length(s[1..])
  }

  lemma {:induction false} Utf16LengthAppend(a: string, b: string)
    ensures Utf16Length(a + b) == Utf16Length(a) + Utf16Length(b)
    decreases |a|
  {
    if |a| == 0 {
      assert a + b == b;
    } else {
      assert (a + b)[1..] == a[1..] + b;
      Utf16LengthAppend(a[1..], b);
    }
  }

  /** A text in the Basic Multilingual Plane has as many code units as characters. */
  lemma {:induction false} Utf16LengthBmp(s: string)
    requires forall i :: 0 <= i < |s| ==> s[i] as int < 0x1_0000
    ensures Utf16Length(s) == |s|
    decreases |s|
  {
    if |s| > 0 {
      Utf16LengthBmp(s[1..]);
    }
  }

  /** A value caught by a `catch` clause: an `Error` instance with its message, or anything else. */
  datatype Thrown = ErrorInstance(message: string) | NonError

  /** `error instanceof Error ? error.message : 'Unknown error'`. */
  function MessageOf(t: Thrown): string {
    match t
    case ErrorInstance(m) => m
    case NonError => "Unknown error"
  }

  /** The message of `new Error(prefix + MessageOf(t))`, the wrapping both core files use. */
  function Wrap(prefix: string, t: Thrown): (msg: string)
    ensures prefix <= msg
    ensures msg[|prefix|..] == MessageOf(t)
    ensures t.NonError? ==> msg == prefix + "Unknown error"
  {
    prefix + MessageOf(t)
  }
}
