/**
 * Generic facts about concatenation and slicing, stated once so that the
 * proofs about the rewrites can cite them instead of re-deriving them.
 */
module Seqs {

  /** Splitting off the first element of the left operand of a concatenation. */
  lemma Uncons<T>(x: seq<T>, y: seq<T>)
    requires |x| > 0
    ensures x + y == [x[0]] + (x[1..] + y)
  {
  }

  /** Regrouping a concatenation of four pieces to the right. */
  lemma Assoc4<T>(a: seq<T>, b: seq<T>, c: seq<T>, e: seq<T>)
    ensures a + b + c + e == a + (b + (c + e))
  {
  }

  /** The pieces of a right-grouped concatenation of four, recovered by slicing. */
  lemma Pieces4<T>(a: seq<T>, b: seq<T>, c: seq<T>, e: seq<T>)
    ensures (a + (b + (c + e)))[|a|..] == b + (c + e)
    ensures (a + (b + (c + e)))[|a|..|a| + |b|] == b
    ensures (a + (b + (c + e)))[|a| + |b| + |c|..] == e
  {
    var s := a + (b + (c + e));
    assert s[|a|..] == b + (c + e);
    assert s[|a|..|a| + |b|] == (b + (c + e))[..|b|] == b;
    assert s[|a| + |b| + |c|..] == (c + e)[|c|..] == e;
  }

  lemma PrefixOfAppend<T>(a: seq<T>, b: seq<T>)
    ensures a <= a + b
  {
  }

  lemma Assoc3<T>(a: seq<T>, b: seq<T>, c: seq<T>)
    ensures a + b + c == a + (b + c)
  {
  }

  /** A sequence cut around one position. */
  lemma CutAt<T>(s: seq<T>, n: nat)
    requires n < |s|
    ensures s == s[..n] + ([s[n]] + s[n + 1..])
  {
  }

  lemma AppendEmpty<T>(s: seq<T>)
    ensures s + [] == s && [] + s == s
  {
  }

  /** Slices of `x + y` that start inside `x`. */
  lemma SliceOfAppend<T>(x: seq<T>, y: seq<T>, i: nat, j: nat)
    requires i <= j <= |x|
    ensures (x + y)[i..j] == x[i..j] && (x + y)[i..] == x[i..] + y
  {
  }

  lemma Regroup<T>(a: seq<T>, b: seq<T>, c: seq<T>, e: seq<T>)
    ensures a + (b + (c + e)) == a + (b + c) + e
  {
  }

  lemma TakeAll<T>(s: seq<T>)
    ensures s[..|s|] == s
  {
  }

  lemma NotInPrefix<T>(x: T, p: seq<T>, s: seq<T>)
    requires p <= s && x !in s
    ensures x !in p
  {
    assert forall i :: 0 <= i < |p| ==> p[i] == s[i];
  }

  /** The elements of `s` that satisfy `p`, in order. */
  function Filter<T>(s: seq<T>, p: T -> bool): (r: seq<T>)
    ensures |r| <= |s|
  {
    if |s| == 0 then [] else (if p(s[0]) then [s[0]] else []) + Filter(s[1..], p)
  }

  lemma {:induction false} FilterAppend<T>(a: seq<T>, b: seq<T>, p: T -> bool)
    ensures Filter(a + b, p) == Filter(a, p) + Filter(b, p)
    decreases |a|
  {
    if |a| == 0 {
      AppendEmpty(b);
      AppendEmpty(Filter(b, p));
    } else {
      Uncons(a, b);
      FilterAppend(a[1..], b, p);
      Assoc3(if p(a[0]) then [a[0]] else [], Filter(a[1..], p), Filter(b, p));
    }
  }

  /** Filtering a sequence none of whose elements qualifies leaves nothing. */
  lemma {:induction false} FilterNone<T>(s: seq<T>, p: T -> bool)
    requires forall i :: 0 <= i < |s| ==> !p(s[i])
    ensures Filter(s, p) == []
    decreases |s|
  {
    if |s| > 0 {
      FilterNone(s[1..], p);
    }
  }

  /** Filtering a sequence all of whose elements qualify keeps it whole. */
  lemma {:induction false} FilterAll<T>(s: seq<T>, p: T -> bool)
    requires forall i :: 0 <= i < |s| ==> p(s[i])
    ensures Filter(s, p) == s
    decreases |s|
  {
    if |s| > 0 {
      FilterAll(s[1..], p);
      assert s == [s[0]] + s[1..];
    }
  }
}
