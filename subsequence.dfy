/** Subsequences: a sequence with some elements deleted, order kept. */
module Subsequence {
  /** `a` is a subsequence of `b`: `b` with some characters deleted. */
  predicate Subseq<T(==)>(a: seq<T>, b: seq<T>)
    decreases |b|
  {
    a == [] || (|b| > 0 && ((a[0] == b[0] && Subseq(a[1..], b[1..])) || Subseq(a, b[1..])))
  }

  lemma {:induction false} SubseqRefl<T>(a: seq<T>)
    ensures Subseq(a, a)
    decreases |a|
  {
    if a != [] { SubseqRefl(a[1..]); }
  }

  lemma {:induction false} SubseqTrans<T>(a: seq<T>, b: seq<T>, c: seq<T>)
    requires Subseq(a, b) && Subseq(b, c)
    ensures Subseq(a, c)
    decreases |c|
  {
    if a != [] {
      if Subseq(b, c[1..]) {
        SubseqTrans(a, b, c[1..]);
      } else if a[0] == b[0] && Subseq(a[1..], b[1..]) {
        SubseqTrans(a[1..], b[1..], c[1..]);
      } else {
        SubseqTrans(a, b[1..], c[1..]);
      }
    }
  }

  /** Deleting characters never lengthens a string. */
  lemma {:induction false} SubseqLength<T>(a: seq<T>, b: seq<T>)
    requires Subseq(a, b)
    ensures |a| <= |b|
    decreases |b|
  {
    if a != [] {
      if a[0] == b[0] && Subseq(a[1..], b[1..]) { SubseqLength(a[1..], b[1..]); }
      else { SubseqLength(a, b[1..]); }
    }
  }

  /** Every element of a subsequence is an element of the sequence. */
  lemma {:induction false} SubseqIn<T>(a: seq<T>, b: seq<T>, x: T)
    requires Subseq(a, b) && x in a
    ensures x in b
    decreases |b|
  {
    if a[0] == b[0] && Subseq(a[1..], b[1..]) {
      if x != a[0] { SubseqIn(a[1..], b[1..], x); }
    } else {
      SubseqIn(a, b[1..], x);
    }
  }

  /** Any prefix can be dropped from a subsequence's host. */
  lemma {:induction false} SubseqPrepend<T>(a: seq<T>, x: seq<T>, b: seq<T>)
    requires Subseq(a, b)
    ensures Subseq(a, x + b)
    decreases |x|
  {
    if x != [] {
      SubseqPrepend(a, x[1..], b);
      assert (x + b)[1..] == x[1..] + b;
      assert Subseq(a, (x + b)[1..]);
    } else {
      assert x + b == b;
    }
  }

  /** Subsequences of the two halves make a subsequence of the whole. */
  lemma {:induction false} SubseqConcat<T>(a1: seq<T>, b1: seq<T>, a2: seq<T>, b2: seq<T>)
    requires Subseq(a1, b1) && Subseq(a2, b2)
    ensures Subseq(a1 + a2, b1 + b2)
    decreases |b1|
  {
    if a1 == [] {
      SubseqPrepend(a2, b1, b2);
      assert a1 + a2 == a2;
    } else {
      assert (b1 + b2)[1..] == b1[1..] + b2;
      if a1[0] == b1[0] && Subseq(a1[1..], b1[1..]) {
        SubseqConcat(a1[1..], b1[1..], a2, b2);
        assert (a1 + a2)[1..] == a1[1..] + a2;
      } else {
        SubseqConcat(a1, b1[1..], a2, b2);
      }
    }
  }

  /** Keeping a prefix and deleting the block after it preserves a subsequence of the tail. */
  lemma SubseqSplice<T>(x: seq<T>, y: seq<T>, a: seq<T>, b: seq<T>)
    requires Subseq(a, b)
    ensures Subseq(x + a, x + y + b)
  {
    SubseqPrepend(a, y, b);
    SubseqRefl(x);
    SubseqConcat(x, x, a, y + b);
    assert x + (y + b) == x + y + b;
  }
}
