/** Order-preserving subsequences, used to say that a filtered cart or a
    ticket keeps the cart's order. */
module Sequences {

  /** `a` can be obtained from `b` by deleting elements (greedy match from the front). */
  predicate IsSubseq<T(==)>(a: seq<T>, b: seq<T>)
    decreases |b|
  {
    |a| == 0 || (|b| > 0 && if a[0] == b[0] then IsSubseq(a[1..], b[1..]) else IsSubseq(a, b[1..]))
  }

  /** Appending one more element to the longer sequence keeps a subsequence. */
  lemma {:induction false} SubseqExtend<T>(a: seq<T>, b: seq<T>, y: T)
    requires IsSubseq(a, b)
    ensures IsSubseq(a, b + [y])
    decreases |b|
  {
    if |a| > 0 {
      assert (b + [y])[0] == b[0] && (b + [y])[1..] == b[1..] + [y];
      if a[0] == b[0] {
        SubseqExtend(a[1..], b[1..], y);
      } else {
        SubseqExtend(a, b[1..], y);
      }
    }
  }

  /** Appending the same element to both sequences keeps a subsequence. */
  lemma {:induction false} SubseqSnoc<T>(a: seq<T>, b: seq<T>, x: T)
    requires IsSubseq(a, b)
    ensures IsSubseq(a + [x], b + [x])
    decreases |b|
  {
    if |b| > 0 {
      assert (b + [x])[0] == b[0] && (b + [x])[1..] == b[1..] + [x];
      if |a| == 0 {
        if b[0] != x {
          SubseqSnoc(a, b[1..], x);
        } else {
          assert (a + [x])[1..] == [];
        }
      } else {
        assert (a + [x])[0] == a[0] && (a + [x])[1..] == a[1..] + [x];
        if a[0] == b[0] {
          SubseqSnoc(a[1..], b[1..], x);
        } else {
          SubseqSnoc(a, b[1..], x);
        }
      }
    } else {
      assert a == [];
      assert (a + [x])[1..] == [];
    }
  }
}
