/** Order-preserving selection, the shape of the script's list
    comprehension and of its line-skipping loop. */
module Sequences {

  /** `a` is `b` with some elements left out, the rest in their order. */
  predicate IsSubsequence<T(==)>(a: seq<T>, b: seq<T>) {
    a == [] || (b != [] && ((a[0] == b[0] && IsSubsequence(a[1..], b[1..])) || IsSubsequence(a, b[1..])))
  }

  /** A subsequence of the tail is a subsequence of the whole. */
  lemma SubsequenceOfLonger<T>(a: seq<T>, b: seq<T>)
    requires b != [] && IsSubsequence(a, b[1..])
    ensures IsSubsequence(a, b)
  {
  }

  /** A subsequence stays one when the same element is appended to the
      sequence, and to the subsequence or not. */
  lemma {:induction false} AppendPreservesSubsequence<T>(a: seq<T>, b: seq<T>, x: T, keep: bool)
    requires IsSubsequence(a, b)
    ensures IsSubsequence(a + (if keep then [x] else []), b + [x])
    decreases |b|
  {
    var a' := a + (if keep then [x] else []);
    if a == [] {
      if keep {
        assert a' == [x];
        if b == [] {
          assert (b + [x])[1..] == [];
        } else {
          AppendPreservesSubsequence(a, b[1..], x, keep);
          assert (b + [x])[1..] == b[1..] + [x];
        }
      }
    } else if a[0] == b[0] && IsSubsequence(a[1..], b[1..]) {
      AppendPreservesSubsequence(a[1..], b[1..], x, keep);
      assert a'[1..] == a[1..] + (if keep then [x] else []);
      assert (b + [x])[1..] == b[1..] + [x];
    } else {
      AppendPreservesSubsequence(a, b[1..], x, keep);
      assert (b + [x])[1..] == b[1..] + [x];
    }
  }
}
