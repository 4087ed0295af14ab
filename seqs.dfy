/** Applying a function to every element of a sequence, as Rust's `iter().map(..).collect()` does. */
module Seqs {

  function MapSeq<A, B>(s: seq<A>, f: A -> B): (r: seq<B>)
    ensures |r| == |s|
    ensures forall i {:trigger r[i]} :: 0 <= i < |s| ==> r[i] == f(s[i])
  {
    if s == [] then [] else [f(s[0])] + MapSeq(s[1..], f)
  }

  lemma MapSeqAppend<A, B>(a: seq<A>, b: seq<A>, f: A -> B)
    ensures MapSeq(a + b, f) == MapSeq(a, f) + MapSeq(b, f)
  {
  }

  /** A position at which an element of a sequence occurs. */
  lemma IndexOf<A>(s: seq<A>, x: A) returns (k: nat)
    requires x in multiset(s)
    ensures k < |s| && s[k] == x
  {
    assert x in s;
    k :| 0 <= k < |s| && s[k] == x;
  }

  /** Taking out the element at `j` takes it out of the multiset. */
  lemma MultisetRemove<A>(b: seq<A>, j: nat)
    requires j < |b|
    ensures multiset(b[..j] + b[j + 1..]) == multiset(b) - multiset{b[j]}
  {
    assert b == b[..j] + ([b[j]] + b[j + 1..]);
  }

  lemma MapSeqRemove<A, B>(b: seq<A>, j: nat, f: A -> B)
    requires j < |b|
    ensures multiset(MapSeq(b, f)) == multiset(MapSeq(b[..j] + b[j + 1..], f)) + multiset{f(b[j])}
  {
    MapSeqSplice(b, j, f);
    MapSeqAppend(b[..j], b[j + 1..], f);
    MultisetSplice(MapSeq(b[..j], f), f(b[j]), MapSeq(b[j + 1..], f));
  }

  lemma MapSeqSplice<A, B>(b: seq<A>, j: nat, f: A -> B)
    requires j < |b|
    ensures MapSeq(b, f) == MapSeq(b[..j], f) + [f(b[j])] + MapSeq(b[j + 1..], f)
  {
    var lhs := MapSeq(b, f);
    var left, right := MapSeq(b[..j], f), MapSeq(b[j + 1..], f);
    var rhs := left + [f(b[j])] + right;
    forall i | 0 <= i < |b| ensures lhs[i] == rhs[i] {
      if i < j {
        assert rhs[i] == left[i];
      } else if j < i {
        assert rhs[i] == right[i - j - 1];
      }
    }
  }

  lemma MultisetSplice<B>(left: seq<B>, x: B, right: seq<B>)
    ensures multiset(left + [x] + right) == multiset(left + right) + multiset{x}
  {
  }

  /** Removing the head of `a` and an equal element of `b` keeps two permutations permutations. */
  lemma RemoveMatched<A>(a: seq<A>, b: seq<A>, j: nat)
    requires multiset(a) == multiset(b)
    requires a != [] && j < |b| && b[j] == a[0]
    ensures multiset(a[1..]) == multiset(b[..j] + b[j + 1..])
  {
    assert a[..0] + a[1..] == a[1..];
    MultisetRemove(a, 0);
    MultisetRemove(b, j);
  }

  /** The step of `MapSeqPermutation`: matching the head of `a` with an equal element of `b`. */
  lemma MapSeqPermutationStep<A, B>(a: seq<A>, b: seq<A>, j: nat, f: A -> B)
    requires a != [] && j < |b| && b[j] == a[0]
    requires multiset(MapSeq(a[1..], f)) == multiset(MapSeq(b[..j] + b[j + 1..], f))
    ensures multiset(MapSeq(a, f)) == multiset(MapSeq(b, f))
  {
    assert a[..0] + a[1..] == a[1..];
    MapSeqRemove(a, 0, f);
    MapSeqRemove(b, j, f);
  }

  /** Mapping preserves "is a permutation of". */
  lemma {:induction false} MapSeqPermutation<A, B>(a: seq<A>, b: seq<A>, f: A -> B)
    requires multiset(a) == multiset(b)
    ensures multiset(MapSeq(a, f)) == multiset(MapSeq(b, f))
  {
    if a == [] {
      assert |b| == |multiset(b)| == 0;
    } else {
      assert a[0] in multiset(b);
      var j := IndexOf(b, a[0]);
      RemoveMatched(a, b, j);
      MapSeqPermutation(a[1..], b[..j] + b[j + 1..], f);
      MapSeqPermutationStep(a, b, j, f);
    }
  }
}
