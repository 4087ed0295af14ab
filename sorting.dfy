/**
 * Rust's stable `slice::sort` and `slice::sort_by`, for the orders the
 * normaliser uses: a string list by itself and a sensor list by id. Both are
 * "sort by a string key"; sorting strings uses the identity as key.
 */
module Sorting {
  import opened Text

  /** Strings are sorted by themselves. */
  function Ident(t: string): string {
    t
  }

  /** No two distinct elements share a key. */
  ghost predicate KeyInjective<T>(s: seq<T>, key: T -> string) {
    forall i, j :: 0 <= i < |s| && 0 <= j < |s| && key(s[i]) == key(s[j]) ==> s[i] == s[j]
  }

  /** Keys never decrease from left to right. */
  predicate Sorted<T>(s: seq<T>, key: T -> string) {
    forall i, j :: 0 <= i < j < |s| ==> StrLe(key(s[i]), key(s[j]))
  }

  /** Places `x` just before the first element whose key is not below `x`'s. */
  function Insert<T(==)>(x: T, s: seq<T>, key: T -> string): (r: seq<T>)
    ensures |r| == |s| + 1
    ensures multiset(r) == multiset(s) + multiset{x}
  {
    if s == [] then
      [x]
    else if StrLe(key(x), key(s[0])) then
      [x] + s
    else
      assert s == [s[0]] + s[1..];
      [s[0]] + Insert(x, s[1..], key)
  }

  /** A stable sort by key: the result is a sorted permutation of the input. */
  function SortBy<T(==)>(s: seq<T>, key: T -> string): (r: seq<T>)
    ensures |r| == |s|
    ensures multiset(r) == multiset(s)
    ensures Sorted(r, key)
  {
    if s == [] then
      []
    else
      var t := SortBy(s[1..], key);
      SortByStep(s, t, key);
      Insert(s[0], t, key)
  }

  /** Inserting the head into the sorted rest gives a sorted permutation of the whole list. */
  lemma SortByStep<T>(s: seq<T>, t: seq<T>, key: T -> string)
    requires s != [] && multiset(t) == multiset(s[1..]) && Sorted(t, key)
    ensures var r := Insert(s[0], t, key);
            |r| == |s| && multiset(r) == multiset(s) && Sorted(r, key)
  {
    InsertSorted(s[0], t, key);
    assert s == [s[0]] + s[1..];
    assert |t| == |multiset(t)| == |s[1..]|;
  }

  lemma {:induction false} InsertSorted<T>(x: T, s: seq<T>, key: T -> string)
    requires Sorted(s, key)
    ensures Sorted(Insert(x, s, key), key)
  {
    if s == [] {
    } else if StrLe(key(x), key(s[0])) {
      forall j | 0 < j < |s| ensures StrLe(key(x), key(s[j])) {
        StrLeTransitive(key(x), key(s[0]), key(s[j]));
      }
    } else {
      StrLeTotal(key(x), key(s[0]));
      InsertSorted(x, s[1..], key);
      var u := Insert(x, s[1..], key);
      forall k | 0 <= k < |u| ensures StrLe(key(s[0]), key(u[k])) {
        assert u[k] in multiset(u);
        if u[k] != x {
          assert u[k] in multiset(s[1..]);
          var j :| 0 <= j < |s[1..]| && s[1..][j] == u[k];
          assert s[j + 1] == u[k];
        }
      }
    }
  }

  /** A list that is already sorted is left as it is. */
  lemma {:induction false} SortBySortedIsIdentity<T>(s: seq<T>, key: T -> string)
    requires Sorted(s, key)
    ensures SortBy(s, key) == s
  {
    if s != [] {
      SortBySortedIsIdentity(s[1..], key);
      assert s == [s[0]] + s[1..];
    }
  }

  /** The elements of `s` whose key is `k`, in their order in `s`. */
  function WithKey<T>(s: seq<T>, key: T -> string, k: string): seq<T> {
    if s == [] then [] else (if key(s[0]) == k then [s[0]] else []) + WithKey(s[1..], key, k)
  }

  lemma WithKeyCons<T>(y: T, t: seq<T>, key: T -> string, k: string)
    ensures WithKey([y] + t, key, k) == (if key(y) == k then [y] else []) + WithKey(t, key, k)
  {
    assert ([y] + t)[0] == y && ([y] + t)[1..] == t;
  }

  /** Past an element whose key is below `x`'s, insertion keeps that element in front. */
  lemma InsertPast<T>(x: T, s: seq<T>, key: T -> string)
    requires s != [] && !StrLe(key(x), key(s[0]))
    ensures Insert(x, s, key) == [s[0]] + Insert(x, s[1..], key)
  {
  }

  /** Two lists, at most one of them non-empty, can be swapped in front of a third. */
  lemma SwapOneEmpty<T>(p: seq<T>, q: seq<T>, rest: seq<T>)
    requires p == [] || q == []
    ensures p + (q + rest) == q + (p + rest)
  {
    if p == [] {
      assert p + (q + rest) == q + rest == q + (p + rest);
    } else {
      assert p + (q + rest) == p + rest == q + (p + rest);
    }
  }

  /** The step of `InsertWithKey` past an element whose key is below `x`'s. */
  lemma InsertWithKeyStep<T>(x: T, s: seq<T>, key: T -> string, k: string)
    requires s != [] && !StrLe(key(x), key(s[0]))
    requires WithKey(Insert(x, s[1..], key), key, k)
             == (if key(x) == k then [x] else []) + WithKey(s[1..], key, k)
    ensures WithKey(Insert(x, s, key), key, k)
            == (if key(x) == k then [x] else []) + WithKey(s, key, k)
  {
    var u := Insert(x, s[1..], key);
    var xs: seq<T> := if key(x) == k then [x] else [];
    var s0: seq<T> := if key(s[0]) == k then [s[0]] else [];
    var rest := WithKey(s[1..], key, k);
    InsertPast(x, s, key);
    WithKeyCons(s[0], u, key, k);
    assert key(x) != key(s[0]) by {
      StrLeReflexive(key(x));
    }
    SwapOneEmpty(s0, xs, rest);
  }

  lemma {:induction false} InsertWithKey<T>(x: T, s: seq<T>, key: T -> string, k: string)
    ensures WithKey(Insert(x, s, key), key, k)
            == (if key(x) == k then [x] else []) + WithKey(s, key, k)
  {
    if s == [] {
      assert Insert(x, s, key) == [x] + [];
      WithKeyCons(x, [], key, k);
    } else if StrLe(key(x), key(s[0])) {
      assert Insert(x, s, key) == [x] + s;
      WithKeyCons(x, s, key, k);
    } else {
      InsertWithKey(x, s[1..], key, k);
      InsertWithKeyStep(x, s, key, k);
    }
  }

  /**
   * Stability: for every key, the elements with that key keep their
   * relative order.
   */
  lemma {:induction false} SortByStable<T>(s: seq<T>, key: T -> string, k: string)
    ensures WithKey(SortBy(s, key), key, k) == WithKey(s, key, k)
  {
    if s != [] {
      SortByStable(s[1..], key, k);
      InsertWithKey(s[0], SortBy(s[1..], key), key, k);
    }
  }

  /**
   * Two sorted lists with the same elements are equal when no two distinct
   * elements share a key.
   */
  lemma {:induction false} SortedUnique<T>(a: seq<T>, b: seq<T>, key: T -> string)
    requires Sorted(a, key) && Sorted(b, key)
    requires multiset(a) == multiset(b)
    requires KeyInjective(a, key)
    ensures a == b
  {
    if a == [] {
      assert |b| == |multiset(b)| == 0;
    } else {
      SortedSameHead(a, b, key);
      var a', b' := a[1..], b[1..];
      assert a == [a[0]] + a' && b == [b[0]] + b';
      assert multiset(a') == multiset(a) - multiset{a[0]};
      assert multiset(b') == multiset(b) - multiset{b[0]};
      SortedTail(a, key);
      SortedTail(b, key);
      KeyInjectiveTail(a, key);
      SortedUnique(a', b', key);
    }
  }

  /** The first elements of two such lists are the same. */
  lemma SortedSameHead<T>(a: seq<T>, b: seq<T>, key: T -> string)
    requires Sorted(a, key) && Sorted(b, key) && a != []
    requires multiset(a) == multiset(b)
    requires KeyInjective(a, key)
    ensures b != [] && a[0] == b[0]
  {
    assert |b| == |multiset(b)| == |multiset(a)| == |a|;
    assert a[0] in multiset(b) && b[0] in multiset(a);
    var i :| 0 <= i < |a| && a[i] == b[0];
    var j :| 0 <= j < |b| && b[j] == a[0];
    StrLeReflexive(key(a[0]));
    StrLeReflexive(key(b[0]));
    assert StrLe(key(a[0]), key(b[0])) by {
      if i > 0 { assert StrLe(key(a[0]), key(a[i])); }
    }
    assert StrLe(key(b[0]), key(a[0])) by {
      if j > 0 { assert StrLe(key(b[0]), key(b[j])); }
    }
    StrLeAntisymmetric(key(a[0]), key(b[0]));
  }

  lemma KeyInjectiveTail<T>(s: seq<T>, key: T -> string)
    requires KeyInjective(s, key) && s != []
    ensures KeyInjective(s[1..], key)
  {
    forall i, j | 0 <= i < |s| - 1 && 0 <= j < |s| - 1 && key(s[1..][i]) == key(s[1..][j])
      ensures s[1..][i] == s[1..][j]
    {
      assert s[1..][i] == s[i + 1] && s[1..][j] == s[j + 1];
    }
  }

  lemma SortedTail<T>(s: seq<T>, key: T -> string)
    requires Sorted(s, key) && s != []
    ensures Sorted(s[1..], key)
  {
    forall i, j | 0 <= i < j < |s| - 1 ensures StrLe(key(s[1..][i]), key(s[1..][j])) {
      assert s[1..][i] == s[i + 1] && s[1..][j] == s[j + 1];
    }
  }

  /**
   * Sorting does not depend on the input order when no two distinct
   * elements share a key.
   */
  lemma SortByOrderIndependent<T>(a: seq<T>, b: seq<T>, key: T -> string)
    requires multiset(a) == multiset(b)
    requires KeyInjective(a, key)
    ensures SortBy(a, key) == SortBy(b, key)
  {
    var sa, sb := SortBy(a, key), SortBy(b, key);
    forall i, j | 0 <= i < |sa| && 0 <= j < |sa| && key(sa[i]) == key(sa[j]) ensures sa[i] == sa[j] {
      assert sa[i] in multiset(a) && sa[j] in multiset(a);
      var p :| 0 <= p < |a| && a[p] == sa[i];
      var q :| 0 <= q < |a| && a[q] == sa[j];
    }
    SortedUnique(sa, sb, key);
  }
}
