/**
 * Stable sorting by a key, and the fact every use of it rests on: with distinct
 * keys the result does not depend on the input order. The order is a parameter
 * because the source sorts by UTF-16 code units in some places and by
 * localeCompare in others.
 */
module Sorting {
  ghost predicate TotalOrder<K(!new)>(leq: (K, K) -> bool) {
    && (forall a, b :: leq(a, b) || leq(b, a))
    && (forall a, b :: leq(a, b) && leq(b, a) ==> a == b)
    && (forall a, b, c :: leq(a, b) && leq(b, c) ==> leq(a, c))
  }

  function Insert<T, K>(x: T, s: seq<T>, key: T -> K, leq: (K, K) -> bool): (r: seq<T>)
    ensures multiset(r) == multiset{x} + multiset(s)
    ensures |r| == |s| + 1
  {
    if s == [] then [x]
    else if leq(key(x), key(s[0])) then [x] + s
    else
      assert s == [s[0]] + s[1..];
      [s[0]] + Insert(x, s[1..], key, leq)
  }

  function Sort<T, K>(s: seq<T>, key: T -> K, leq: (K, K) -> bool): (r: seq<T>)
    ensures multiset(r) == multiset(s)
    ensures |r| == |s|
  {
    if s == [] then []
    else
      assert s == [s[0]] + s[1..];
      Insert(s[0], Sort(s[1..], key, leq), key, leq)
  }

  ghost predicate Ordered<T, K>(s: seq<T>, key: T -> K, leq: (K, K) -> bool) {
    forall i, j :: 0 <= i < j < |s| ==> leq(key(s[i]), key(s[j]))
  }

  ghost predicate DistinctKeys<T, K>(s: seq<T>, key: T -> K) {
    forall i, j :: 0 <= i < j < |s| ==> key(s[i]) != key(s[j])
  }

  lemma SameMembers<T>(s: seq<T>, t: seq<T>)
    requires multiset(s) == multiset(t)
    ensures forall x :: x in s <==> x in t
  {
    forall x ensures x in s <==> x in t {
      assert x in s <==> x in multiset(s);
      assert x in t <==> x in multiset(t);
    }
  }

  lemma {:induction false} InsertMembers<T, K>(x: T, s: seq<T>, key: T -> K, leq: (K, K) -> bool)
    ensures forall y :: y in Insert(x, s, key, leq) ==> y == x || y in s
  {
    if s != [] {
      InsertMembers(x, s[1..], key, leq);
    }
  }

  lemma {:induction false} InsertKeepsOrder<T, K(!new)>(x: T, s: seq<T>, key: T -> K, leq: (K, K) -> bool)
    requires TotalOrder(leq) && Ordered(s, key, leq)
    ensures Ordered(Insert(x, s, key, leq), key, leq)
  {
    if s != [] && !leq(key(x), key(s[0])) {
      var rest := Insert(x, s[1..], key, leq);
      assert Ordered(s[1..], key, leq);
      InsertKeepsOrder(x, s[1..], key, leq);
      InsertMembers(x, s[1..], key, leq);
      forall j | 0 <= j < |rest| ensures leq(key(s[0]), key(rest[j])) {
        assert rest[j] in rest;
      }
    }
  }

  lemma {:induction false} SortIsOrdered<T, K(!new)>(s: seq<T>, key: T -> K, leq: (K, K) -> bool)
    requires TotalOrder(leq)
    ensures Ordered(Sort(s, key, leq), key, leq)
  {
    if s != [] {
      SortIsOrdered(s[1..], key, leq);
      InsertKeepsOrder(s[0], Sort(s[1..], key, leq), key, leq);
    }
  }

  /** The least element of an ordered arrangement is determined by its elements. */
  lemma SameLeast<T, K(!new)>(a: seq<T>, b: seq<T>, key: T -> K, leq: (K, K) -> bool)
    requires TotalOrder(leq) && Ordered(a, key, leq) && Ordered(b, key, leq) && a != [] && b != []
    requires multiset(a) == multiset(b) && DistinctKeys(b, key)
    ensures a[0] == b[0]
  {
    SameMembers(a, b);
    assert a[0] in a && b[0] in b;
    var i :| 0 <= i < |b| && b[i] == a[0];
    var j :| 0 <= j < |a| && a[j] == b[0];
    assert leq(key(b[0]), key(b[i]));
    assert leq(key(a[0]), key(a[j]));
    assert key(b[0]) == key(b[i]);
  }

  lemma TailMultiset<T>(a: seq<T>)
    requires a != []
    ensures multiset(a[1..]) == multiset(a) - multiset{a[0]}
  {
    assert a == [a[0]] + a[1..];
  }

  lemma OrderedTail<T, K>(a: seq<T>, key: T -> K, leq: (K, K) -> bool)
    requires a != [] && Ordered(a, key, leq)
    ensures Ordered(a[1..], key, leq)
  {
  }

  lemma DistinctTail<T, K>(a: seq<T>, key: T -> K)
    requires a != [] && DistinctKeys(a, key)
    ensures DistinctKeys(a[1..], key)
  {
  }

  /** Two ordered arrangements of the same elements with distinct keys are equal. */
  lemma {:induction false} OrderedIsUnique<T, K(!new)>(a: seq<T>, b: seq<T>, key: T -> K, leq: (K, K) -> bool)
    requires TotalOrder(leq) && Ordered(a, key, leq) && Ordered(b, key, leq)
    requires multiset(a) == multiset(b) && DistinctKeys(b, key)
    ensures a == b
    decreases |a|
  {
    assert |a| == |multiset(a)| == |multiset(b)| == |b|;
    if a != [] {
      SameLeast(a, b, key, leq);
      TailMultiset(a);
      TailMultiset(b);
      OrderedTail(a, key, leq);
      OrderedTail(b, key, leq);
      DistinctTail(b, key);
      OrderedIsUnique(a[1..], b[1..], key, leq);
      assert a == [a[0]] + a[1..] && b == [b[0]] + b[1..];
    }
  }

  lemma WithoutOne<T>(s: seq<T>, k: nat)
    requires k < |s|
    ensures multiset(s[..k] + s[k + 1..]) == multiset(s) - multiset{s[k]}
  {
    assert s == s[..k] + [s[k]] + s[k + 1..];
  }

  lemma DropOneKey<T, K(!new)>(s: seq<T>, k: nat, key: T -> K)
    requires k < |s| && DistinctKeys(s, key)
    ensures DistinctKeys(s[..k] + s[k + 1..], key)
    ensures forall y :: y in s[..k] + s[k + 1..] ==> key(y) != key(s[k])
  {
    var less := s[..k] + s[k + 1..];
    forall m | 0 <= m < |less| ensures key(less[m]) != key(s[k]) {
      assert less[m] == if m < k then s[m] else s[m + 1];
    }
  }

  lemma {:induction false} DistinctKeysOfPermutation<T, K(!new)>(s: seq<T>, t: seq<T>, key: T -> K)
    requires multiset(s) == multiset(t) && DistinctKeys(s, key)
    ensures DistinctKeys(t, key)
    decreases |t|
  {
    if t != [] {
      var x := t[0];
      SameMembers(s, t);
      assert x in t;
      var k :| 0 <= k < |s| && s[k] == x;
      var less := s[..k] + s[k + 1..];
      WithoutOne(s, k);
      TailMultiset(t);
      DropOneKey(s, k, key);
      DistinctKeysOfPermutation(less, t[1..], key);
      SameMembers(less, t[1..]);
      forall j | 0 < j < |t| ensures key(t[j]) != key(x) {
        assert t[j] == t[1..][j - 1] && t[j] in t[1..];
      }
    }
  }

  /** With distinct keys, sorting forgets the input order. */
  lemma SortForgetsOrder<T, K(!new)>(s: seq<T>, t: seq<T>, key: T -> K, leq: (K, K) -> bool)
    requires TotalOrder(leq) && multiset(s) == multiset(t) && DistinctKeys(s, key)
    ensures Sort(s, key, leq) == Sort(t, key, leq)
  {
    SortIsOrdered(s, key, leq);
    SortIsOrdered(t, key, leq);
    DistinctKeysOfPermutation(s, Sort(t, key, leq), key);
    OrderedIsUnique(Sort(s, key, leq), Sort(t, key, leq), key, leq);
  }

  function Keys<T, K>(s: seq<T>, key: T -> K): (r: seq<K>)
    ensures |r| == |s| && forall i :: 0 <= i < |s| ==> r[i] == key(s[i])
  {
    seq(|s|, i requires 0 <= i < |s| => key(s[i]))
  }

  function Identity<K>(): K -> K {
    k => k
  }

  /** Sorting elements by key sorts their keys. */
  lemma {:induction false} KeysOfSort<T, K(!new)>(s: seq<T>, key: T -> K, leq: (K, K) -> bool)
    ensures Keys(Sort(s, key, leq), key) == Sort(Keys(s, key), Identity<K>(), leq)
  {
    if s != [] {
      KeysOfSort(s[1..], key, leq);
      assert Keys(s, key)[1..] == Keys(s[1..], key);
      KeysOfInsert(s[0], Sort(s[1..], key, leq), key, leq);
    }
  }

  lemma KeysCons<T, K>(x: T, s: seq<T>, key: T -> K)
    ensures Keys([x] + s, key) == [key(x)] + Keys(s, key)
  {
  }

  lemma {:induction false} KeysOfInsert<T, K(!new)>(x: T, s: seq<T>, key: T -> K, leq: (K, K) -> bool)
    ensures Keys(Insert(x, s, key, leq), key) == Insert(key(x), Keys(s, key), Identity<K>(), leq)
  {
    if s == [] {
      assert Keys(s, key) == [];
      KeysCons(x, s, key);
      assert [x] + s == [x];
    } else {
      assert s == [s[0]] + s[1..];
      KeysCons(s[0], s[1..], key);
      assert Keys(s, key)[1..] == Keys(s[1..], key);
      if leq(key(x), key(s[0])) {
        KeysCons(x, s, key);
      } else {
        KeysOfInsert(x, s[1..], key, leq);
        KeysCons(s[0], Insert(x, s[1..], key, leq), key);
      }
    }
  }

  /** Lists with the same distinct keys have the same keys in the same places once sorted. */
  lemma SortedKeysAgree<T, K(!new)>(xs: seq<T>, ys: seq<T>, key: T -> K, leq: (K, K) -> bool)
    requires TotalOrder(leq) && DistinctKeys(xs, key) && multiset(Keys(xs, key)) == multiset(Keys(ys, key))
    ensures var sx, sy := Sort(xs, key, leq), Sort(ys, key, leq);
      |sx| == |sy| && forall i :: 0 <= i < |sx| ==> key(sx[i]) == key(sy[i])
  {
    var sx, sy := Sort(xs, key, leq), Sort(ys, key, leq);
    KeysOfSort(xs, key, leq);
    KeysOfSort(ys, key, leq);
    SortForgetsOrder(Keys(xs, key), Keys(ys, key), Identity<K>(), leq);
    var kx, ky := Keys(sx, key), Keys(sy, key);
    assert kx == ky && |kx| == |sx| && |ky| == |sy|;
    forall i | 0 <= i < |sx| ensures key(sx[i]) == key(sy[i]) {
      assert kx[i] == key(sx[i]) && ky[i] == key(sy[i]);
    }
  }
}
