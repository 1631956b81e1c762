/**
 * Ordering helpers for the panel's two sorts: ordinal string order, the sort
 * keys both comparators are expressed by, and a stable insertion sort (the
 * guarantee `Array.prototype.sort` gives) proved sorted, a permutation and
 * stable.
 */
module Sorting {

  /** Ordinal string order: `a` sorts no later than `b`, comparing characters left to right. */
  predicate StrLe(a: string, b: string)
    decreases |a|
  {
    a == [] || (b != [] && (a[0] < b[0] || (a[0] == b[0] && StrLe(a[1..], b[1..]))))
  }

  lemma StrLeReflexive(a: string)
    ensures StrLe(a, a)
  {
  }

  lemma StrLeTotal(a: string, b: string)
    ensures StrLe(a, b) || StrLe(b, a)
  {
  }

  lemma {:induction false} StrLeAntisymmetric(a: string, b: string)
    requires StrLe(a, b) && StrLe(b, a)
    ensures a == b
    decreases |a|
  {
    if a != [] {
      StrLeAntisymmetric(a[1..], b[1..]);
      assert a == [a[0]] + a[1..] && b == [b[0]] + b[1..];
    }
  }

  lemma {:induction false} StrLeTransitive(a: string, b: string, c: string)
    requires StrLe(a, b) && StrLe(b, c)
    ensures StrLe(a, c)
    decreases |a|
  {
    if a != [] && a[0] == b[0] && b[0] == c[0] {
      StrLeTransitive(a[1..], b[1..], c[1..]);
    }
  }

  /** `a.localeCompare(b)` on the strings compared here, as ordinal order: -1, 0 or 1. */
  function StrCompare(a: string, b: string): (r: int)
    ensures r == 0 <==> a == b
    ensures r < 0 <==> a != b && StrLe(a, b)
    ensures r > 0 <==> a != b && StrLe(b, a)
  {
    StrLeTotal(a, b);
    if a == b then 0
    else if StrLe(a, b) then
      assert !StrLe(b, a) by {
        if StrLe(b, a) {
          StrLeAntisymmetric(a, b);
        }
      }
      -1
    else 1
  }

  /** A sort key: a rank first, then a number, then a text. */
  datatype Key = Key(rank: nat, num: int, text: string)

  predicate KeyLe(x: Key, y: Key) {
    x.rank < y.rank || (x.rank == y.rank && (x.num < y.num || (x.num == y.num && StrLe(x.text, y.text))))
  }

  predicate KeyLt(x: Key, y: Key) {
    KeyLe(x, y) && x != y
  }

  lemma KeyLeReflexive(x: Key)
    ensures KeyLe(x, x)
  {
    StrLeReflexive(x.text);
  }

  lemma KeyLeTotal(x: Key, y: Key)
    ensures KeyLe(x, y) || KeyLe(y, x)
  {
    StrLeTotal(x.text, y.text);
  }

  lemma KeyLeAntisymmetric(x: Key, y: Key)
    requires KeyLe(x, y) && KeyLe(y, x)
    ensures x == y
  {
    if x.rank == y.rank && x.num == y.num {
      StrLeAntisymmetric(x.text, y.text);
    }
  }

  lemma KeyLeTransitive(x: Key, y: Key, z: Key)
    requires KeyLe(x, y) && KeyLe(y, z)
    ensures KeyLe(x, z)
  {
    if x.rank == y.rank == z.rank && x.num == y.num == z.num {
      StrLeTransitive(x.text, y.text, z.text);
    }
  }

  /** `xs` is in non-decreasing key order. */
  ghost predicate SortedBy<T>(xs: seq<T>, key: T -> Key) {
    forall i, j :: 0 <= i < j < |xs| ==> KeyLe(key(xs[i]), key(xs[j]))
  }

  /** Inserts `x` before the first element whose key is not below its own. */
  function Insert<T>(x: T, ys: seq<T>, key: T -> Key): (r: seq<T>)
    ensures multiset(r) == multiset(ys) + multiset{x}
  {
    if ys == [] || KeyLe(key(x), key(ys[0])) then [x] + ys
    else
      assert ys == [ys[0]] + ys[1..];
      [ys[0]] + Insert(x, ys[1..], key)
  }

  /** Stable insertion sort by key. */
  function SortBy<T>(xs: seq<T>, key: T -> Key): (r: seq<T>)
    ensures multiset(r) == multiset(xs)
  {
    if xs == [] then []
    else
      assert xs == [xs[0]] + xs[1..];
      Insert(xs[0], SortBy(xs[1..], key), key)
  }

  /** A sorted sequence stays sorted under a new first element no greater than any of it. */
  lemma SortedCons<T>(y: T, tail: seq<T>, key: T -> Key)
    requires SortedBy(tail, key)
    requires forall j :: 0 <= j < |tail| ==> KeyLe(key(y), key(tail[j]))
    ensures SortedBy([y] + tail, key)
  {
    var r := [y] + tail;
    forall i, j | 0 <= i < j < |r| ensures KeyLe(key(r[i]), key(r[j])) {
      assert r[j] == tail[j - 1];
      if i > 0 {
        assert r[i] == tail[i - 1];
      }
    }
  }

  /** A lower bound of `x` and of `ys` is a lower bound of `Insert(x, ys, key)`. */
  lemma InsertKeepsLowerBound<T>(y: T, x: T, ys: seq<T>, key: T -> Key)
    requires KeyLe(key(y), key(x))
    requires forall k :: 0 <= k < |ys| ==> KeyLe(key(y), key(ys[k]))
    ensures forall j :: 0 <= j < |Insert(x, ys, key)| ==> KeyLe(key(y), key(Insert(x, ys, key)[j]))
  {
    var r := Insert(x, ys, key);
    forall j | 0 <= j < |r| ensures KeyLe(key(y), key(r[j])) {
      assert r[j] in multiset(r);
      if r[j] != x {
        assert r[j] in multiset(ys);
        var k :| 0 <= k < |ys| && ys[k] == r[j];
      }
    }
  }

  lemma {:induction false} InsertSorted<T>(x: T, ys: seq<T>, key: T -> Key)
    requires SortedBy(ys, key)
    ensures SortedBy(Insert(x, ys, key), key)
    decreases |ys|
  {
    if ys == [] {
      assert Insert(x, ys, key) == [x];
    } else if KeyLe(key(x), key(ys[0])) {
      forall j | 0 <= j < |ys| ensures KeyLe(key(x), key(ys[j])) {
        if j > 0 {
          KeyLeTransitive(key(x), key(ys[0]), key(ys[j]));
        }
      }
      SortedCons(x, ys, key);
    } else {
      var rest := ys[1..];
      SortedTail(ys, key);
      InsertSorted(x, rest, key);
      KeyLeTotal(key(x), key(ys[0]));
      forall k | 0 <= k < |rest| ensures KeyLe(key(ys[0]), key(rest[k])) {
        assert rest[k] == ys[k + 1];
      }
      InsertKeepsLowerBound(ys[0], x, rest, key);
      SortedCons(ys[0], Insert(x, rest, key), key);
      assert Insert(x, ys, key) == [ys[0]] + Insert(x, rest, key);
    }
  }

  /** The sort's result is in key order. */
  lemma {:induction false} SortBySorted<T>(xs: seq<T>, key: T -> Key)
    ensures SortedBy(SortBy(xs, key), key)
  {
    if xs != [] {
      SortBySorted(xs[1..], key);
      InsertSorted(xs[0], SortBy(xs[1..], key), key);
    }
  }

  /** The elements of `xs` whose key is `k`, in their order. */
  function WithKey<T>(xs: seq<T>, key: T -> Key, k: Key): (r: seq<T>)
  {
    if xs == [] then []
    else (if key(xs[0]) == k then [xs[0]] else []) + WithKey(xs[1..], key, k)
  }

  /** When every element has key `k`, they are all kept. */
  lemma {:induction false} WithKeyAll<T>(xs: seq<T>, key: T -> Key, k: Key)
    requires forall x :: x in xs ==> key(x) == k
    ensures WithKey(xs, key, k) == xs
  {
    if xs != [] {
      WithKeyAll(xs[1..], key, k);
    }
  }

  /** The elements with key `k` of a sequence with a first element. */
  lemma WithKeyCons<T>(y: T, ys: seq<T>, key: T -> Key, k: Key)
    ensures WithKey([y] + ys, key, k) == (if key(y) == k then [y] else []) + WithKey(ys, key, k)
  {
    assert ([y] + ys)[0] == y && ([y] + ys)[1..] == ys;
  }

  lemma {:induction false} InsertStable<T>(x: T, ys: seq<T>, key: T -> Key, k: Key)
    ensures WithKey(Insert(x, ys, key), key, k) == (if key(x) == k then [x] else []) + WithKey(ys, key, k)
    decreases |ys|
  {
    if ys == [] || KeyLe(key(x), key(ys[0])) {
      assert Insert(x, ys, key) == [x] + ys;
      WithKeyCons(x, ys, key, k);
    } else {
      var ins := Insert(x, ys[1..], key);
      assert Insert(x, ys, key) == [ys[0]] + ins;
      assert ys == [ys[0]] + ys[1..];
      WithKeyCons(ys[0], ins, key, k);
      WithKeyCons(ys[0], ys[1..], key, k);
      InsertStable(x, ys[1..], key, k);
      KeyLeReflexive(key(x));
      assert key(ys[0]) != key(x);
    }
  }

  /** The sort is stable: elements with equal keys keep their relative order. */
  lemma {:induction false} SortByStable<T>(xs: seq<T>, key: T -> Key, k: Key)
    ensures WithKey(SortBy(xs, key), key, k) == WithKey(xs, key, k)
  {
    if xs != [] {
      SortByStable(xs[1..], key, k);
      InsertStable(xs[0], SortBy(xs[1..], key), key, k);
    }
  }

  lemma SortedTail<T>(a: seq<T>, key: T -> Key)
    requires a != [] && SortedBy(a, key)
    ensures SortedBy(a[1..], key)
  {
    forall p, q | 0 <= p < q < |a[1..]| ensures KeyLe(key(a[1..][p]), key(a[1..][q])) {
      assert a[1..][p] == a[p + 1] && a[1..][q] == a[q + 1];
    }
  }

  lemma MultisetTail<T>(a: seq<T>, b: seq<T>)
    requires a != [] && b != [] && a[0] == b[0] && multiset(a) == multiset(b)
    ensures multiset(a[1..]) == multiset(b[1..])
  {
    assert a == [a[0]] + a[1..] && b == [b[0]] + b[1..];
    assert multiset(a[1..]) == multiset(a) - multiset{a[0]};
    assert multiset(b[1..]) == multiset(b) - multiset{b[0]};
  }

  /** Two sorted arrangements of the same elements, distinct by key, start alike. */
  lemma SortedSameHead<T>(a: seq<T>, b: seq<T>, key: T -> Key)
    requires a != [] && |a| == |b|
    requires SortedBy(a, key) && SortedBy(b, key) && multiset(a) == multiset(b)
    requires forall x, y :: x in a && y in a && key(x) == key(y) ==> x == y
    ensures a[0] == b[0]
  {
    assert a[0] in multiset(b);
    assert b[0] in multiset(a);
    var i :| 0 <= i < |b| && b[i] == a[0];
    var j :| 0 <= j < |a| && a[j] == b[0];
    if j > 0 && i > 0 {
      assert KeyLe(key(a[0]), key(a[j]));
      assert KeyLe(key(b[0]), key(b[i]));
      KeyLeAntisymmetric(key(a[0]), key(b[0]));
    }
  }

  /**
   * Two key-sorted sequences with the same elements are equal, when the key
   * tells elements apart.
   */
  lemma {:induction false} SortedUnique<T>(a: seq<T>, b: seq<T>, key: T -> Key)
    requires SortedBy(a, key) && SortedBy(b, key) && multiset(a) == multiset(b)
    requires forall x, y :: x in a && y in a && key(x) == key(y) ==> x == y
    ensures a == b
    decreases |a|
  {
    assert |a| == |multiset(a)| == |multiset(b)| == |b|;
    if a != [] {
      SortedSameHead(a, b, key);
      MultisetTail(a, b);
      SortedTail(a, key);
      SortedTail(b, key);
      forall x, y | x in a[1..] && y in a[1..] && key(x) == key(y) ensures x == y {
        assert x in a && y in a;
      }
      SortedUnique(a[1..], b[1..], key);
      assert a == [a[0]] + a[1..] && b == [b[0]] + b[1..];
    }
  }

  /** No element occurs twice. */
  predicate NoDupes<T(==)>(s: seq<T>) {
    forall i, j :: 0 <= i < j < |s| ==> s[i] != s[j]
  }

  lemma {:induction false} NoDupesMultiplicity<T>(s: seq<T>, x: T)
    requires NoDupes(s)
    ensures multiset(s)[x] <= 1
  {
    if s != [] {
      var init := s[..|s| - 1];
      assert s == init + [s[|s| - 1]];
      assert NoDupes(init) by {
        forall i, j | 0 <= i < j < |init| ensures init[i] != init[j] {
          assert init[i] == s[i] && init[j] == s[j];
        }
      }
      NoDupesMultiplicity(init, x);
      if s[|s| - 1] == x {
        assert x !in init by {
          forall k | 0 <= k < |init| ensures init[k] != x {
            assert init[k] == s[k];
          }
        }
      }
    }
  }

  lemma DuplicateMultiplicity<T>(s: seq<T>, i: nat, j: nat)
    requires i < j < |s| && s[i] == s[j]
    ensures multiset(s)[s[i]] >= 2
  {
    assert s == s[..j] + s[j..];
    assert s[i] == s[..j][i];
    assert s[j] == s[j..][0];
    assert multiset(s) == multiset(s[..j]) + multiset(s[j..]);
  }

  /** A permutation of a sequence without duplicates has none either. */
  lemma PermutationNoDupes<T>(a: seq<T>, b: seq<T>)
    requires NoDupes(a) && multiset(a) == multiset(b)
    ensures NoDupes(b)
  {
    forall i, j | 0 <= i < j < |b| ensures b[i] != b[j] {
      if b[i] == b[j] {
        DuplicateMultiplicity(b, i, j);
        NoDupesMultiplicity(a, b[i]);
      }
    }
  }

  /** A sequence without duplicates holds each of its elements once. */
  lemma {:induction false} NoDupesMultiset<T>(s: seq<T>)
    requires NoDupes(s)
    ensures multiset(s) == multiset(set x | x in s)
  {
    if s != [] {
      var init := s[..|s| - 1];
      var last := s[|s| - 1];
      assert s == init + [last];
      assert NoDupes(init) by {
        forall i, j | 0 <= i < j < |init| ensures init[i] != init[j] {
          assert init[i] == s[i] && init[j] == s[j];
        }
      }
      NoDupesMultiset(init);
      assert last !in init by {
        forall k | 0 <= k < |init| ensures init[k] != last {
          assert init[k] == s[k];
        }
      }
      assert (set x | x in s) == (set x | x in init) + {last};
    }
  }

  /** Sorting distinct elements keeps them distinct and keeps exactly them. */
  lemma SortByKeepsDistinct<T>(xs: seq<T>, key: T -> Key)
    requires NoDupes(xs)
    ensures NoDupes(SortBy(xs, key))
    ensures forall x :: x in SortBy(xs, key) <==> x in xs
  {
    var r := SortBy(xs, key);
    PermutationNoDupes(xs, r);
    forall x ensures x in r <==> x in xs {
      assert x in r <==> x in multiset(r);
      assert x in xs <==> x in multiset(xs);
    }
  }

  /**
   * Two key-sorted sequences of the same distinct strings are one sequence,
   * when each key carries its string.
   */
  lemma SameSortedStrings(a: seq<string>, b: seq<string>, key: string -> Key)
    requires NoDupes(a) && NoDupes(b) && forall x :: x in a <==> x in b
    requires SortedBy(a, key) && SortedBy(b, key)
    requires forall x :: key(x).text == x
    ensures a == b
  {
    NoDupesMultiset(a);
    NoDupesMultiset(b);
    assert (set x | x in a) == (set x | x in b);
    SortedUnique(a, b, key);
  }

  /** The strings of `s` in the order they first occur, each once. */
  function FirstOccurrences(s: seq<string>): (r: seq<string>)
    ensures NoDupes(r)
    ensures forall x :: x in r <==> x in s
  {
    if s == [] then []
    else
      var r := FirstOccurrences(s[..|s| - 1]);
      assert forall x :: x in s <==> x in s[..|s| - 1] || x == s[|s| - 1] by {
        assert s == s[..|s| - 1] + [s[|s| - 1]];
      }
      if s[|s| - 1] in r then r else r + [s[|s| - 1]]
  }
}
