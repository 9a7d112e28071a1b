/**
 * The three lodash collection helpers the deck-list component calls, as
 * functions on sequences: `uniqBy` (keep the first element of each key),
 * `groupBy` (buckets in input order) and `sortBy` (stable ascending sort),
 * the last both with a number key and on strings themselves.
 */
module Lodash {
  import opened Strings

  /** The keys that occur in `xs`. */
  function KeySet<T(==), K(==)>(xs: seq<T>, key: T -> K): set<K> {
    set x | x in xs :: key(x)
  }

  lemma KeySetSnoc<T, K>(xs: seq<T>, y: T, key: T -> K)
    ensures KeySet(xs + [y], key) == KeySet(xs, key) + {key(y)}
  {
    assert forall x :: x in xs + [y] <==> x in xs || x == y;
  }

  lemma KeySetCons<T, K>(x: T, xs: seq<T>, key: T -> K)
    ensures KeySet([x] + xs, key) == {key(x)} + KeySet(xs, key)
  {
    assert forall y :: y in [x] + xs <==> y == x || y in xs;
  }

  /** The position of the first element whose key is `k`. */
  function FirstIndex<T(==), K(==)>(xs: seq<T>, key: T -> K, k: K): (i: nat)
    requires k in KeySet(xs, key)
    ensures i < |xs| && key(xs[i]) == k
    ensures forall j :: 0 <= j < i ==> key(xs[j]) != k
  {
    if key(xs[0]) == k then 0
    else
      assert k in KeySet(xs[1..], key) by {
        var x :| x in xs && key(x) == k;
        assert x in xs[1..] by { assert xs == [xs[0]] + xs[1..]; }
      }
      1 + FirstIndex(xs[1..], key, k)
  }

  /** The position of the last element whose key is `k`. */
  function LastIndex<T(==), K(==)>(xs: seq<T>, key: T -> K, k: K): (i: nat)
    requires k in KeySet(xs, key)
    ensures i < |xs| && key(xs[i]) == k
    ensures forall j :: i < j < |xs| ==> key(xs[j]) != k
  {
    var init, last := xs[..|xs| - 1], xs[|xs| - 1];
    if key(last) == k then |xs| - 1
    else
      assert k in KeySet(init, key) by {
        var x :| x in xs && key(x) == k;
        assert xs == init + [last];
      }
      LastIndex(init, key, k)
  }

  /** Any position holding the key before which it does not occur is the first one. */
  lemma FirstIndexUnique<T, K>(xs: seq<T>, key: T -> K, i: nat)
    requires i < |xs|
    requires forall j :: 0 <= j < i ==> key(xs[j]) != key(xs[i])
    ensures key(xs[i]) in KeySet(xs, key) && FirstIndex(xs, key, key(xs[i])) == i
  {
    assert xs[i] in xs;
  }

  /** The elements whose key is `k`, in input order. */
  function Filter<T(==,!new), K(==)>(xs: seq<T>, key: T -> K, k: K): (r: seq<T>)
    ensures |r| <= |xs|
    ensures forall x :: x in r <==> x in xs && key(x) == k
  {
    if xs == [] then []
    else
      assert forall x :: x in xs <==> x == xs[0] || x in xs[1..] by { assert xs == [xs[0]] + xs[1..]; }
      (if key(xs[0]) == k then [xs[0]] else []) + Filter(xs[1..], key, k)
  }

  /** Appending an element adds its key at the end when the key is new. */
  lemma GroupKeysSnoc<T(!new), K(!new)>(xs: seq<T>, x: T, key: T -> K)
    ensures GroupKeys(xs + [x], key) == GroupKeys(xs, key) + if key(x) in KeySet(xs, key) then [] else [key(x)]
  {
    assert (xs + [x])[..|xs|] == xs;
  }

  /** The first element carrying a key heads the filter for that key. */
  lemma {:induction false} FilterHeadIsFirst<T(!new), K>(xs: seq<T>, key: T -> K, k: K)
    requires k in KeySet(xs, key)
    ensures Filter(xs, key, k) != [] && Filter(xs, key, k)[0] == xs[FirstIndex(xs, key, k)]
  {
    if key(xs[0]) != k {
      assert k in KeySet(xs[1..], key) by {
        var x :| x in xs && key(x) == k;
        assert x in xs[1..] by { assert xs == [xs[0]] + xs[1..]; }
      }
      FilterHeadIsFirst(xs[1..], key, k);
    }
  }

  lemma {:induction false} FilterAppend<T(!new), K>(xs: seq<T>, ys: seq<T>, key: T -> K, k: K)
    ensures Filter(xs + ys, key, k) == Filter(xs, key, k) + Filter(ys, key, k)
  {
    if xs == [] {
      assert xs + ys == ys;
    } else {
      assert (xs + ys)[1..] == xs[1..] + ys;
      FilterAppend(xs[1..], ys, key, k);
    }
  }

  lemma {:induction false} FilterAbsent<T(!new), K>(xs: seq<T>, key: T -> K, k: K)
    requires k !in KeySet(xs, key)
    ensures Filter(xs, key, k) == []
  {
    if xs != [] {
      assert xs[0] in xs;
      assert xs == [xs[0]] + xs[1..];
      FilterAbsent(xs[1..], key, k);
    }
  }

  /**
   * `uniqBy(xs, key)`: an element stays when no earlier element has its key.
   */
  function UniqBy<T(==), K(==)>(xs: seq<T>, key: T -> K): (r: seq<T>)
    ensures forall x :: x in r ==> x in xs
    ensures |xs| > 0 ==> |r| > 0
  {
    if xs == [] then []
    else
      var init, last := xs[..|xs| - 1], xs[|xs| - 1];
      assert xs == init + [last];
      UniqBy(init, key) + if key(last) in KeySet(init, key) then [] else [last]
  }

  lemma FirstIndexSnoc<T, K>(init: seq<T>, last: T, key: T -> K, k: K)
    requires k in KeySet(init, key)
    ensures k in KeySet(init + [last], key)
    ensures FirstIndex(init + [last], key, k) == FirstIndex(init, key, k)
  {
    var i := FirstIndex(init, key, k);
    assert (init + [last])[i] == init[i];
    FirstIndexUnique(init + [last], key, i);
  }

  /** Two lists whose keys agree position by position have the same keys, first found at the same places. */
  lemma SameKeysSameFirstIndex<T, U, K>(xs: seq<T>, kx: T -> K, ys: seq<U>, ky: U -> K)
    requires |xs| == |ys| && forall i :: 0 <= i < |xs| ==> kx(xs[i]) == ky(ys[i])
    ensures KeySet(xs, kx) == KeySet(ys, ky)
    ensures forall k :: k in KeySet(xs, kx) ==> FirstIndex(xs, kx, k) == FirstIndex(ys, ky, k)
  {
    forall k | k in KeySet(xs, kx) ensures k in KeySet(ys, ky) {
      var x :| x in xs && kx(x) == k;
      var i :| 0 <= i < |xs| && xs[i] == x;
      assert ys[i] in ys;
    }
    forall k | k in KeySet(ys, ky) ensures k in KeySet(xs, kx) {
      var y :| y in ys && ky(y) == k;
      var i :| 0 <= i < |ys| && ys[i] == y;
      assert xs[i] in xs;
    }
    forall k | k in KeySet(xs, kx) ensures FirstIndex(xs, kx, k) == FirstIndex(ys, ky, k) {
      var i := FirstIndex(xs, kx, k);
      FirstIndexUnique(ys, ky, i);
    }
  }

  /** `uniqBy` keeps one element for every key of `xs` and no other key. */
  lemma {:induction false} UniqByKeys<T, K>(xs: seq<T>, key: T -> K)
    ensures KeySet(UniqBy(xs, key), key) == KeySet(xs, key)
  {
    if xs != [] {
      var init, last := xs[..|xs| - 1], xs[|xs| - 1];
      assert xs == init + [last];
      UniqByKeys(init, key);
      KeySetSnoc(init, last, key);
      KeySetSnoc(UniqBy(init, key), last, key);
    }
  }

  /**
   * What `uniqBy` keeps: each element is the first element of `xs` with its
   * key, and they come in the order in which their keys first occur.
   */
  lemma {:induction false} UniqByFirstOccurrences<T, K>(xs: seq<T>, key: T -> K)
    ensures forall a :: 0 <= a < |UniqBy(xs, key)| ==>
      key(UniqBy(xs, key)[a]) in KeySet(xs, key) &&
      UniqBy(xs, key)[a] == xs[FirstIndex(xs, key, key(UniqBy(xs, key)[a]))]
    ensures forall a, b :: 0 <= a < b < |UniqBy(xs, key)| ==>
      key(UniqBy(xs, key)[a]) in KeySet(xs, key) && key(UniqBy(xs, key)[b]) in KeySet(xs, key) &&
      FirstIndex(xs, key, key(UniqBy(xs, key)[a])) < FirstIndex(xs, key, key(UniqBy(xs, key)[b]))
  {
    if xs != [] {
      var init, last := xs[..|xs| - 1], xs[|xs| - 1];
      assert xs == init + [last];
      UniqByFirstOccurrences(init, key);
      var r', r := UniqBy(init, key), UniqBy(xs, key);
      assert r[..|r'|] == r';
      forall a | 0 <= a < |r'|
        ensures key(r'[a]) in KeySet(xs, key)
        ensures FirstIndex(xs, key, key(r'[a])) == FirstIndex(init, key, key(r'[a])) < |init|
        ensures r'[a] == xs[FirstIndex(xs, key, key(r'[a]))]
      {
        FirstIndexSnoc(init, last, key, key(r'[a]));
      }
      if key(last) !in KeySet(init, key) {
        FirstIndexUnique(xs, key, |init|);
      }
    }
  }

  /** `uniqBy` leaves no two elements with the same key. */
  lemma UniqByDistinctKeys<T, K>(xs: seq<T>, key: T -> K)
    ensures forall a, b :: 0 <= a < b < |UniqBy(xs, key)| ==> key(UniqBy(xs, key)[a]) != key(UniqBy(xs, key)[b])
  {
    UniqByFirstOccurrences(xs, key);
  }

  /**
   * `groupBy(xs, key)`: each element is pushed onto its key's bucket, in
   * input order, so the buckets are exactly the keys of `xs`, each holding
   * the filter for its key.
   */
  function GroupBy<T(==,!new), K(==)>(xs: seq<T>, key: T -> K): (m: map<K, seq<T>>)
    ensures m.Keys == KeySet(xs, key)
    ensures forall k :: k in m ==> m[k] == Filter(xs, key, k)
  {
    if xs == [] then map[]
    else
      var init, last := xs[..|xs| - 1], xs[|xs| - 1];
      assert xs == init + [last];
      PushOntoBucket(init, last, key, GroupBy(init, key));
      Push(GroupBy(init, key), key(last), last)
  }

  /** Appends `x` to the bucket of `k`, opening the bucket if it is missing. */
  function Push<T, K>(m: map<K, seq<T>>, k: K, x: T): map<K, seq<T>> {
    m[k := (if k in m then m[k] else []) + [x]]
  }

  /** Pushing one more element keeps the buckets equal to the filters. */
  lemma PushOntoBucket<T(!new), K>(init: seq<T>, last: T, key: T -> K, m: map<K, seq<T>>)
    requires m.Keys == KeySet(init, key)
    requires forall k :: k in m ==> m[k] == Filter(init, key, k)
    ensures Push(m, key(last), last).Keys == KeySet(init + [last], key)
    ensures forall k :: k in Push(m, key(last), last) ==> Push(m, key(last), last)[k] == Filter(init + [last], key, k)
  {
    KeySetSnoc(init, last, key);
    var r := Push(m, key(last), last);
    assert r.Keys == m.Keys + {key(last)};
    forall k | k in r ensures r[k] == Filter(init + [last], key, k) {
      FilterAppend(init, [last], key, k);
      assert Filter([last], key, k) == if key(last) == k then [last] else [] by {
        assert [last][1..] == [];
      }
      if k == key(last) && k !in KeySet(init, key) {
        FilterAbsent(init, key, k);
      }
    }
  }

  /** The keys of `groupBy(xs, key)` in the order in which they were first inserted. */
  function GroupKeys<T(==), K(==,!new)>(xs: seq<T>, key: T -> K): (ks: seq<K>)
    ensures forall k :: k in ks <==> k in KeySet(xs, key)
    ensures forall i, j :: 0 <= i < j < |ks| ==> ks[i] != ks[j]
  {
    if xs == [] then []
    else
      var init, last := xs[..|xs| - 1], xs[|xs| - 1];
      KeySetSnoc(init, last, key);
      assert xs == init + [last];
      GroupKeys(init, key) + if key(last) in KeySet(init, key) then [] else [key(last)]
  }

  /** The keys come in the order of their first occurrences in `xs`. */
  lemma {:induction false} GroupKeysFirstOccurrence<T(!new), K(!new)>(xs: seq<T>, key: T -> K)
    ensures forall i, j :: 0 <= i < j < |GroupKeys(xs, key)| ==>
      GroupKeys(xs, key)[i] in KeySet(xs, key) && GroupKeys(xs, key)[j] in KeySet(xs, key) &&
      FirstIndex(xs, key, GroupKeys(xs, key)[i]) < FirstIndex(xs, key, GroupKeys(xs, key)[j])
  {
    if xs == [] {
      assert GroupKeys(xs, key) == [];
    } else {
      var init, last := xs[..|xs| - 1], xs[|xs| - 1];
      assert xs == init + [last];
      GroupKeysFirstOccurrence(init, key);
      GroupKeysSnoc(init, last, key);
      var ks', ks := GroupKeys(init, key), GroupKeys(xs, key);
      forall k | k in ks' ensures k in KeySet(xs, key) && FirstIndex(xs, key, k) == FirstIndex(init, key, k) < |init| {
        FirstIndexSnoc(init, last, key, k);
      }
      if key(last) in KeySet(init, key) {
        assert ks == ks';
        forall i, j | 0 <= i < j < |ks|
          ensures ks[i] in KeySet(xs, key) && ks[j] in KeySet(xs, key)
          ensures FirstIndex(xs, key, ks[i]) < FirstIndex(xs, key, ks[j])
        {
          assert ks[i] in ks' && ks[j] in ks';
        }
      } else {
        FirstIndexUnique(xs, key, |init|);
        assert ks == ks' + [key(last)];
        forall i, j | 0 <= i < j < |ks|
          ensures ks[i] in KeySet(xs, key) && ks[j] in KeySet(xs, key)
          ensures FirstIndex(xs, key, ks[i]) < FirstIndex(xs, key, ks[j])
        {
          assert ks[i] == ks'[i];
          if j < |ks'| {
            assert ks[j] == ks'[j];
          }
        }
      }
    }
  }


  /** Every element before position `i` of `s` has a key no greater than that of the elements at or after it. */
  predicate SortedBy<T(==)>(s: seq<T>, key: T -> int) {
    forall i, j :: 0 <= i < j < |s| ==> key(s[i]) <= key(s[j])
  }

  /** Puts `x` before the first element whose key is not smaller. */
  function InsertBy<T(==)>(x: T, s: seq<T>, key: T -> int): (r: seq<T>)
    ensures multiset(r) == multiset(s) + multiset{x}
  {
    if s == [] || key(x) <= key(s[0]) then [x] + s
    else
      assert s == [s[0]] + s[1..];
      [s[0]] + InsertBy(x, s[1..], key)
  }

  /** `sortBy(xs, key)` with a number key: insertion sort, so equal keys keep their order. */
  function SortBy<T(==)>(xs: seq<T>, key: T -> int): (r: seq<T>)
    ensures multiset(r) == multiset(xs)
  {
    if xs == [] then []
    else
      assert xs == [xs[0]] + xs[1..];
      InsertBy(xs[0], SortBy(xs[1..], key), key)
  }

  lemma {:induction false} InsertByBounded<T>(x: T, s: seq<T>, key: T -> int, b: int)
    requires b <= key(x) && forall y :: y in s ==> b <= key(y)
    ensures forall y :: y in InsertBy(x, s, key) ==> b <= key(y)
  {
    if s != [] && key(x) > key(s[0]) {
      InsertByBounded(x, s[1..], key, b);
    }
  }

  lemma FilterCons<T(!new), K>(x: T, s: seq<T>, key: T -> K, v: K)
    ensures Filter([x] + s, key, v) == (if key(x) == v then [x] else []) + Filter(s, key, v)
  {
    assert ([x] + s)[1..] == s;
  }

  lemma {:induction false} InsertBySorted<T>(x: T, s: seq<T>, key: T -> int)
    requires SortedBy(s, key)
    ensures SortedBy(InsertBy(x, s, key), key)
  {
    var r := InsertBy(x, s, key);
    if s == [] || key(x) <= key(s[0]) {
      forall i, j | 0 <= i < j < |r| ensures key(r[i]) <= key(r[j]) {
        if i == 0 && j > 1 { assert key(s[0]) <= key(s[j - 1]); }
      }
    } else {
      var rest := InsertBy(x, s[1..], key);
      InsertBySorted(x, s[1..], key);
      forall y | y in s[1..] ensures key(s[0]) <= key(y) {
        var j :| 0 <= j < |s[1..]| && s[1..][j] == y;
        assert s[1..][j] == s[j + 1];
      }
      InsertByBounded(x, s[1..], key, key(s[0]));
      forall i, j | 0 <= i < j < |r| ensures key(r[i]) <= key(r[j]) {
        if i == 0 { assert r[j] == rest[j - 1] && rest[j - 1] in rest; }
      }
    }
  }

  /** Inserting `x` keeps it ahead of the elements with its key. */
  lemma {:induction false} InsertByStable<T(!new)>(x: T, s: seq<T>, key: T -> int, v: int)
    ensures Filter(InsertBy(x, s, key), key, v) == Filter([x] + s, key, v)
  {
    if s != [] && key(x) > key(s[0]) {
      var s0, tail := s[0], s[1..];
      var ins := InsertBy(x, tail, key);
      assert InsertBy(x, s, key) == [s0] + ins;
      assert s == [s0] + tail;
      InsertByStable(x, tail, key, v);
      var hx := if key(x) == v then [x] else [];
      var h0 := if key(s0) == v then [s0] else [];
      var ft := Filter(tail, key, v);
      FilterCons(s0, ins, key, v);
      FilterCons(x, tail, key, v);
      FilterCons(s0, tail, key, v);
      FilterCons(x, s, key, v);
      assert hx == [] || h0 == [];
      assert h0 + (hx + ft) == hx + (h0 + ft);
    } else {
      assert InsertBy(x, s, key) == [x] + s;
    }
  }


  /**
   * `sortBy` orders by ascending key and is stable: the elements sharing a
   * key come out in the order they went in.
   */
  lemma {:induction false} SortBySortedStable<T(!new)>(xs: seq<T>, key: T -> int)
    ensures SortedBy(SortBy(xs, key), key)
    ensures forall v :: Filter(SortBy(xs, key), key, v) == Filter(xs, key, v)
  {
    if xs != [] {
      var rest := SortBy(xs[1..], key);
      SortBySortedStable(xs[1..], key);
      InsertBySorted(xs[0], rest, key);
      forall v ensures Filter(SortBy(xs, key), key, v) == Filter(xs, key, v) {
        InsertByStable(xs[0], rest, key, v);
        FilterCons(xs[0], rest, key, v);
        FilterCons(xs[0], xs[1..], key, v);
        assert xs == [xs[0]] + xs[1..];
      }
    }
  }

  /** Each string before a later one is smaller. */
  predicate StrictlyAscending(s: seq<string>) {
    forall i, j :: 0 <= i < j < |s| ==> StrLt(s[i], s[j])
  }

  /** Puts `x` before the first string that is not smaller than it. */
  function InsertString(x: string, s: seq<string>): (r: seq<string>)
    ensures multiset(r) == multiset(s) + multiset{x}
  {
    if s == [] || !StrLt(s[0], x) then [x] + s
    else
      assert s == [s[0]] + s[1..];
      [s[0]] + InsertString(x, s[1..])
  }

  /** `sortBy(keys)` on strings: insertion sort by JavaScript's `<`. */
  function SortStrings(xs: seq<string>): (r: seq<string>)
    ensures multiset(r) == multiset(xs)
  {
    if xs == [] then []
    else
      assert xs == [xs[0]] + xs[1..];
      InsertString(xs[0], SortStrings(xs[1..]))
  }

  lemma {:induction false} InsertStringAscending(x: string, s: seq<string>)
    requires StrictlyAscending(s) && x !in s
    ensures StrictlyAscending(InsertString(x, s))
  {
    var r := InsertString(x, s);
    if s == [] || !StrLt(s[0], x) {
      if s != [] { StrLtTotal(x, s[0]); }
      forall i, j | 0 <= i < j < |r| ensures StrLt(r[i], r[j]) {
        if i == 0 && j > 1 { StrLtTransitive(x, s[0], s[j - 1]); }
      }
    } else {
      var rest := InsertString(x, s[1..]);
      InsertStringAscending(x, s[1..]);
      forall i, j | 0 <= i < j < |r| ensures StrLt(r[i], r[j]) {
        if i == 0 {
          assert r[j] in multiset(rest);
          if r[j] != x {
            var k :| 0 <= k < |s[1..]| && s[1..][k] == r[j];
            assert s[k + 1] == r[j];
          }
        }
      }
    }
  }

  /** Sorting strings that are pairwise different gives them in strictly ascending order. */
  lemma {:induction false} SortStringsAscending(xs: seq<string>)
    requires forall i, j :: 0 <= i < j < |xs| ==> xs[i] != xs[j]
    ensures StrictlyAscending(SortStrings(xs))
  {
    if xs != [] {
      var rest := SortStrings(xs[1..]);
      SortStringsAscending(xs[1..]);
      assert xs[0] !in multiset(rest) by {
        forall k | 0 <= k < |xs[1..]| ensures xs[1..][k] != xs[0] {
          assert xs[1..][k] == xs[k + 1];
        }
      }
      InsertStringAscending(xs[0], rest);
    }
  }
}
