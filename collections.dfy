/**
 * The JavaScript array operations the app's logic is built from, over
 * sequences: `filter` on one field, `find` and `findIndex` on one field,
 * the find-then-assign-or-push upsert of the record store, the replacing
 * `map` of the provider, and the stable `sort` by a numeric key.
 * Each takes the field as a key function (see module Types).
 */
module Collections {
  import opened Types

  // ---------------------------------------------------------------- filter

  /** `s.filter(x => key(x) === k)` */
  function FilterKey<T, K(==)>(s: seq<T>, key: T -> K, k: K): (r: seq<T>)
    ensures |r| <= |s|
    ensures forall i :: 0 <= i < |r| ==> key(r[i]) == k
  {
    if s == [] then []
    else (if key(s[0]) == k then [s[0]] else []) + FilterKey(s[1..], key, k)
  }

  /** `s.filter(x => key(x) !== k)` */
  function RemoveKey<T, K(==)>(s: seq<T>, key: T -> K, k: K): (r: seq<T>)
    ensures |r| <= |s|
    ensures forall i :: 0 <= i < |r| ==> key(r[i]) != k
  {
    if s == [] then []
    else (if key(s[0]) != k then [s[0]] else []) + RemoveKey(s[1..], key, k)
  }

  /** `s.filter(x => !ks.has(key(x)))` */
  function RemoveKeys<T, K(==)>(s: seq<T>, key: T -> K, ks: set<K>): (r: seq<T>)
    ensures |r| <= |s|
    ensures forall i :: 0 <= i < |r| ==> key(r[i]) !in ks
  {
    if s == [] then []
    else (if key(s[0]) !in ks then [s[0]] else []) + RemoveKeys(s[1..], key, ks)
  }

  /** A filter keeps exactly the elements carrying `k`. */
  lemma {:induction false} FilterKeyMembers<T, K>(s: seq<T>, key: T -> K, k: K)
    ensures forall x :: x in FilterKey(s, key, k) <==> x in s && key(x) == k
  {
    if s != [] {
      FilterKeyMembers(s[1..], key, k);
      assert s == [s[0]] + s[1..];
    }
  }

  /** Removing by key keeps exactly the elements not carrying `k`. */
  lemma {:induction false} RemoveKeyMembers<T, K>(s: seq<T>, key: T -> K, k: K)
    ensures forall x :: x in RemoveKey(s, key, k) <==> x in s && key(x) != k
  {
    if s != [] {
      RemoveKeyMembers(s[1..], key, k);
      assert s == [s[0]] + s[1..];
    }
  }

  /** Removing a set of keys keeps exactly the elements carrying none of them. */
  lemma {:induction false} RemoveKeysMembers<T, K>(s: seq<T>, key: T -> K, ks: set<K>)
    ensures forall x :: x in RemoveKeys(s, key, ks) <==> x in s && key(x) !in ks
  {
    if s != [] {
      RemoveKeysMembers(s[1..], key, ks);
      assert s == [s[0]] + s[1..];
    }
  }

  /** `a` is `b` with some elements left out, the rest in the same order. */
  ghost predicate IsSubsequence<T>(a: seq<T>, b: seq<T>)
    decreases |b|
  {
    a == [] || (b != [] && if a[0] == b[0] then IsSubsequence(a[1..], b[1..]) else IsSubsequence(a, b[1..]))
  }

  lemma {:induction false} SubsequenceOfItself<T>(s: seq<T>)
    ensures IsSubsequence(s, s)
  {
    if s != [] {
      SubsequenceOfItself(s[1..]);
    }
  }

  /** A filter keeps the elements it keeps in their order. */
  lemma {:induction false} FilterKeyInOrder<T, K>(s: seq<T>, key: T -> K, k: K)
    ensures IsSubsequence(FilterKey(s, key, k), s)
  {
    if s != [] {
      var r := FilterKey(s[1..], key, k);
      FilterKeyInOrder(s[1..], key, k);
      if key(s[0]) == k {
        assert ([s[0]] + r)[1..] == r;
      } else {
        assert FilterKey(s, key, k) == r;
        assert r != [] ==> r[0] != s[0];
      }
    }
  }

  lemma {:induction false} RemoveKeyInOrder<T, K>(s: seq<T>, key: T -> K, k: K)
    ensures IsSubsequence(RemoveKey(s, key, k), s)
  {
    if s != [] {
      var r := RemoveKey(s[1..], key, k);
      RemoveKeyInOrder(s[1..], key, k);
      if key(s[0]) != k {
        assert ([s[0]] + r)[1..] == r;
      } else {
        assert RemoveKey(s, key, k) == r;
        assert r != [] ==> r[0] != s[0];
      }
    }
  }

  lemma {:induction false} RemoveKeysInOrder<T, K>(s: seq<T>, key: T -> K, ks: set<K>)
    ensures IsSubsequence(RemoveKeys(s, key, ks), s)
  {
    if s != [] {
      var r := RemoveKeys(s[1..], key, ks);
      RemoveKeysInOrder(s[1..], key, ks);
      if key(s[0]) !in ks {
        assert ([s[0]] + r)[1..] == r;
      } else {
        assert RemoveKeys(s, key, ks) == r;
        assert r != [] ==> r[0] != s[0];
      }
    }
  }

  /** Filtering keeps the stored order: it distributes over concatenation. */
  lemma {:induction false} FilterKeyAppend<T, K>(a: seq<T>, b: seq<T>, key: T -> K, k: K)
    ensures FilterKey(a + b, key, k) == FilterKey(a, key, k) + FilterKey(b, key, k)
  {
    if a == [] {
      assert a + b == b;
    } else {
      assert (a + b)[0] == a[0];
      assert (a + b)[1..] == a[1..] + b;
      FilterKeyAppend(a[1..], b, key, k);
    }
  }

  lemma {:induction false} RemoveKeyAppend<T, K>(a: seq<T>, b: seq<T>, key: T -> K, k: K)
    ensures RemoveKey(a + b, key, k) == RemoveKey(a, key, k) + RemoveKey(b, key, k)
  {
    if a == [] {
      assert a + b == b;
    } else {
      assert (a + b)[0] == a[0];
      assert (a + b)[1..] == a[1..] + b;
      RemoveKeyAppend(a[1..], b, key, k);
    }
  }

  lemma {:induction false} RemoveKeysAppend<T, K>(a: seq<T>, b: seq<T>, key: T -> K, ks: set<K>)
    ensures RemoveKeys(a + b, key, ks) == RemoveKeys(a, key, ks) + RemoveKeys(b, key, ks)
  {
    if a == [] {
      assert a + b == b;
    } else {
      var t := a[1..];
      assert (a + b)[0] == a[0];
      assert (a + b)[1..] == t + b;
      RemoveKeysAppend(t, b, key, ks);
      var head := if key(a[0]) !in ks then [a[0]] else [];
      assert RemoveKeys(a + b, key, ks) == head + RemoveKeys(t + b, key, ks);
      assert RemoveKeys(a, key, ks) == head + RemoveKeys(t, key, ks);
    }
  }

  /** After removing key `k`, no element carries `k`, and the elements carrying any other key are as before. */
  lemma {:induction false} FilterKeyAfterRemoveKey<T, K>(s: seq<T>, key: T -> K, k: K, k2: K)
    ensures FilterKey(RemoveKey(s, key, k), key, k2) == if k2 == k then [] else FilterKey(s, key, k2)
  {
    if s != [] {
      FilterKeyAfterRemoveKey(s[1..], key, k, k2);
      var r := RemoveKey(s[1..], key, k);
      assert s == [s[0]] + s[1..];
      FilterKeyCons(s[0], s[1..], key, k2);
      if key(s[0]) != k {
        assert RemoveKey(s, key, k) == [s[0]] + r;
        FilterKeyCons(s[0], r, key, k2);
      } else {
        assert RemoveKey(s, key, k) == r;
      }
    }
  }

  /** The same for removing a set of keys. */
  lemma {:induction false} FilterKeyAfterRemoveKeys<T, K>(s: seq<T>, key: T -> K, ks: set<K>, k2: K)
    ensures FilterKey(RemoveKeys(s, key, ks), key, k2) == if k2 in ks then [] else FilterKey(s, key, k2)
  {
    if s != [] {
      FilterKeyAfterRemoveKeys(s[1..], key, ks, k2);
      var r := RemoveKeys(s[1..], key, ks);
      assert s == [s[0]] + s[1..];
      FilterKeyCons(s[0], s[1..], key, k2);
      if key(s[0]) !in ks {
        assert RemoveKeys(s, key, ks) == [s[0]] + r;
        FilterKeyCons(s[0], r, key, k2);
      } else {
        assert RemoveKeys(s, key, ks) == r;
      }
    }
  }

  /** Every element is kept by exactly one of the two filters on a key. */
  lemma {:induction false} FilterRemovePartition<T, K>(s: seq<T>, key: T -> K, k: K)
    ensures |FilterKey(s, key, k)| + |RemoveKey(s, key, k)| == |s|
  {
    if s != [] {
      FilterRemovePartition(s[1..], key, k);
    }
  }

  /** Removing by key changes nothing exactly when no element has that key. */
  lemma {:induction false} RemoveKeyNothingIff<T, K>(s: seq<T>, key: T -> K, k: K)
    ensures |RemoveKey(s, key, k)| == |s| <==> forall i :: 0 <= i < |s| ==> key(s[i]) != k
    ensures (forall i :: 0 <= i < |s| ==> key(s[i]) != k) ==> RemoveKey(s, key, k) == s
  {
    if s != [] {
      RemoveKeyNothingIff(s[1..], key, k);
      if key(s[0]) != k {
        assert forall i :: 1 <= i < |s| ==> s[1..][i - 1] == s[i];
      }
    }
  }

  /** Removing a key twice is removing it once. */
  lemma {:induction false} RemoveKeyIdempotent<T, K>(s: seq<T>, key: T -> K, k: K)
    ensures RemoveKey(RemoveKey(s, key, k), key, k) == RemoveKey(s, key, k)
  {
    var r := RemoveKey(s, key, k);
    RemoveKeyNothingIff(r, key, k);
    assert forall i :: 0 <= i < |r| ==> r[i] in r;
  }

  /** Removing no keys keeps everything. */
  lemma {:induction false} RemoveNoKeys<T, K>(s: seq<T>, key: T -> K)
    ensures RemoveKeys(s, key, {}) == s
  {
    if s != [] {
      RemoveNoKeys(s[1..], key);
      assert s == [s[0]] + s[1..];
    }
  }

  /** Removing one more key after a set of keys is removing the enlarged set. */
  lemma {:induction false} RemoveKeyAfterRemoveKeys<T, K>(s: seq<T>, key: T -> K, ks: set<K>, k: K)
    ensures RemoveKey(RemoveKeys(s, key, ks), key, k) == RemoveKeys(s, key, ks + {k})
  {
    if s != [] {
      var t := RemoveKeys(s[1..], key, ks);
      RemoveKeyAfterRemoveKeys(s[1..], key, ks, k);
      if key(s[0]) !in ks {
        var u := [s[0]] + t;
        assert RemoveKeys(s, key, ks) == u;
        assert u[0] == s[0] && u[1..] == t;
        assert RemoveKey(u, key, k) == (if key(s[0]) != k then [s[0]] else []) + RemoveKey(t, key, k);
      } else {
        assert RemoveKeys(s, key, ks) == t;
      }
    }
  }

  /** Sorting does not change how many elements carry key `k`. */
  lemma {:induction false} FilterKeyCountSorted<T, K>(s: seq<T>, sortKey: T -> int, key: T -> K, k: K)
    ensures |FilterKey(SortDescBy(s, sortKey), key, k)| == |FilterKey(s, key, k)|
  {
    if s != [] {
      FilterKeyCountSorted(s[1..], sortKey, key, k);
      FilterKeyCountInsert(s[0], SortDescBy(s[1..], sortKey), sortKey, key, k);
      assert s == [s[0]] + s[1..];
      FilterKeyAppend([s[0]], s[1..], key, k);
      FilterKeyAppend([s[0]], SortDescBy(s[1..], sortKey), key, k);
    }
  }

  lemma {:induction false} FilterKeyCountInsert<T, K>(x: T, s: seq<T>, sortKey: T -> int, key: T -> K, k: K)
    ensures |FilterKey(InsertDesc(x, s, sortKey), key, k)| == |FilterKey([x] + s, key, k)|
  {
    if s != [] && sortKey(s[0]) > sortKey(x) {
      var y := s[0];
      var t := s[1..];
      var rest := InsertDesc(x, t, sortKey);
      assert InsertDesc(x, s, sortKey) == [y] + rest;
      FilterKeyCountInsert(x, t, sortKey, key, k);
      var cx := if key(x) == k then 1 else 0;
      var cy := if key(y) == k then 1 else 0;
      FilterKeyCons(y, rest, key, k);
      assert |FilterKey([y] + rest, key, k)| == cy + |FilterKey(rest, key, k)|;
      FilterKeyCons(x, t, key, k);
      assert |FilterKey(rest, key, k)| == cx + |FilterKey(t, key, k)|;
      assert s == [y] + t;
      FilterKeyCons(y, t, key, k);
      assert |FilterKey(s, key, k)| == cy + |FilterKey(t, key, k)|;
      FilterKeyCons(x, s, key, k);
    } else {
      assert InsertDesc(x, s, sortKey) == [x] + s;
    }
  }

  lemma FilterKeyCons<T, K>(y: T, t: seq<T>, key: T -> K, k: K)
    ensures FilterKey([y] + t, key, k) == (if key(y) == k then [y] else []) + FilterKey(t, key, k)
  {
    assert ([y] + t)[0] == y && ([y] + t)[1..] == t;
  }

  // ------------------------------------------------------ find, findIndex

  /** `s.findIndex(x => key(x) === k)`: the first index carrying `k`, or -1. */
  function FirstIndexKey<T, K(==)>(s: seq<T>, key: T -> K, k: K): (i: int)
    ensures -1 <= i < |s|
    ensures 0 <= i ==> key(s[i]) == k
    ensures forall j :: 0 <= j < |s| && (i < 0 || j < i) ==> key(s[j]) != k
  {
    if s == [] then -1
    else if key(s[0]) == k then 0
    else
      var j := FirstIndexKey(s[1..], key, k);
      if j < 0 then -1 else j + 1
  }

  /** The loop behind `findIndex`. */
  method FindIndexKey<T, K(==)>(s: seq<T>, key: T -> K, k: K) returns (i: int)
    ensures i == FirstIndexKey(s, key, k)
  {
    i := 0;
    while i < |s|
      invariant 0 <= i <= |s|
      invariant forall j :: 0 <= j < i ==> key(s[j]) != k
    {
      if key(s[i]) == k {
        FirstIndexKeyUnique(s, key, k, i);
        return;
      }
      i := i + 1;
    }
    i := -1;
    FirstIndexKeyUnique(s, key, k, i);
  }

  /** The contract of FirstIndexKey determines it. */
  lemma FirstIndexKeyUnique<T, K>(s: seq<T>, key: T -> K, k: K, i: int)
    requires -1 <= i < |s|
    requires 0 <= i ==> key(s[i]) == k
    requires forall j :: 0 <= j < |s| && (i < 0 || j < i) ==> key(s[j]) != k
    ensures i == FirstIndexKey(s, key, k)
  {
  }

  /** `s.find(x => key(x) === k)` */
  function FindKey<T, K(==)>(s: seq<T>, key: T -> K, k: K): (r: Option<T>)
    ensures r.None? <==> forall j :: 0 <= j < |s| ==> key(s[j]) != k
    ensures r.Some? ==> r.value in s && key(r.value) == k
    ensures r.Some? ==> exists i :: 0 <= i < |s| && s[i] == r.value && forall j :: 0 <= j < i ==> key(s[j]) != k
  {
    var i := FirstIndexKey(s, key, k);
    if i < 0 then None else Some(s[i])
  }

  // -------------------------------------------------------------- upsert

  /** No two elements share a key. */
  ghost predicate UniqueKeys<T, K>(s: seq<T>, key: T -> K)
  {
    forall i, j :: 0 <= i < j < |s| ==> key(s[i]) != key(s[j])
  }

  /**
   * The record store's save: find the first element with `x`'s key and
   * assign `x` at that index, or push `x` when there is none.
   */
  function UpsertKey<T, K(==)>(s: seq<T>, key: T -> K, x: T): (r: seq<T>)
    ensures FirstIndexKey(s, key, key(x)) >= 0 ==> |r| == |s| && r[FirstIndexKey(s, key, key(x))] == x
    ensures FirstIndexKey(s, key, key(x)) < 0 ==> r == s + [x]
    ensures forall j :: 0 <= j < |s| && j != FirstIndexKey(s, key, key(x)) ==> r[j] == s[j]
  {
    var i := FirstIndexKey(s, key, key(x));
    if i >= 0 then s[i := x] else s + [x]
  }

  /** After an upsert, the first element with `x`'s key is `x`. */
  lemma UpsertFinds<T, K>(s: seq<T>, key: T -> K, x: T)
    ensures FindKey(UpsertKey(s, key, x), key, key(x)) == Some(x)
  {
    var r := UpsertKey(s, key, x);
    var i := FirstIndexKey(s, key, key(x));
    var n := if i >= 0 then i else |s|;
    assert r[n] == x;
    FirstIndexKeyUnique(r, key, key(x), n);
  }

  /** An upsert keeps the keys of a list unique. */
  lemma UpsertKeepsUnique<T, K>(s: seq<T>, key: T -> K, x: T)
    requires UniqueKeys(s, key)
    ensures UniqueKeys(UpsertKey(s, key, x), key)
  {
    var r := UpsertKey(s, key, x);
    var n := FirstIndexKey(s, key, key(x));
    forall i, j | 0 <= i < j < |r|
      ensures key(r[i]) != key(r[j])
    {
      if n >= 0 {
        if i == n {
          assert key(s[j]) != key(s[n]);
        } else if j == n {
          assert key(s[i]) != key(s[n]);
        }
      }
    }
  }

  // ---------------------------------------------------------- map-replace

  /** `s.map(e => key(e) === k ? x : e)` */
  function ReplaceKey<T, K(==)>(s: seq<T>, key: T -> K, k: K, x: T): (r: seq<T>)
    ensures |r| == |s|
    ensures forall j :: 0 <= j < |s| && key(s[j]) != k ==> r[j] == s[j]
    ensures forall j :: 0 <= j < |s| && key(s[j]) == k ==> r[j] == x
  {
    if s == [] then []
    else [if key(s[0]) == k then x else s[0]] + ReplaceKey(s[1..], key, k, x)
  }

  /** Replacing under a key that no element carries changes nothing. */
  lemma ReplaceKeyAbsent<T, K>(s: seq<T>, key: T -> K, k: K, x: T)
    requires forall j :: 0 <= j < |s| ==> key(s[j]) != k
    ensures ReplaceKey(s, key, k, x) == s
  {
  }

  /**
   * Replacing the elements under `k` by one that carries `k` leaves every
   * other lookup as it was, and the lookup of `k` finds the replacement
   * exactly when it found something before.
   */
  lemma FindKeyAfterReplace<T, K>(s: seq<T>, key: T -> K, k: K, x: T, k2: K)
    requires key(x) == k
    ensures FindKey(ReplaceKey(s, key, k, x), key, k2)
         == if k2 != k then FindKey(s, key, k2) else if FindKey(s, key, k).Some? then Some(x) else None
  {
    var r := ReplaceKey(s, key, k, x);
    assert forall j :: 0 <= j < |s| ==> key(r[j]) == key(s[j]);
    var i := FirstIndexKey(s, key, k2);
    FirstIndexKeyUnique(r, key, k2, i);
  }

  /** After an upsert of `x`, the lookup of `x`'s key finds `x` and every other lookup is unchanged. */
  lemma FindKeyAfterUpsert<T, K>(s: seq<T>, key: T -> K, x: T, k2: K)
    ensures FindKey(UpsertKey(s, key, x), key, k2) == if k2 == key(x) then Some(x) else FindKey(s, key, k2)
  {
    if k2 == key(x) {
      UpsertFinds(s, key, x);
    } else {
      var r := UpsertKey(s, key, x);
      var n := FirstIndexKey(s, key, key(x));
      assert forall j :: 0 <= j < |s| ==> key(r[j]) == key(s[j]) by {
        forall j | 0 <= j < |s|
          ensures key(r[j]) == key(s[j])
        {
          if j == n {
            assert r[j] == x;
          }
        }
      }
      assert n < 0 ==> key(r[|s|]) != k2;
      var i := FirstIndexKey(s, key, k2);
      FirstIndexKeyUnique(r, key, k2, i);
    }
  }

  /** Upserting an element whose key no element carries appends it. */
  lemma UpsertFresh<T, K>(s: seq<T>, key: T -> K, x: T)
    requires forall j :: 0 <= j < |s| ==> key(s[j]) != key(x)
    ensures UpsertKey(s, key, x) == s + [x]
  {
  }

  /** Appending an element with a fresh key keeps the keys unique. */
  lemma AppendKeepsUnique<T, K>(s: seq<T>, key: T -> K, x: T)
    requires UniqueKeys(s, key)
    requires forall j :: 0 <= j < |s| ==> key(s[j]) != key(x)
    ensures UniqueKeys(s + [x], key)
  {
  }

  // ------------------------------------------------------------ tabulate

  /** `[f(start), f(start + 1), ..., f(start + n - 1)]` */
  function Tabulate<T>(f: int -> T, start: int, n: nat): (r: seq<T>)
    ensures |r| == n
    ensures forall i :: 0 <= i < n ==> r[i] == f(start + i)
  {
    if n == 0 then [] else Tabulate(f, start, n - 1) + [f(start + n - 1)]
  }

  // ----------------------------------------------------------------- sort

  /** Largest key first. */
  ghost predicate NonIncreasing<T>(s: seq<T>, key: T -> int)
  {
    forall i, j :: 0 <= i < j < |s| ==> key(s[i]) >= key(s[j])
  }

  /**
   * Inserts `x` in front of the first element whose key is not larger:
   * `x` goes before the elements of equal key, which keeps a sort stable
   * when `x` came first.
   */
  function InsertDesc<T>(x: T, s: seq<T>, key: T -> int): (r: seq<T>)
    ensures |r| == |s| + 1
    ensures multiset(r) == multiset(s) + multiset{x}
  {
    if s == [] then [x]
    else if key(s[0]) > key(x) then
      assert s == [s[0]] + s[1..];
      [s[0]] + InsertDesc(x, s[1..], key)
    else [x] + s
  }

  lemma {:induction false} InsertDescSorted<T>(x: T, s: seq<T>, key: T -> int)
    requires NonIncreasing(s, key)
    ensures NonIncreasing(InsertDesc(x, s, key), key)
  {
    if s != [] && key(s[0]) > key(x) {
      var rest := InsertDesc(x, s[1..], key);
      InsertDescSorted(x, s[1..], key);
      forall j | 0 <= j < |rest|
        ensures key(s[0]) >= key(rest[j])
      {
        assert rest[j] in multiset(rest);
        if rest[j] != x {
          assert rest[j] in multiset(s[1..]);
          var m :| 0 <= m < |s[1..]| && s[1..][m] == rest[j];
          assert s[m + 1] == rest[j];
        }
      }
    }
  }

  /**
   * `[...s].sort((a, b) => key(b) - key(a))`: a stable sort, largest key
   * first (the ECMAScript sort is stable); `s` itself is not reordered.
   */
  function SortDescBy<T>(s: seq<T>, key: T -> int): (r: seq<T>)
    ensures |r| == |s|
    ensures multiset(r) == multiset(s)
    ensures NonIncreasing(r, key)
  {
    if s == [] then []
    else
      assert s == [s[0]] + s[1..];
      InsertDescSorted(s[0], SortDescBy(s[1..], key), key);
      InsertDesc(s[0], SortDescBy(s[1..], key), key)
  }

  /** The largest key in a non-empty sequence. */
  function MaxKey<T>(s: seq<T>, key: T -> int): (m: int)
    requires s != []
    ensures forall i :: 0 <= i < |s| ==> key(s[i]) <= m
    ensures exists i :: 0 <= i < |s| && key(s[i]) == m
  {
    if |s| == 1 then key(s[0])
    else
      var m := MaxKey(s[1..], key);
      if key(s[0]) >= m then key(s[0]) else m
  }

  /**
   * Stability at the front: the first element of the sorted sequence is the
   * earliest element carrying the largest key.
   */
  lemma {:induction false} SortDescHead<T>(s: seq<T>, key: T -> int)
    requires s != []
    ensures SortDescBy(s, key)[0] == s[FirstIndexKey(s, key, MaxKey(s, key))]
  {
    if |s| > 1 {
      var t := SortDescBy(s[1..], key);
      SortDescHead(s[1..], key);
      var j := FirstIndexKey(s[1..], key, MaxKey(s[1..], key));
      assert t[0] == s[j + 1];
    }
  }
}
