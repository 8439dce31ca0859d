/**
 * Building an insertion-ordered map of lists in one pass, as the source does to group slots
 * by date (src/application/public-api.ts:207-208 and 336-337).
 */
module Grouping {
  import opened Sorting

  /** The items with one key, in their given order. */
  function Bucket<T, K(==)>(items: seq<T>, key: T -> K, k: K): seq<T> {
    if items == [] then []
    else Bucket(items[..|items| - 1], key, k) + if key(items[|items| - 1]) == k then [items[|items| - 1]] else []
  }

  lemma {:induction false} BucketCounts<T, K>(items: seq<T>, key: T -> K, k: K, x: T)
    ensures multiset(Bucket(items, key, k))[x] == if key(x) == k then multiset(items)[x] else 0
  {
    if items != [] {
      BucketCounts(items[..|items| - 1], key, k, x);
      assert items == items[..|items| - 1] + [items[|items| - 1]];
    }
  }

  lemma BucketHolds<T, K>(items: seq<T>, key: T -> K, k: K)
    ensures forall x :: x in Bucket(items, key, k) <==> x in items && key(x) == k
  {
    forall x ensures x in Bucket(items, key, k) <==> x in items && key(x) == k {
      BucketCounts(items, key, k, x);
      assert x in multiset(items) <==> x in items;
      assert x in multiset(Bucket(items, key, k)) <==> x in Bucket(items, key, k);
    }
  }

  lemma {:induction false} BucketConcat<T, K>(s: seq<T>, t: seq<T>, key: T -> K, k: K)
    ensures Bucket(s + t, key, k) == Bucket(s, key, k) + Bucket(t, key, k)
  {
    if t == [] {
      assert s + t == s;
    } else {
      var n := |t| - 1;
      BucketConcat(s, t[..n], key, k);
      assert (s + t)[..|s + t| - 1] == s + t[..n];
    }
  }

  function One<T, K(==)>(x: T, key: T -> K, k: K): multiset<T> { if key(x) == k then multiset{x} else multiset{} }

  lemma BucketInsert<T, K>(s: seq<T>, x: T, t: seq<T>, key: T -> K, k: K)
    ensures multiset(Bucket(s + [x] + t, key, k)) == multiset(Bucket(s + t, key, k)) + One(x, key, k)
  {
    BucketConcat(s, t, key, k);
    BucketConcat(s, [x], key, k);
    BucketConcat(s + [x], t, key, k);
    assert Bucket([x], key, k) == if key(x) == k then [x] else [];
  }

  lemma {:induction false} BucketPermutes<T, K>(a: seq<T>, b: seq<T>, key: T -> K, k: K)
    requires multiset(a) == multiset(b)
    ensures multiset(Bucket(a, key, k)) == multiset(Bucket(b, key, k))
  {
    assert |a| == |multiset(a)| == |multiset(b)| == |b|;
    if a != [] {
      var n := |a| - 1;
      var p, q := AroundLast(a, b);
      BucketPermutes(a[..n], p + q, key, k);
      BucketInsert(p, a[n], q, key, k);
      hide Bucket;
    }
  }

  lemma BucketStep<T, K>(items: seq<T>, key: T -> K, n: nat, k: K)
    requires n < |items|
    ensures Bucket(items[..n + 1], key, k) == Bucket(items[..n], key, k) + if key(items[n]) == k then [items[n]] else []
  {
    assert items[..n + 1][..n] == items[..n];
  }

  predicate Appears<T, K(==)>(items: seq<T>, key: T -> K, k: K) { exists i :: 0 <= i < |items| && key(items[i]) == k }

  /** One key turns up before the other. */
  predicate Precedes<T, K(==)>(items: seq<T>, key: T -> K, a: K, b: K) {
    exists i, j :: 0 <= i < j < |items| && key(items[i]) == a && key(items[j]) == b
  }

  /** The keys in order of appearance, and the items of each. */
  method GroupBy<T, K(==)>(items: seq<T>, key: T -> K) returns (order: seq<K>, groups: map<K, seq<T>>)
    ensures Distinct(order)
    ensures forall k :: k in order <==> k in groups
    ensures forall k :: k in groups <==> Appears(items, key, k)
    ensures forall k :: k in groups ==> groups[k] == Bucket(items, key, k)
    ensures forall i, j :: 0 <= i < j < |order| ==> Precedes(items, key, order[i], order[j])
  {
    hide Bucket, Appears, Precedes;
    order, groups := [], map[];
    forall k ensures !Appears(items[..0], key, k) && Bucket(items[..0], key, k) == [] {
      NothingYet(items[..0], key, k);
    }
    for n := 0 to |items|
      invariant Distinct(order)
      invariant forall k :: k in order <==> k in groups
      invariant forall k :: k in groups <==> Appears(items[..n], key, k)
      invariant forall k :: Bucket(items[..n], key, k) == if k in groups then groups[k] else []
      invariant forall i, j :: 0 <= i < j < |order| ==> Precedes(items[..n], key, order[i], order[j])
    {
      var k := key(items[n]);
      forall x
        ensures Bucket(items[..n + 1], key, x) == Bucket(items[..n], key, x) + if k == x then [items[n]] else []
      {
        BucketStep(items, key, n, x);
      }
      forall x ensures Appears(items[..n + 1], key, x) <==> x == k || Appears(items[..n], key, x) {
        LastAppears(items, key, n, x);
      }
      ghost var before := order;
      if k !in groups {
        order := order + [k];
      }
      forall i, j | 0 <= i < j < |order| ensures Precedes(items[..n + 1], key, order[i], order[j]) {
        assert order[i] == before[i];
        LastFollows(items, key, n, order[i], order[j]);
        assert order[i] in groups;
      }
      groups := groups[k := (if k in groups then groups[k] else []) + [items[n]]];
    }
    assert items[..|items|] == items;
  }

  lemma NothingYet<T, K>(items: seq<T>, key: T -> K, k: K)
    requires items == []
    ensures !Appears(items, key, k) && Bucket(items, key, k) == []
  {
  }

  lemma LastAppears<T, K>(items: seq<T>, key: T -> K, n: nat, x: K)
    requires n < |items|
    ensures Appears(items[..n + 1], key, x) <==> x == key(items[n]) || Appears(items[..n], key, x)
  {
    if Appears(items[..n], key, x) {
      var i :| 0 <= i < n && key(items[..n][i]) == x;
      assert items[..n + 1][i] == items[i];
    }
    assert items[..n + 1][n] == items[n];
    if Appears(items[..n + 1], key, x) && x != key(items[n]) {
      var i :| 0 <= i < n + 1 && key(items[..n + 1][i]) == x;
      assert items[..n][i] == items[i];
    }
  }

  lemma LastFollows<T, K>(items: seq<T>, key: T -> K, n: nat, a: K, b: K)
    requires n < |items|
    ensures Precedes(items[..n], key, a, b) ==> Precedes(items[..n + 1], key, a, b)
    ensures Appears(items[..n], key, a) ==> Precedes(items[..n + 1], key, a, key(items[n]))
  {
    if Precedes(items[..n], key, a, b) {
      var i, j :| 0 <= i < j < n && key(items[..n][i]) == a && key(items[..n][j]) == b;
      assert items[..n + 1][i] == items[i] && items[..n + 1][j] == items[j];
    }
    if Appears(items[..n], key, a) {
      var i :| 0 <= i < n && key(items[..n][i]) == a;
      assert items[..n + 1][i] == items[i] && items[..n + 1][n] == items[n];
    }
  }
}
