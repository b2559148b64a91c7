/**
 * `DataFrame.groupby(key)` with pandas' default `sort=True`: the distinct
 * keys present in the rows, in ascending key order, and for each key the
 * rows that carry it, in their original order.
 */
module Grouping {
  import opened Seqs

  /** `less` is irreflexive, transitive and total on distinct values. */
  ghost predicate StrictTotalOrder<K(!new)>(less: (K, K) -> bool) {
    && (forall a :: !less(a, a))
    && (forall a, b, c :: less(a, b) && less(b, c) ==> less(a, c))
    && (forall a, b :: a != b ==> less(a, b) || less(b, a))
  }

  /** Strictly ascending: sorted and free of duplicates. */
  predicate StrictlySorted<K>(ks: seq<K>, less: (K, K) -> bool) {
    forall i, j :: 0 <= i < j < |ks| ==> less(ks[i], ks[j])
  }

  predicate Distinct<K(==)>(ks: seq<K>) {
    forall i, j :: 0 <= i < j < |ks| ==> ks[i] != ks[j]
  }

  /** The keys that occur in the rows. */
  function KeySet<T, K(==)>(rows: seq<T>, key: T -> K): set<K> {
    set i | 0 <= i < |rows| :: key(rows[i])
  }

  /** The rows whose key is `k`, in their original order (one group). */
  function Where<T(!new), K(==)>(rows: seq<T>, key: T -> K, k: K): (g: seq<T>)
    ensures forall i :: 0 <= i < |g| ==> key(g[i]) == k
    ensures |g| > 0 <==> k in KeySet(rows, key)
    ensures forall x :: multiset(g)[x] == if key(x) == k then multiset(rows)[x] else 0
  {
    var p := x => key(x) == k;
    FilterNonEmpty(rows, key, k, p);
    Filter(rows, p)
  }

  lemma FilterNonEmpty<T(!new), K>(rows: seq<T>, key: T -> K, k: K, p: T -> bool)
    requires forall x :: p(x) <==> key(x) == k
    ensures |Filter(rows, p)| > 0 <==> k in KeySet(rows, key)
  {
    var g := Filter(rows, p);
    if |g| > 0 {
      assert g[0] in rows;
      var i :| 0 <= i < |rows| && rows[i] == g[0];
      assert key(rows[i]) in KeySet(rows, key);
    }
    if k in KeySet(rows, key) {
      var i :| 0 <= i < |rows| && key(rows[i]) == k;
      assert rows[i] in g;
    }
  }

  /** Adds `k` to a strictly ascending key list unless it is already there. */
  function Insert<K(==,!new)>(k: K, ks: seq<K>, less: (K, K) -> bool): (r: seq<K>)
    requires StrictTotalOrder(less) && StrictlySorted(ks, less)
    ensures StrictlySorted(r, less)
    ensures forall x :: x in r <==> x == k || x in ks
  {
    if |ks| == 0 then [k]
    else if k == ks[0] then ks
    else if less(k, ks[0]) then [k] + ks
    else
      var rest := Insert(k, ks[1..], less);
      assert forall x :: x in rest ==> less(ks[0], x);
      [ks[0]] + rest
  }

  /** The group keys of `rows` in ascending order, each once. */
  function GroupKeys<T, K(==,!new)>(rows: seq<T>, key: T -> K, less: (K, K) -> bool): (ks: seq<K>)
    requires StrictTotalOrder(less)
    ensures StrictlySorted(ks, less)
    ensures forall k :: k in ks <==> k in KeySet(rows, key)
    ensures |ks| == |KeySet(rows, key)|
  {
    if |rows| == 0 then []
    else
      assert KeySet(rows, key) == {key(rows[0])} + KeySet(rows[1..], key);
      var ks := Insert(key(rows[0]), GroupKeys(rows[1..], key, less), less);
      DistinctListingSize(ks, KeySet(rows, key));
      ks
  }

  /** A duplicate-free listing of a set has as many entries as the set has elements. */
  lemma {:induction false} DistinctListingSize<K>(ks: seq<K>, s: set<K>)
    requires Distinct(ks)
    requires forall k :: k in ks <==> k in s
    ensures |ks| == |s|
  {
    if |ks| > 0 {
      var rest := s - {ks[0]};
      forall k ensures k in ks[1..] <==> k in rest {
        if k in ks[1..] {
          var j :| 0 <= j < |ks[1..]| && ks[1..][j] == k;
          assert ks[j + 1] == k;
        }
      }
      DistinctListingSize(ks[1..], rest);
    }
  }

  lemma SortedIsDistinct<K(!new)>(ks: seq<K>, less: (K, K) -> bool)
    requires StrictTotalOrder(less) && StrictlySorted(ks, less)
    ensures Distinct(ks)
  {
  }

  /** Group sizes over the keys `ks`. */
  function CountAcross<T(!new), K(==)>(rows: seq<T>, key: T -> K, ks: seq<K>): nat {
    if |ks| == 0 then 0 else |Where(rows, key, ks[0])| + CountAcross(rows, key, ks[1..])
  }

  /** Group sums of `f` over the keys `ks`. */
  function SumAcross<T(!new), K(==)>(rows: seq<T>, key: T -> K, ks: seq<K>, f: T -> real): real {
    if |ks| == 0 then 0.0 else SumOf(Where(rows, key, ks[0]), f) + SumAcross(rows, key, ks[1..], f)
  }

  lemma WhereCons<T(!new), K>(x: T, rest: seq<T>, key: T -> K, k: K)
    ensures Where([x] + rest, key, k) == (if key(x) == k then [x] else []) + Where(rest, key, k)
  {
    assert ([x] + rest)[0] == x;
    assert ([x] + rest)[1..] == rest;
  }

  lemma {:induction false} CountAcrossCons<T(!new), K>(x: T, rest: seq<T>, key: T -> K, ks: seq<K>)
    requires Distinct(ks)
    ensures CountAcross([x] + rest, key, ks) == (if key(x) in ks then 1 else 0) + CountAcross(rest, key, ks)
  {
    if |ks| > 0 {
      WhereCons(x, rest, key, ks[0]);
      CountAcrossCons(x, rest, key, ks[1..]);
      assert key(x) == ks[0] ==> key(x) !in ks[1..];
      assert key(x) in ks <==> key(x) == ks[0] || key(x) in ks[1..];
    }
  }

  lemma {:induction false} SumAcrossCons<T(!new), K>(x: T, rest: seq<T>, key: T -> K, ks: seq<K>, f: T -> real)
    requires Distinct(ks)
    ensures SumAcross([x] + rest, key, ks, f) == (if key(x) in ks then f(x) else 0.0) + SumAcross(rest, key, ks, f)
  {
    if |ks| > 0 {
      WhereCons(x, rest, key, ks[0]);
      SumOfAppend(if key(x) == ks[0] then [x] else [], Where(rest, key, ks[0]), f);
      SumAcrossCons(x, rest, key, ks[1..], f);
      assert key(x) == ks[0] ==> key(x) !in ks[1..];
      assert key(x) in ks <==> key(x) == ks[0] || key(x) in ks[1..];
    }
  }

  /**
   * The groups partition the rows: over distinct keys that cover every key
   * present, the group sizes add up to the number of rows.
   */
  lemma {:induction false} GroupSizesPartition<T(!new), K>(rows: seq<T>, key: T -> K, ks: seq<K>)
    requires Distinct(ks)
    requires forall i :: 0 <= i < |rows| ==> key(rows[i]) in ks
    ensures CountAcross(rows, key, ks) == |rows|
  {
    if |rows| == 0 {
      CountAcrossEmpty(rows, key, ks);
    } else {
      assert rows == [rows[0]] + rows[1..];
      CountAcrossCons(rows[0], rows[1..], key, ks);
      GroupSizesPartition(rows[1..], key, ks);
    }
  }

  /** Likewise the group sums of any column add up to the column's total. */
  lemma {:induction false} GroupSumsPartition<T(!new), K>(rows: seq<T>, key: T -> K, ks: seq<K>, f: T -> real)
    requires Distinct(ks)
    requires forall i :: 0 <= i < |rows| ==> key(rows[i]) in ks
    ensures SumAcross(rows, key, ks, f) == SumOf(rows, f)
  {
    if |rows| == 0 {
      SumAcrossEmpty(rows, key, ks, f);
    } else {
      assert rows == [rows[0]] + rows[1..];
      SumAcrossCons(rows[0], rows[1..], key, ks, f);
      GroupSumsPartition(rows[1..], key, ks, f);
    }
  }

  lemma {:induction false} CountAcrossEmpty<T(!new), K>(rows: seq<T>, key: T -> K, ks: seq<K>)
    requires |rows| == 0
    ensures CountAcross(rows, key, ks) == 0
  {
    if |ks| > 0 {
      CountAcrossEmpty(rows, key, ks[1..]);
    }
  }

  lemma {:induction false} SumAcrossEmpty<T(!new), K>(rows: seq<T>, key: T -> K, ks: seq<K>, f: T -> real)
    requires |rows| == 0
    ensures SumAcross(rows, key, ks, f) == 0.0
  {
    if |ks| > 0 {
      SumAcrossEmpty(rows, key, ks[1..], f);
    }
  }

  /**
   * The number of distinct keys (`nunique`) never exceeds the number of
   * rows, and equals it exactly when no key repeats.
   */
  lemma {:induction false} DistinctCountBound<T, K>(rows: seq<T>, key: T -> K)
    ensures |KeySet(rows, key)| <= |rows|
    ensures |KeySet(rows, key)| == |rows| <==>
            forall i, j :: 0 <= i < j < |rows| ==> key(rows[i]) != key(rows[j])
  {
    if |rows| > 0 {
      var rest := rows[1..];
      DistinctCountBound(rest, key);
      assert KeySet(rows, key) == {key(rows[0])} + KeySet(rest, key);
      if key(rows[0]) in KeySet(rest, key) {
        // the first key repeats later: one key fewer than rows, and not all distinct
        var j :| 0 <= j < |rest| && key(rest[j]) == key(rows[0]);
        assert key(rows[0]) == key(rows[j + 1]);
      } else {
        assert |KeySet(rows, key)| == |KeySet(rest, key)| + 1;
        // all of rows distinct <==> all of rest distinct (the first key is new)
        if forall i, j :: 0 <= i < j < |rest| ==> key(rest[i]) != key(rest[j]) {
          forall i, j | 0 <= i < j < |rows| ensures key(rows[i]) != key(rows[j]) {
            assert key(rows[j]) == key(rest[j - 1]);
            if i > 0 {
              assert key(rows[i]) == key(rest[i - 1]);
            }
          }
        } else {
          var i, j :| 0 <= i < j < |rest| && key(rest[i]) == key(rest[j]);
          assert key(rows[i + 1]) == key(rows[j + 1]);
        }
      }
    }
  }
}
