/** pandas' `groupby(key).size()` and `groupby(key)[col].sum()` on one key column:
    rows with a null key are dropped (dropna=True) and the groups come out in
    ascending key order (sort=True). The key order is a parameter so that the
    same primitive serves integer, string and pair keys. */
module Grouping {
  import opened Collections

  /** One output row of a group-by: the key and its count or sum. */
  datatype Group<K> = Group(key: K, total: nat)

  ghost predicate Ascending<K>(g: seq<Group<K>>, lt: (K, K) -> bool) {
    forall i, j :: 0 <= i < j < |g| ==> lt(g[i].key, g[j].key)
  }

  function GroupKey<K>(x: Group<K>): K { x.key }
  function GroupTotal<K>(x: Group<K>): int { x.total }
  function NegTotal<K>(x: Group<K>): int { -(x.total as int) }

  /** The keys that have a row. */
  function KeysOf<K>(g: seq<Group<K>>): set<K> {
    if g == [] then {} else {g[0].key} + KeysOf(g[1..])
  }

  /** The total of the row for k, or 0 when k has no row. */
  function TotalOf<K(==)>(g: seq<Group<K>>, k: K): nat {
    if g == [] then 0 else if g[0].key == k then g[0].total else TotalOf(g[1..], k)
  }

  function SumTotals<K>(g: seq<Group<K>>): nat {
    if g == [] then 0 else g[0].total + SumTotals(g[1..])
  }

  /** The non-null keys of a (key, weight) column pair. */
  function Present<K>(items: seq<(Option<K>, nat)>): set<K> {
    if items == [] then {}
    else (if items[0].0.Some? then {items[0].0.value} else {}) + Present(items[1..])
  }

  /** The sum of the weights of the rows whose key is k. */
  function Weight<K(==)>(items: seq<(Option<K>, nat)>, k: K): nat {
    if items == [] then 0
    else (if items[0].0 == Some(k) then items[0].1 else 0) + Weight(items[1..], k)
  }

  /** The sum of the weights of the rows whose key is not null. */
  function PresentWeight<K>(items: seq<(Option<K>, nat)>): nat {
    if items == [] then 0
    else (if items[0].0.Some? then items[0].1 else 0) + PresentWeight(items[1..])
  }

  lemma {:induction false} KeysOfIndex<K>(g: seq<Group<K>>, k: K)
    ensures k in KeysOf(g) <==> exists i :: 0 <= i < |g| && g[i].key == k
  {
    if g != [] {
      KeysOfIndex(g[1..], k);
      if k in KeysOf(g[1..]) {
        var i :| 0 <= i < |g[1..]| && g[1..][i].key == k;
        assert g[i + 1].key == k;
      }
      if exists i :: 0 <= i < |g| && g[i].key == k {
        var i :| 0 <= i < |g| && g[i].key == k;
        if i > 0 { assert g[1..][i - 1].key == k; }
      }
    }
  }

  /** A key outside a set that holds every key of a table has no row there. */
  lemma NotListed<K>(h: seq<Group<K>>, names: set<K>, k: K)
    requires forall j :: 0 <= j < |h| ==> h[j].key in names
    requires k !in names
    ensures k !in KeysOf(h)
  {
    KeysOfIndex(h, k);
  }

  lemma {:induction false} PresentIndex<K>(items: seq<(Option<K>, nat)>, k: K)
    ensures k in Present(items) <==> exists i :: 0 <= i < |items| && items[i].0 == Some(k)
  {
    if items != [] {
      PresentIndex(items[1..], k);
      if k in Present(items[1..]) {
        var i :| 0 <= i < |items[1..]| && items[1..][i].0 == Some(k);
        assert items[i + 1].0 == Some(k);
      }
      if exists i :: 0 <= i < |items| && items[i].0 == Some(k) {
        var i :| 0 <= i < |items| && items[i].0 == Some(k);
        if i > 0 { assert items[1..][i - 1].0 == Some(k); }
      }
    }
  }

  lemma {:induction false} AscendingBelow<K(!new)>(g: seq<Group<K>>, k: K, lt: (K, K) -> bool)
    requires StrictTotalOrder(lt) && Ascending(g, lt)
    requires g != [] && lt(k, g[0].key)
    ensures forall x :: x in KeysOf(g) ==> lt(k, x)
  {
    forall x | x in KeysOf(g) ensures lt(k, x) {
      KeysOfIndex(g, x);
      var i :| 0 <= i < |g| && g[i].key == x;
      if i > 0 { assert lt(g[0].key, g[i].key); }
    }
  }

  lemma {:induction false} AbsentTotal<K>(g: seq<Group<K>>, k: K)
    requires k !in KeysOf(g)
    ensures TotalOf(g, k) == 0
  {
    if g != [] { AbsentTotal(g[1..], k); }
  }

  /** Adds weight w to the row of k in an ascending table, inserting the row if new. */
  function Add<K(!new,==)>(g: seq<Group<K>>, k: K, w: nat, lt: (K, K) -> bool): (r: seq<Group<K>>)
    requires StrictTotalOrder(lt) && Ascending(g, lt)
    ensures Ascending(r, lt)
    ensures KeysOf(r) == KeysOf(g) + {k}
    ensures forall j :: TotalOf(r, j) == TotalOf(g, j) + (if j == k then w else 0)
    ensures SumTotals(r) == SumTotals(g) + w
    decreases |g|
  {
    if g == [] then [Group(k, w)]
    else if g[0].key == k then
      var r := [Group(k, g[0].total + w)] + g[1..];
      assert r[1..] == g[1..];
      r
    else if lt(k, g[0].key) then
      AscendingBelow(g, k, lt);
      assert k !in KeysOf(g);
      AbsentTotal(g, k);
      var r := [Group(k, w)] + g;
      assert r[1..] == g;
      assert forall j :: 0 < j < |r| ==> r[j].key in KeysOf(g) by {
        forall j | 0 < j < |r| ensures r[j].key in KeysOf(g) { KeysOfIndex(g, r[j].key); }
      }
      r
    else
      var t := Add(g[1..], k, w, lt);
      assert lt(g[0].key, k);
      var r := [g[0]] + t;
      assert r[1..] == t;
      assert forall x :: x in KeysOf(t) ==> lt(g[0].key, x) by {
        forall x | x in KeysOf(t) ensures lt(g[0].key, x) {
          if x != k {
            KeysOfIndex(g[1..], x);
            var i :| 0 <= i < |g[1..]| && g[1..][i].key == x;
            assert lt(g[0].key, g[i + 1].key);
          }
        }
      }
      assert forall j :: 0 < j < |r| ==> r[j].key in KeysOf(t) by {
        forall j | 0 < j < |r| ensures r[j].key in KeysOf(t) { KeysOfIndex(t, r[j].key); }
      }
      r
  }

  /** `groupby(key)[weight].sum()`: one row per non-null key, in ascending key order,
      whose total is the sum of that key's weights. */
  function Tally<K(!new,==)>(items: seq<(Option<K>, nat)>, lt: (K, K) -> bool): (r: seq<Group<K>>)
    requires StrictTotalOrder(lt)
    ensures Ascending(r, lt)
    ensures KeysOf(r) == Present(items)
    ensures forall k :: TotalOf(r, k) == Weight(items, k)
    ensures SumTotals(r) == PresentWeight(items)
  {
    if items == [] then []
    else
      var rest := Tally(items[1..], lt);
      match items[0].0
      case None => rest
      case Some(k) => Add(rest, k, items[0].1, lt)
  }

  /** With distinct keys, the total of a row is the row's own total. */
  lemma {:induction false} TotalOfAt<K>(g: seq<Group<K>>, i: nat)
    requires DistinctBy(g, GroupKey) && i < |g|
    ensures TotalOf(g, g[i].key) == g[i].total
  {
    if i > 0 {
      assert GroupKey(g[0]) != GroupKey(g[i]);
      TotalOfAt(g[1..], i - 1);
    }
  }

  lemma AscendingDistinct<K(!new)>(g: seq<Group<K>>, lt: (K, K) -> bool)
    requires StrictTotalOrder(lt) && Ascending(g, lt)
    ensures DistinctBy(g, GroupKey)
  {
    forall i, j | 0 <= i < j < |g| ensures GroupKey(g[i]) != GroupKey(g[j]) {
      assert lt(g[i].key, g[j].key);
    }
  }

  /** With distinct keys, there are as many rows as keys. */
  lemma {:induction false} DistinctCard<K>(g: seq<Group<K>>)
    requires DistinctBy(g, GroupKey)
    ensures |KeysOf(g)| == |g|
  {
    if g != [] {
      DistinctCard(g[1..]);
      KeysOfIndex(g[1..], g[0].key);
      forall i | 0 <= i < |g[1..]| ensures g[1..][i].key != g[0].key {
        assert GroupKey(g[0]) != GroupKey(g[i + 1]);
      }
      assert KeysOf(g) == {g[0].key} + KeysOf(g[1..]);
    }
  }

  // ---------------------------------------------------------------------
  // Counting: `groupby(key).size()` is the sum of a weight of 1 per row.

  /** The number of rows whose key is k. */
  function Occurrences<K(==)>(keys: seq<Option<K>>, k: K): nat {
    if keys == [] then 0 else (if keys[0] == Some(k) then 1 else 0) + Occurrences(keys[1..], k)
  }

  /** The non-null values of a key column. */
  function PresentKeys<K>(keys: seq<Option<K>>): set<K> {
    if keys == [] then {}
    else (if keys[0].Some? then {keys[0].value} else {}) + PresentKeys(keys[1..])
  }

  /** The number of rows whose key is not null. */
  function NonNull<K>(keys: seq<Option<K>>): (n: nat)
    ensures n <= |keys|
  {
    if keys == [] then 0 else (if keys[0].Some? then 1 else 0) + NonNull(keys[1..])
  }

  function Units<K>(keys: seq<Option<K>>): (r: seq<(Option<K>, nat)>) {
    if keys == [] then [] else [(keys[0], 1)] + Units(keys[1..])
  }

  lemma {:induction false} UnitsSpec<K>(keys: seq<Option<K>>)
    ensures Present(Units(keys)) == PresentKeys(keys)
    ensures forall k :: Weight(Units(keys), k) == Occurrences(keys, k)
    ensures PresentWeight(Units(keys)) == NonNull(keys)
  {
    if keys != [] {
      UnitsSpec(keys[1..]);
      assert Units(keys)[1..] == Units(keys[1..]);
    }
  }

  lemma {:induction false} PresentKeysOccur<K>(keys: seq<Option<K>>, k: K)
    ensures k in PresentKeys(keys) <==> Occurrences(keys, k) > 0
  {
    if keys != [] { PresentKeysOccur(keys[1..], k); }
  }

  lemma {:induction false} PresentKeysIndex<K>(keys: seq<Option<K>>, k: K)
    ensures k in PresentKeys(keys) <==> exists i :: 0 <= i < |keys| && keys[i] == Some(k)
  {
    if keys != [] {
      PresentKeysIndex(keys[1..], k);
      if k in PresentKeys(keys[1..]) {
        var i :| 0 <= i < |keys[1..]| && keys[1..][i] == Some(k);
        assert keys[i + 1] == Some(k);
      }
      if exists i :: 0 <= i < |keys| && keys[i] == Some(k) {
        var i :| 0 <= i < |keys| && keys[i] == Some(k);
        if i > 0 { assert keys[1..][i - 1] == Some(k); }
      }
    }
  }

  /** `groupby(key).size()`. */
  function GroupCount<K(!new,==)>(keys: seq<Option<K>>, lt: (K, K) -> bool): (r: seq<Group<K>>)
    requires StrictTotalOrder(lt)
  {
    Tally(Units(keys), lt)
  }

  /** The size table has one row per distinct non-null key, strictly ascending, each
      row counting the rows with that key (so at least one), and the counts add up to
      the number of non-null keys. */
  lemma GroupCountSpec<K(!new)>(keys: seq<Option<K>>, lt: (K, K) -> bool)
    requires StrictTotalOrder(lt)
    ensures Ascending(GroupCount(keys, lt), lt)
    ensures DistinctBy(GroupCount(keys, lt), GroupKey)
    ensures KeysOf(GroupCount(keys, lt)) == PresentKeys(keys)
    ensures |GroupCount(keys, lt)| == |PresentKeys(keys)|
    ensures forall i :: 0 <= i < |GroupCount(keys, lt)| ==>
              GroupCount(keys, lt)[i].total == Occurrences(keys, GroupCount(keys, lt)[i].key) > 0
    ensures SumTotals(GroupCount(keys, lt)) == NonNull(keys) <= |keys|
  {
    var g := GroupCount(keys, lt);
    UnitsSpec(keys);
    AscendingDistinct(g, lt);
    DistinctCard(g);
    forall i | 0 <= i < |g| ensures g[i].total == Occurrences(keys, g[i].key) > 0 {
      TotalOfAt(g, i);
      KeysOfIndex(g, g[i].key);
      PresentKeysOccur(keys, g[i].key);
    }
  }

  // ---------------------------------------------------------------------
  // `sort_values(...).head(n)` on a group table

  /** The first n rows of ANY permutation of a group table sorted by rank keep
      distinct keys, are rows of the table, are sorted, and no key left out ranks
      strictly before a key that was kept. */
  lemma TopGroups<K(!new)>(g: seq<Group<K>>, s: seq<Group<K>>, lt: (K, K) -> bool, rank: Group<K> -> int, n: nat)
    requires StrictTotalOrder(lt) && Ascending(g, lt)
    requires multiset(s) == multiset(g) && SortedByRank(s, rank)
    ensures |Head(s, n)| == Min(n, |g|)
    ensures SortedByRank(Head(s, n), rank)
    ensures DistinctBy(Head(s, n), GroupKey)
    ensures forall x :: x in Head(s, n) ==> x in g
    ensures forall i, j :: 0 <= i < |Head(s, n)| && 0 <= j < |g| && g[j].key !in KeysOf(Head(s, n)) ==>
              rank(Head(s, n)[i]) <= rank(g[j])
  {
    var h := Head(s, n);
    TopOfAnySort(g, s, rank, n);
    AscendingDistinct(g, lt);
    PermutationDistinct(g, s, GroupKey);
    PrefixDistinct(s, GroupKey, |h|);
    forall j | 0 <= j < |g| && g[j].key !in KeysOf(h) ensures g[j] !in h {
      KeysOfIndex(h, g[j].key);
    }
  }

  /** `groupby(key).size().sort_values(...).head(n)` for any sort that orders by rank:
      min(n, number of distinct keys) rows, distinct keys, each counted exactly, sorted,
      and no omitted key ranks strictly before a listed one. */
  lemma TopCounts<K(!new)>(keys: seq<Option<K>>, lt: (K, K) -> bool, s: seq<Group<K>>, rank: Group<K> -> int, n: nat)
    requires StrictTotalOrder(lt)
    requires multiset(s) == multiset(GroupCount(keys, lt)) && SortedByRank(s, rank)
    ensures |Head(s, n)| == Min(n, |PresentKeys(keys)|)
    ensures SortedByRank(Head(s, n), rank)
    ensures DistinctBy(Head(s, n), GroupKey)
    ensures forall i :: 0 <= i < |Head(s, n)| ==>
              Head(s, n)[i].key in PresentKeys(keys) && Head(s, n)[i].total == Occurrences(keys, Head(s, n)[i].key) > 0
    ensures forall i, k :: 0 <= i < |Head(s, n)| && k in PresentKeys(keys) && k !in KeysOf(Head(s, n)) ==>
              rank(Head(s, n)[i]) <= rank(Group(k, Occurrences(keys, k)))
  {
    var g := GroupCount(keys, lt);
    var h := Head(s, n);
    GroupCountSpec(keys, lt);
    TopGroups(g, s, lt, rank, n);
    forall i | 0 <= i < |h|
      ensures h[i].key in PresentKeys(keys) && h[i].total == Occurrences(keys, h[i].key) > 0
    {
      assert h[i] in g;
      var j :| 0 <= j < |g| && g[j] == h[i];
      KeysOfIndex(g, h[i].key);
    }
    forall i, k | 0 <= i < |h| && k in PresentKeys(keys) && k !in KeysOf(h)
      ensures rank(h[i]) <= rank(Group(k, Occurrences(keys, k)))
    {
      KeysOfIndex(g, k);
      var j :| 0 <= j < |g| && g[j].key == k;
      assert g[j] == Group(k, Occurrences(keys, k));
    }
  }
}
