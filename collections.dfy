/** Generic values and sequence operations shared by the dashboard model:
    Python's None as Option, raised exceptions as Result, dicts as item lists,
    Python's string order, boolean-mask filtering and sorting by a rank. */
module Collections {

  datatype Option<T> = None | Some(value: T)

  /** The exceptions the modelled code can raise. */
  datatype Error =
    | KeyError(key: string)
    | TypeError(message: string)
    | AttributeError(message: string)

  datatype Result<T> = Ok(value: T) | Err(error: Error) {
    predicate IsFailure() { Err? }
    function PropagateFailure<U>(): Result<U> requires Err? { Err(error) }
    function Extract(): T requires Ok? { value }
  }

  function Min(a: int, b: int): int { if a <= b then a else b }

  /** A Python dict as its items in insertion order. */
  type Dict<K, V> = seq<(K, V)>

  ghost predicate UniqueKeys<K, V>(d: Dict<K, V>) {
    forall i, j :: 0 <= i < j < |d| ==> d[i].0 != d[j].0
  }

  ghost predicate DistinctValues<K, V>(d: Dict<K, V>) {
    forall i, j :: 0 <= i < j < |d| ==> d[i].1 != d[j].1
  }

  /** `d.get(k)`: the value stored under k. */
  function Lookup<K(==), V>(d: Dict<K, V>, k: K): (r: Option<V>)
    ensures r.Some? <==> exists i :: 0 <= i < |d| && d[i].0 == k
  {
    if d == [] then None
    else if d[0].0 == k then Some(d[0].1)
    else Lookup(d[1..], k)
  }

  /** `{v: k for k, v in d.items()}.get(v)`: later items overwrite earlier ones,
      so the key is the last one whose value is v. */
  function InverseLookup<K, V(==)>(d: Dict<K, V>, v: V): (r: Option<K>)
    ensures r.Some? <==> exists i :: 0 <= i < |d| && d[i].1 == v
    ensures r.Some? ==> exists i :: 0 <= i < |d| && d[i] == (r.value, v)
  {
    if d == [] then None
    else if d[|d| - 1].1 == v then Some(d[|d| - 1].0)
    else InverseLookup(d[..|d| - 1], v)
  }

  lemma {:induction false} LookupAt<K, V>(d: Dict<K, V>, i: nat)
    requires UniqueKeys(d) && i < |d|
    ensures Lookup(d, d[i].0) == Some(d[i].1)
  {
    if i > 0 {
      assert d[0].0 != d[i].0;
      LookupAt(d[1..], i - 1);
    }
  }

  /** Inverting a dict and looking the key up again gives the value back. */
  lemma InverseThenLookup<K, V>(d: Dict<K, V>, v: V)
    requires UniqueKeys(d) && InverseLookup(d, v).Some?
    ensures Lookup(d, InverseLookup(d, v).value) == Some(v)
  {
    var i :| 0 <= i < |d| && d[i] == (InverseLookup(d, v).value, v);
    LookupAt(d, i);
  }

  lemma {:induction false} InverseAt<K, V>(d: Dict<K, V>, i: nat)
    requires DistinctValues(d) && i < |d|
    ensures InverseLookup(d, d[i].1) == Some(d[i].0)
  {
    if i < |d| - 1 {
      assert d[|d| - 1].1 != d[i].1;
      InverseAt(d[..|d| - 1], i);
    }
  }

  /** With distinct values, looking a key up and inverting gives the key back. */
  lemma LookupThenInverse<K, V>(d: Dict<K, V>, k: K)
    requires UniqueKeys(d) && DistinctValues(d) && Lookup(d, k).Some?
    ensures InverseLookup(d, Lookup(d, k).value) == Some(k)
  {
    var i :| 0 <= i < |d| && d[i].0 == k;
    LookupAt(d, i);
    InverseAt(d, i);
  }

  // ---------------------------------------------------------------------
  // Orders

  ghost predicate StrictTotalOrder<K(!new)>(lt: (K, K) -> bool) {
    && (forall a :: !lt(a, a))
    && (forall a, b, c :: lt(a, b) && lt(b, c) ==> lt(a, c))
    && (forall a, b :: a == b || lt(a, b) || lt(b, a))
  }

  predicate IntLess(a: int, b: int) { a < b }

  /** Python's `<` on str: lexicographic by code point. */
  predicate StrLess(a: string, b: string)
    decreases |a|
  {
    if |a| == 0 then |b| > 0
    else if |b| == 0 then false
    else if a[0] != b[0] then a[0] < b[0]
    else StrLess(a[1..], b[1..])
  }

  /** Python's `<` on a pair of str (the order of a two-column group-by). */
  predicate PairLess(a: (string, string), b: (string, string)) {
    StrLess(a.0, b.0) || (a.0 == b.0 && StrLess(a.1, b.1))
  }

  lemma {:induction false} StrLessIrreflexive(a: string)
    ensures !StrLess(a, a)
    decreases |a|
  {
    if |a| > 0 { StrLessIrreflexive(a[1..]); }
  }

  lemma {:induction false} StrLessTransitive(a: string, b: string, c: string)
    requires StrLess(a, b) && StrLess(b, c)
    ensures StrLess(a, c)
    decreases |a|
  {
    if |a| > 0 && a[0] == b[0] && b[0] == c[0] {
      StrLessTransitive(a[1..], b[1..], c[1..]);
    }
  }

  lemma {:induction false} StrLessTotal(a: string, b: string)
    ensures a == b || StrLess(a, b) || StrLess(b, a)
    decreases |a|
  {
    if |a| > 0 && |b| > 0 && a[0] == b[0] {
      StrLessTotal(a[1..], b[1..]);
      if a[1..] == b[1..] {
        assert a == [a[0]] + a[1..] && b == [b[0]] + b[1..];
      }
    }
  }

  lemma IntLessOrder()
    ensures StrictTotalOrder(IntLess)
  {
  }

  lemma StrLessOrder()
    ensures StrictTotalOrder(StrLess)
  {
    forall a ensures !StrLess(a, a) { StrLessIrreflexive(a); }
    forall a, b, c | StrLess(a, b) && StrLess(b, c) ensures StrLess(a, c) {
      StrLessTransitive(a, b, c);
    }
    forall a, b ensures a == b || StrLess(a, b) || StrLess(b, a) { StrLessTotal(a, b); }
  }

  lemma PairLessOrder()
    ensures StrictTotalOrder(PairLess)
  {
    StrLessOrder();
  }

  // ---------------------------------------------------------------------
  // Boolean-mask filtering, `df[mask]`

  /** The elements of s satisfying p, in their original order. */
  function Keep<T>(s: seq<T>, p: T -> bool): (r: seq<T>)
    ensures |r| <= |s|
    ensures forall x :: x in r ==> x in s && p(x)
  {
    if s == [] then []
    else (if p(s[0]) then [s[0]] else []) + Keep(s[1..], p)
  }

  /** A column derived row by row, `df[col].map(f)`. */
  function MapSeq<T, U>(s: seq<T>, f: T -> U): (r: seq<U>)
    ensures |r| == |s|
    ensures forall i :: 0 <= i < |s| ==> r[i] == f(s[i])
  {
    if s == [] then [] else [f(s[0])] + MapSeq(s[1..], f)
  }

  /** a can be obtained from b by deleting elements. */
  predicate IsSubsequence<T(==)>(a: seq<T>, b: seq<T>)
    decreases |b|
  {
    if a == [] then true
    else if b == [] then false
    else (a[0] == b[0] && IsSubsequence(a[1..], b[1..])) || IsSubsequence(a, b[1..])
  }

  /** A mask filter keeps rows in input order. */
  lemma {:induction false} KeepIsSubsequence<T>(s: seq<T>, p: T -> bool)
    ensures IsSubsequence(Keep(s, p), s)
  {
    if s != [] {
      KeepIsSubsequence(s[1..], p);
      var k := Keep(s, p);
      if p(s[0]) {
        assert k[0] == s[0] && k[1..] == Keep(s[1..], p);
      } else {
        assert k == Keep(s[1..], p);
      }
    }
  }

  /** A mask filter keeps exactly the matching rows, as many times as they occur. */
  lemma {:induction false} KeepCount<T>(s: seq<T>, p: T -> bool)
    ensures forall x :: multiset(Keep(s, p))[x] == if p(x) then multiset(s)[x] else 0
  {
    if s != [] {
      KeepCount(s[1..], p);
      assert s == [s[0]] + s[1..];
      assert multiset(s) == multiset{s[0]} + multiset(s[1..]);
      assert multiset(Keep(s, p)) == (if p(s[0]) then multiset{s[0]} else multiset{}) + multiset(Keep(s[1..], p));
    }
  }

  /** A filter whose predicate holds everywhere is a pass-through. */
  lemma {:induction false} KeepAll<T>(s: seq<T>, p: T -> bool)
    requires forall i :: 0 <= i < |s| ==> p(s[i])
    ensures Keep(s, p) == s
  {
    if s != [] {
      KeepAll(s[1..], p);
    }
  }

  /** A filter whose predicate holds nowhere keeps nothing. */
  lemma {:induction false} KeepNone<T>(s: seq<T>, p: T -> bool)
    requires forall i :: 0 <= i < |s| ==> !p(s[i])
    ensures Keep(s, p) == []
  {
    if s != [] {
      KeepNone(s[1..], p);
    }
  }

  /** Two filters in a row are one filter by the conjunction. */
  lemma {:induction false} KeepKeep<T>(s: seq<T>, p: T -> bool, q: T -> bool, pq: T -> bool)
    requires forall x :: pq(x) == (p(x) && q(x))
    ensures Keep(Keep(s, p), q) == Keep(s, pq)
  {
    if s != [] {
      KeepKeep(s[1..], p, q, pq);
      var k1 := Keep(s[1..], p);
      if p(s[0]) {
        var k := [s[0]] + k1;
        assert Keep(s, p) == k && k[0] == s[0] && k[1..] == k1;
        assert Keep(k, q) == (if q(s[0]) then [s[0]] else []) + Keep(k1, q);
      } else {
        assert Keep(s, p) == k1;
        assert !pq(s[0]);
      }
    }
  }

  /** Filters with pointwise-equal predicates agree. */
  lemma {:induction false} KeepSame<T>(s: seq<T>, p: T -> bool, q: T -> bool)
    requires forall x :: p(x) == q(x)
    ensures Keep(s, p) == Keep(s, q)
  {
    if s != [] {
      KeepSame(s[1..], p, q);
    }
  }

  // ---------------------------------------------------------------------
  // Sorting by an integer rank, `sort_values`

  ghost predicate SortedByRank<T>(s: seq<T>, rank: T -> int) {
    forall i, j :: 0 <= i < j < |s| ==> rank(s[i]) <= rank(s[j])
  }

  function InsertByRank<T>(x: T, s: seq<T>, rank: T -> int): (r: seq<T>)
    requires SortedByRank(s, rank)
    ensures SortedByRank(r, rank)
    ensures multiset(r) == multiset(s) + multiset{x}
    ensures forall y :: y in r ==> y == x || y in s
  {
    if s == [] then [x]
    else if rank(x) <= rank(s[0]) then [x] + s
    else
      var t := InsertByRank(x, s[1..], rank);
      assert s == [s[0]] + s[1..];
      assert forall y :: y in t ==> rank(s[0]) <= rank(y);
      [s[0]] + t
  }

  /** One permutation of s ordered by rank (pandas' unstable sort may pick another;
      everything proved about the sorted result holds for every such permutation). */
  function SortByRank<T>(s: seq<T>, rank: T -> int): (r: seq<T>)
    ensures SortedByRank(r, rank)
    ensures multiset(r) == multiset(s)
  {
    if s == [] then []
    else
      assert s == [s[0]] + s[1..];
      InsertByRank(s[0], SortByRank(s[1..], rank), rank)
  }

  /** `head(n)`. */
  function Head<T>(s: seq<T>, n: nat): (r: seq<T>)
    ensures |r| == Min(n, |s|)
    ensures r == s[..|r|]
  {
    s[..Min(n, |s|)]
  }

  ghost predicate DistinctBy<T, K>(s: seq<T>, key: T -> K) {
    forall i, j :: 0 <= i < j < |s| ==> key(s[i]) != key(s[j])
  }

  lemma {:induction false} DistinctOnce<T, K>(s: seq<T>, key: T -> K, p: nat)
    requires DistinctBy(s, key) && p < |s|
    ensures multiset(s)[s[p]] == 1
  {
    assert s == [s[0]] + s[1..];
    if p == 0 {
      forall q | 0 <= q < |s[1..]| ensures s[1..][q] != s[0] {
        assert key(s[0]) != key(s[q + 1]);
      }
      assert s[0] !in s[1..];
    } else {
      assert key(s[0]) != key(s[p]);
      DistinctOnce(s[1..], key, p - 1);
    }
  }

  lemma TwiceCounted<T>(s: seq<T>, i: nat, j: nat)
    requires i < j < |s| && s[i] == s[j]
    ensures multiset(s)[s[i]] >= 2
  {
    assert s == s[..j] + [s[j]] + s[j + 1..];
    assert s[i] in s[..j];
  }

  /** A permutation of a sequence with distinct keys has distinct keys. */
  lemma PermutationDistinct<T, K>(a: seq<T>, b: seq<T>, key: T -> K)
    requires multiset(a) == multiset(b) && DistinctBy(a, key)
    ensures DistinctBy(b, key)
  {
    forall i, j | 0 <= i < j < |b| ensures key(b[i]) != key(b[j]) {
      if key(b[i]) == key(b[j]) {
        assert b[i] in multiset(a) && b[j] in multiset(a);
        var p :| 0 <= p < |a| && a[p] == b[i];
        var q :| 0 <= q < |a| && a[q] == b[j];
        assert p == q;
        TwiceCounted(b, i, j);
        DistinctOnce(a, key, p);
        assert false;
      }
    }
  }

  lemma PrefixDistinct<T, K>(s: seq<T>, key: T -> K, n: nat)
    requires DistinctBy(s, key) && n <= |s|
    ensures DistinctBy(s[..n], key)
  {
  }

  /** The first n rows of ANY permutation s of g sorted by rank: at most n rows,
      exactly min(n, |g|), all taken from g, still sorted, and no row of g left out
      ranks strictly before a row that was kept. */
  lemma TopOfAnySort<T>(g: seq<T>, s: seq<T>, rank: T -> int, n: nat)
    requires multiset(s) == multiset(g) && SortedByRank(s, rank)
    ensures |Head(s, n)| == Min(n, |g|)
    ensures SortedByRank(Head(s, n), rank)
    ensures forall x :: x in Head(s, n) ==> x in g
    ensures forall i, j :: 0 <= i < |Head(s, n)| && 0 <= j < |g| && g[j] !in Head(s, n) ==>
              rank(Head(s, n)[i]) <= rank(g[j])
  {
    var h := Head(s, n);
    assert |s| == |multiset(s)| == |g|;
    forall x | x in h ensures x in g {
      assert x in multiset(s);
      assert x in multiset(g);
    }
    forall i, j | 0 <= i < |h| && 0 <= j < |g| && g[j] !in h ensures rank(h[i]) <= rank(g[j]) {
      assert g[j] in multiset(s);
      var p :| 0 <= p < |s| && s[p] == g[j];
      assert forall k :: 0 <= k < |h| ==> h[k] == s[k];
      assert i < p;
    }
  }
}
