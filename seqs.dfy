/** Sequence building blocks for the catalog's queries: the first row that
    satisfies a condition, WHERE-style filtering, distinct keys (UNIQUE
    constraints), ORDER BY as a sort, reversal, and SQLite's LIMIT/OFFSET. */
module Seqs {

  datatype Option<+T> = None | Some(value: T)

  function Min(a: int, b: int): int { if a <= b then a else b }

  // ---------------------------------------------------------------------------
  // First match and filtering

  /** Position of the first element satisfying `p`, the row a `fetchone()`
      returns when the table is scanned in insertion order. */
  function IndexWhere<T>(s: seq<T>, p: T -> bool): (r: Option<nat>)
    ensures r.Some? ==> r.value < |s| && p(s[r.value])
    ensures r.Some? ==> forall j :: 0 <= j < r.value ==> !p(s[j])
    ensures r.None? ==> forall j :: 0 <= j < |s| ==> !p(s[j])
  {
    if s == [] then None
    else if p(s[0]) then Some(0)
    else match IndexWhere(s[1..], p)
      case None => None
      case Some(k) => Some(k + 1)
  }

  /** The rows of `s` satisfying `p`, in their original order. */
  function Filter<T(!new)>(s: seq<T>, p: T -> bool): (r: seq<T>)
    ensures |r| <= |s|
    ensures forall x :: x in r <==> x in s && p(x)
  {
    if s == [] then []
    else if p(s[0]) then [s[0]] + Filter(s[1..], p)
    else Filter(s[1..], p)
  }

  /** Appending one row changes a filter by that row alone. */
  lemma {:induction false} FilterAppend<T(!new)>(s: seq<T>, x: T, p: T -> bool)
    ensures Filter(s + [x], p) == Filter(s, p) + (if p(x) then [x] else [])
  {
    if s == [] {
      assert [x][1..] == [];
    } else {
      assert (s + [x])[1..] == s[1..] + [x];
      FilterAppend(s[1..], x, p);
    }
  }

  /** A filter that every row passes keeps the table as it is. */
  lemma {:induction false} FilterKeepsAll<T(!new)>(s: seq<T>, p: T -> bool)
    requires forall x :: x in s ==> p(x)
    ensures Filter(s, p) == s
  {
    if s != [] {
      FilterKeepsAll(s[1..], p);
    }
  }

  /** Two tables of the same length whose rows pass or fail `p` position by
      position keep the same number of rows. */
  lemma {:induction false} FilterSameVerdicts<T(!new)>(s: seq<T>, t: seq<T>, p: T -> bool)
    requires |s| == |t| && forall i :: 0 <= i < |s| ==> p(s[i]) == p(t[i])
    ensures |Filter(s, p)| == |Filter(t, p)|
  {
    if s != [] {
      FilterSameVerdicts(s[1..], t[1..], p);
    }
  }

  /** A filter that rejects exactly one row shortens the table by one. */
  lemma {:induction false} FilterDropsOne<T(!new)>(s: seq<T>, p: T -> bool, k: nat)
    requires k < |s| && !p(s[k])
    requires forall i :: 0 <= i < |s| && i != k ==> p(s[i])
    ensures |Filter(s, p)| == |s| - 1
  {
    if k == 0 {
      assert forall x :: x in s[1..] ==> p(x);
      FilterKeepsAll(s[1..], p);
    } else {
      FilterDropsOne(s[1..], p, k - 1);
    }
  }

  /** Rows of `s` that `f` maps to a value, mapped: an inner JOIN, or a
      filter that also projects. Every produced row comes from some row of
      `s`, and every row of `s` that `f` accepts is produced. */
  function FilterMap<T(!new), U(!new)>(s: seq<T>, f: T -> Option<U>): (r: seq<U>)
    ensures forall y :: y in r ==> exists x :: x in s && f(x) == Some(y)
    ensures forall x :: x in s && f(x).Some? ==> f(x).value in r
  {
    if s == [] then []
    else
      var rest := FilterMap(s[1..], f);
      assert forall x :: x in s[1..] ==> x in s;
      assert forall x :: x in s ==> x == s[0] || x in s[1..];
      match f(s[0])
      case None => rest
      case Some(y) => [y] + rest
  }

  /** The first row whose `key` is `k`: a `SELECT ... WHERE key = ?` with
      `fetchone()`. */
  function FindByKey<T, K(==)>(s: seq<T>, key: T -> K, k: K): (r: Option<T>)
    ensures r.Some? ==> r.value in s && key(r.value) == k
    ensures r.None? <==> forall i :: 0 <= i < |s| ==> key(s[i]) != k
  {
    if s == [] then None
    else if key(s[0]) == k then Some(s[0])
    else FindByKey(s[1..], key, k)
  }

  /** Under a UNIQUE key the lookup finds exactly the row holding that key. */
  lemma {:induction false} FindByUniqueKey<T, K>(s: seq<T>, key: T -> K, i: nat)
    requires Distinct(s, key) && i < |s|
    ensures FindByKey(s, key, key(s[i])) == Some(s[i])
  {
    if i > 0 {
      assert Distinct(s[1..], key) by {
        forall a, b | 0 <= a < b < |s[1..]| ensures key(s[1..][a]) != key(s[1..][b]) {
          assert s[1..][a] == s[a + 1] && s[1..][b] == s[b + 1];
        }
      }
      FindByUniqueKey(s[1..], key, i - 1);
    }
  }

  // ---------------------------------------------------------------------------
  // UNIQUE constraints

  /** No two rows of `s` share a `key`. */
  predicate Distinct<T, K(==)>(s: seq<T>, key: T -> K) {
    forall i, j :: 0 <= i < j < |s| ==> key(s[i]) != key(s[j])
  }

  /** Two rows of a unique column that share a key are the same row. */
  lemma DistinctSameKey<T, K>(s: seq<T>, key: T -> K, i: nat, j: nat)
    requires Distinct(s, key) && i < |s| && j < |s|
    ensures key(s[i]) == key(s[j]) ==> i == j
  {
  }

  /** An insert keeps a key unique when the new key is not taken. */
  lemma DistinctAppend<T, K>(s: seq<T>, x: T, key: T -> K)
    requires Distinct(s, key)
    requires forall y :: y in s ==> key(y) != key(x)
    ensures Distinct(s + [x], key)
  {
    forall i, j | 0 <= i < j < |s + [x]|
      ensures key((s + [x])[i]) != key((s + [x])[j])
    {
      if j == |s| {
        assert (s + [x])[i] == s[i] && s[i] in s;
      }
    }
  }

  /** An UPDATE that leaves the key column alone keeps the key unique. */
  lemma DistinctUpdate<T, K>(s: seq<T>, k: nat, x: T, key: T -> K)
    requires Distinct(s, key) && k < |s| && key(x) == key(s[k])
    ensures Distinct(s[k := x], key)
  {
  }

  /** A DELETE keeps a key unique. */
  lemma {:induction false} DistinctFilter<T(!new), K>(s: seq<T>, p: T -> bool, key: T -> K)
    requires Distinct(s, key)
    ensures Distinct(Filter(s, p), key)
  {
    if s != [] {
      var rest := Filter(s[1..], p);
      DistinctFilter(s[1..], p, key);
      if p(s[0]) {
        var r := [s[0]] + rest;
        forall i, j | 0 <= i < j < |r| ensures key(r[i]) != key(r[j]) {
          if i == 0 {
            assert r[j] in s[1..];
            var m :| 0 <= m < |s[1..]| && s[1..][m] == r[j];
            assert s[m + 1] == r[j];
          } else {
            assert r[i] == rest[i - 1] && r[j] == rest[j - 1];
          }
        }
      }
    }
  }

  // ---------------------------------------------------------------------------
  // ORDER BY

  ghost predicate Total<T(!new)>(leq: (T, T) -> bool) {
    forall a, b :: leq(a, b) || leq(b, a)
  }

  ghost predicate Transitive<T(!new)>(leq: (T, T) -> bool) {
    forall a, b, c :: leq(a, b) && leq(b, c) ==> leq(a, c)
  }

  /** Every earlier row comes before every later one under `leq`. */
  predicate Sorted<T>(s: seq<T>, leq: (T, T) -> bool) {
    forall i, j :: 0 <= i < j < |s| ==> leq(s[i], s[j])
  }

  /** A row of a sorted sequence that is not among its first `n` rows comes
      after each of them: LIMIT on an ordered result keeps the first rows. */
  lemma SortedPrefixFirst<T>(s: seq<T>, leq: (T, T) -> bool, n: nat, x: T)
    requires Sorted(s, leq) && n <= |s| && x in s && x !in s[..n]
    ensures forall y :: y in s[..n] ==> leq(y, x)
  {
    var k :| 0 <= k < |s| && s[k] == x;
    forall y | y in s[..n] ensures leq(y, x) {
      var i :| 0 <= i < n && s[..n][i] == y;
      assert s[i] == y;
    }
  }

  /** A row that precedes the first row of a sorted sequence precedes all of
      them. */
  lemma BelowSorted<T(!new)>(x: T, s: seq<T>, leq: (T, T) -> bool)
    requires Transitive(leq) && Sorted(s, leq) && s != [] && leq(x, s[0])
    ensures forall j :: 0 <= j < |s| ==> leq(x, s[j])
  {
    forall j | 0 <= j < |s| ensures leq(x, s[j]) {
      if j > 0 { assert leq(s[0], s[j]); }
    }
  }

  /** The head of a sorted sequence precedes every row of any rearrangement of
      its tail together with one more row that it also precedes. */
  lemma HeadBelowAll<T(!new)>(s: seq<T>, x: T, rest: seq<T>, leq: (T, T) -> bool)
    requires Sorted(s, leq) && s != [] && leq(s[0], x)
    requires multiset(rest) == multiset(s[1..]) + multiset{x}
    ensures forall j :: 0 <= j < |rest| ==> leq(s[0], rest[j])
  {
    forall j | 0 <= j < |rest| ensures leq(s[0], rest[j]) {
      var y := rest[j];
      assert y in multiset(rest);
      if y != x {
        assert y in multiset(s[1..]);
        var k :| 0 <= k < |s[1..]| && s[1..][k] == y;
        assert s[k + 1] == y;
      }
    }
  }

  /** Insertion of one row into an ordered result. */
  function Insert<T(!new)>(x: T, s: seq<T>, leq: (T, T) -> bool): (r: seq<T>)
    requires Total(leq) && Transitive(leq) && Sorted(s, leq)
    ensures Sorted(r, leq)
    ensures multiset(r) == multiset(s) + multiset{x}
  {
    if s == [] || leq(x, s[0]) then
      if s != [] then BelowSorted(x, s, leq); [x] + s else [x]
    else
      var rest := Insert(x, s[1..], leq);
      assert s == [s[0]] + s[1..];
      HeadBelowAll(s, x, rest, leq);
      [s[0]] + rest
  }

  /** `ORDER BY` as a stable insertion sort: the rows of `s`, ordered by `leq`. */
  function SortBy<T(!new)>(s: seq<T>, leq: (T, T) -> bool): (r: seq<T>)
    requires Total(leq) && Transitive(leq)
    ensures Sorted(r, leq)
    ensures multiset(r) == multiset(s)
  {
    if s == [] then []
    else
      assert s == [s[0]] + s[1..];
      Insert(s[0], SortBy(s[1..], leq), leq)
  }

  /** SQLite's BINARY collation on text: code point by code point, a proper
      prefix first. */
  predicate TextLeq(a: string, b: string) {
    a == [] || (b != [] && (a[0] < b[0] || (a[0] == b[0] && TextLeq(a[1..], b[1..]))))
  }

  lemma {:induction false} TextLeqTotal(a: string, b: string)
    ensures TextLeq(a, b) || TextLeq(b, a)
  {
    if a != [] && b != [] && a[0] == b[0] {
      TextLeqTotal(a[1..], b[1..]);
    }
  }

  lemma {:induction false} TextLeqTransitive(a: string, b: string, c: string)
    requires TextLeq(a, b) && TextLeq(b, c)
    ensures TextLeq(a, c)
  {
    if a != [] && b != [] && c != [] && a[0] == b[0] && b[0] == c[0] {
      TextLeqTransitive(a[1..], b[1..], c[1..]);
    }
  }

  // ---------------------------------------------------------------------------
  // reversed(...) and LIMIT / OFFSET

  /** Python's `reversed`: the last row first. */
  function Reverse<T>(s: seq<T>): (r: seq<T>)
    ensures |r| == |s|
    ensures forall i :: 0 <= i < |s| ==> r[i] == s[|s| - 1 - i]
    ensures multiset(r) == multiset(s)
  {
    if s == [] then []
    else
      assert s == [s[0]] + s[1..];
      Reverse(s[1..]) + [s[0]]
  }

  /** Rows skipped by `OFFSET offset` out of `n`: SQLite reads a negative
      offset as zero and cannot skip past the end. */
  function Skip(n: nat, offset: int): (k: nat)
    ensures k <= n
    ensures offset <= 0 ==> k == 0
    ensures 0 <= offset <= n ==> k == offset
  {
    if offset <= 0 then 0 else if offset < n then offset else n
  }

  /** `LIMIT limit OFFSET offset` over an ordered result: skip `Skip(|s|, offset)`
      rows, then keep at most `limit` of them; a negative limit keeps them all. */
  function Window<T>(s: seq<T>, limit: int, offset: int): (r: seq<T>)
    ensures Skip(|s|, offset) + |r| <= |s|
    ensures r == s[Skip(|s|, offset)..Skip(|s|, offset) + |r|]
    ensures limit >= 0 ==> |r| == Min(limit, |s| - Skip(|s|, offset))
    ensures limit < 0 ==> |r| == |s| - Skip(|s|, offset)
  {
    var k := Skip(|s|, offset);
    if limit < 0 || k + limit >= |s| then s[k..] else s[k..k + limit]
  }

  /** Two consecutive pages of `limit1` and `limit2` rows together are the page
      of `limit1 + limit2` rows at the first page's offset: OFFSET skips exactly
      the rows the earlier pages showed. */
  lemma WindowPages<T>(s: seq<T>, limit1: nat, limit2: nat, offset: nat)
    ensures Window(s, limit1, offset) + Window(s, limit2, offset + limit1)
            == Window(s, limit1 + limit2, offset)
  {
    var w1, w2 := Window(s, limit1, offset), Window(s, limit2, offset + limit1);
    var w := Window(s, limit1 + limit2, offset);
    if offset + limit1 >= |s| {
      assert |w2| == 0;
      assert |w1| == |w| == |s| - Skip(|s|, offset);
    } else {
      var k, m := offset, offset + limit1;
      assert w1 == s[k..m];
      assert w2 == s[m..m + |w2|];
      assert |w| == limit1 + |w2|;
      assert w == s[k..m + |w2|];
      SliceJoin(s, k, m, m + |w2|);
    }
  }

  /** Adjacent slices join into one. */
  lemma SliceJoin<T>(s: seq<T>, i: nat, j: nat, k: nat)
    requires i <= j <= k <= |s|
    ensures s[i..j] + s[j..k] == s[i..k]
  {
  }

  /** A window keeps only rows of its input, and keeps them in order. */
  lemma WindowKeeps<T>(s: seq<T>, limit: int, offset: int, leq: (T, T) -> bool)
    ensures forall x :: x in Window(s, limit, offset) ==> x in s
    ensures Sorted(s, leq) ==> Sorted(Window(s, limit, offset), leq)
  {
    var k := Skip(|s|, offset);
    var r := Window(s, limit, offset);
    assert forall i :: 0 <= i < |r| ==> r[i] == s[k + i];
  }

  /** Without LIMIT and OFFSET every row is kept. */
  lemma WindowAll<T>(s: seq<T>)
    ensures Window(s, -1, 0) == s
  {
  }
}
