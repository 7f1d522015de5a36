/**
 * Helpers for the SQL tables, which the model keeps as sequences of rows in
 * insertion order: `ORDER BY <key> DESC` as an insertion sort on a key, and
 * `LIMIT`/`OFFSET` as a slice.
 */
module Tables {

  /** The rows are in descending key order. */
  predicate SortedDesc<T>(s: seq<T>, key: T -> int)
  {
    forall i, j :: 0 <= i < j < |s| ==> key(s[i]) >= key(s[j])
  }

  /** Every row of `s` has a key of at most `b`. */
  predicate AllAtMost<T>(s: seq<T>, b: int, key: T -> int)
  {
    forall k :: 0 <= k < |s| ==> key(s[k]) <= b
  }

  /** A bound on every key carries over to any reordering of the rows. */
  lemma AtMostPerm<T>(s: seq<T>, t: seq<T>, b: int, key: T -> int)
    requires multiset(s) == multiset(t)
    requires AllAtMost(s, b, key)
    ensures AllAtMost(t, b, key)
  {
    forall k | 0 <= k < |t| ensures key(t[k]) <= b {
      assert t[k] in multiset(t);
      var j :| 0 <= j < |s| && s[j] == t[k];
    }
  }

  /** A row whose key bounds a sorted sequence can go in front of it. */
  lemma ConsSorted<T>(h: T, rest: seq<T>, key: T -> int)
    requires SortedDesc(rest, key) && AllAtMost(rest, key(h), key)
    ensures SortedDesc([h] + rest, key)
  {
    var r := [h] + rest;
    forall i, j | 0 <= i < j < |r| ensures key(r[i]) >= key(r[j]) {
      assert r[j] == rest[j - 1];
      if i > 0 {
        assert r[i] == rest[i - 1];
      }
    }
  }

  /** In a sorted sequence the first key bounds all the others. */
  lemma FirstBounds<T>(s: seq<T>, key: T -> int)
    requires SortedDesc(s, key) && s != []
    ensures AllAtMost(s, key(s[0]), key)
  {
    forall k | 0 <= k < |s| ensures key(s[k]) <= key(s[0]) {
      if k > 0 {
        assert key(s[0]) >= key(s[k]);
      }
    }
  }

  /** Inserts `x` into a descending sequence in front of the first smaller key. */
  function InsertDesc<T>(x: T, s: seq<T>, key: T -> int): (r: seq<T>)
    requires SortedDesc(s, key)
    ensures SortedDesc(r, key)
    ensures multiset(r) == multiset(s) + multiset{x}
  {
    if s == [] then [x]
    else if key(x) >= key(s[0]) then
      FirstBounds(s, key);
      ConsSorted(x, s, key);
      [x] + s
    else
      var tail := s[1..];
      assert s == [s[0]] + tail;
      var rest := InsertDesc(x, tail, key);
      FirstBounds(s, key);
      assert AllAtMost(tail + [x], key(s[0]), key);
      AtMostPerm(tail + [x], rest, key(s[0]), key);
      ConsSorted(s[0], rest, key);
      [s[0]] + rest
  }

  /** `ORDER BY key DESC`: the same rows, newest (largest key) first. */
  function SortDesc<T>(s: seq<T>, key: T -> int): (r: seq<T>)
    ensures SortedDesc(r, key)
    ensures multiset(r) == multiset(s)
    ensures |r| == |s|
  {
    if s == [] then []
    else
      assert s == [s[0]] + s[1..];
      var r := InsertDesc(s[0], SortDesc(s[1..], key), key);
      assert |r| == |multiset(r)|;
      r
  }

  /** SQL `LIMIT limit OFFSET offset` over an ordered result. */
  function Page<T>(s: seq<T>, offset: nat, limit: nat): (r: seq<T>)
    ensures |r| <= limit
    ensures offset >= |s| ==> r == []
    ensures offset < |s| ==> |r| == (if offset + limit < |s| then limit else |s| - offset)
    ensures forall k :: 0 <= k < |r| ==> offset + k < |s| && r[k] == s[offset + k]
  {
    if offset >= |s| then []
    else if offset + limit < |s| then s[offset..offset + limit]
    else s[offset..]
  }

  /** The rows satisfying `p`, in table order (a `WHERE` clause). */
  function Filter<T(!new)>(s: seq<T>, p: T -> bool): (r: seq<T>)
    ensures |r| <= |s|
    ensures forall x :: x in r <==> x in s && p(x)
    ensures forall k :: 0 <= k < |r| ==> p(r[k])
  {
    if s == [] then []
    else
      assert s == [s[0]] + s[1..];
      if p(s[0]) then [s[0]] + Filter(s[1..], p) else Filter(s[1..], p)
  }

  /** A filter keeps every passing row as often as it occurs and drops the others. */
  lemma {:induction false} FilterMultiset<T(!new)>(s: seq<T>, p: T -> bool)
    ensures forall x :: multiset(Filter(s, p))[x] == if p(x) then multiset(s)[x] else 0
  {
    if s != [] {
      assert s == [s[0]] + s[1..];
      FilterMultiset(s[1..], p);
    }
  }

  /** The positions of the rows that pass `p`. */
  function Positions<T>(s: seq<T>, p: T -> bool): set<int>
  {
    set k | 0 <= k < |s| && p(s[k])
  }

  /** A row added at the end adds its own position exactly when it passes. */
  lemma PositionsSnoc<T>(init: seq<T>, x: T, p: T -> bool)
    ensures Positions(init + [x], p) == Positions(init, p) + (if p(x) then {|init|} else {})
    ensures |init| !in Positions(init, p)
  {
    var s := init + [x];
    forall k | 0 <= k < |init| ensures s[k] == init[k] { }
  }

  /** A filter keeps as many rows as there are positions whose row passes. */
  lemma {:induction false} FilterSize<T(!new)>(s: seq<T>, p: T -> bool)
    ensures |Filter(s, p)| == |Positions(s, p)|
  {
    if s != [] {
      var init, x := s[..|s| - 1], s[|s| - 1];
      assert s == init + [x];
      FilterAppend(init, x, p);
      FilterSize(init, p);
      PositionsSnoc(init, x, p);
    }
  }

  /** Filtering a table that grew by one row. */
  lemma {:induction false} FilterAppend<T(!new)>(s: seq<T>, x: T, p: T -> bool)
    ensures Filter(s + [x], p) == Filter(s, p) + (if p(x) then [x] else [])
  {
    if s != [] {
      assert (s + [x])[1..] == s[1..] + [x];
      FilterAppend(s[1..], x, p);
    }
  }

  /** A filter that no row passes selects nothing. */
  lemma {:induction false} FilterNone<T(!new)>(s: seq<T>, p: T -> bool)
    requires forall x :: x in s ==> !p(x)
    ensures Filter(s, p) == []
  {
    if s != [] {
      assert s[0] in s;
      FilterNone(s[1..], p);
    }
  }

  /** A filter that keeps every row is the identity. */
  lemma {:induction false} FilterAll<T(!new)>(s: seq<T>, p: T -> bool)
    requires forall k :: 0 <= k < |s| ==> p(s[k])
    ensures Filter(s, p) == s
  {
    if s != [] {
      FilterAll(s[1..], p);
    }
  }

  /** A filter that rejects exactly one row deletes that row and keeps the others in order. */
  lemma {:induction false} FilterOutOne<T(!new)>(s: seq<T>, p: T -> bool, k: nat)
    requires k < |s| && !p(s[k])
    requires forall i :: 0 <= i < |s| && i != k ==> p(s[i])
    ensures Filter(s, p) == s[..k] + s[k + 1..]
  {
    var tail := s[1..];
    if k == 0 {
      FilterOutHead(s, p);
    } else {
      assert forall i :: 0 <= i < |tail| && i != k - 1 ==> p(tail[i]) by {
        forall i | 0 <= i < |tail| && i != k - 1 ensures p(tail[i]) {
          assert tail[i] == s[i + 1];
        }
      }
      FilterOutOne(tail, p, k - 1);
      KeepHead(s, p, tail[..k - 1] + tail[k..]);
      DeleteAtCons(s, k);
    }
  }

  /** Deleting a row other than the first commutes with taking the first row off. */
  lemma DeleteAtCons<T>(s: seq<T>, k: nat)
    requires 0 < k < |s|
    ensures s[..k] + s[k + 1..] == [s[0]] + (s[1..][..k - 1] + s[1..][k..])
  {
    assert s[..k] == [s[0]] + s[1..][..k - 1];
    assert s[k + 1..] == s[1..][k..];
  }

  /** The base case of FilterOutOne: only the first row is rejected. */
  lemma FilterOutHead<T(!new)>(s: seq<T>, p: T -> bool)
    requires s != [] && !p(s[0])
    requires forall i :: 0 < i < |s| ==> p(s[i])
    ensures Filter(s, p) == s[1..]
  {
    var tail := s[1..];
    assert forall i :: 0 <= i < |tail| ==> p(tail[i]) by {
      forall i | 0 <= i < |tail| ensures p(tail[i]) {
        assert tail[i] == s[i + 1];
      }
    }
    FilterAll(tail, p);
  }

  /** A kept first row stays in front of the filtered rest. */
  lemma KeepHead<T(!new)>(s: seq<T>, p: T -> bool, rest: seq<T>)
    requires s != [] && p(s[0]) && Filter(s[1..], p) == rest
    ensures Filter(s, p) == [s[0]] + rest
  {
  }

  /** No two rows share a key. */
  ghost predicate DistinctKeys<T, K>(s: seq<T>, key: T -> K)
  {
    forall i, j :: 0 <= i < j < |s| ==> key(s[i]) != key(s[j])
  }

  /** Deleting rows keeps the remaining keys distinct. */
  lemma {:induction false} FilterKeepsDistinct<T(!new), K>(s: seq<T>, key: T -> K, p: T -> bool)
    requires DistinctKeys(s, key)
    ensures DistinctKeys(Filter(s, p), key)
  {
    if s != [] {
      var rest := s[1..];
      assert DistinctKeys(rest, key) by {
        forall i, j | 0 <= i < j < |rest| ensures key(rest[i]) != key(rest[j]) {
          assert rest[i] == s[i + 1] && rest[j] == s[j + 1];
        }
      }
      FilterKeepsDistinct(rest, key, p);
      var f := Filter(rest, p);
      if p(s[0]) {
        forall k | 0 <= k < |f| ensures key(f[k]) != key(s[0]) {
          assert f[k] in rest;
          var m :| 0 <= m < |rest| && rest[m] == f[k];
          assert s[m + 1] == f[k];
        }
      }
    }
  }

  /** A filter and its complement split the rows between them. */
  lemma {:induction false} FilterComplement<T(!new)>(s: seq<T>, p: T -> bool, q: T -> bool)
    requires forall x :: q(x) == !p(x)
    ensures |Filter(s, p)| + |Filter(s, q)| == |s|
  {
    if s != [] {
      FilterComplement(s[1..], p, q);
    }
  }

  /** Every row of a page of the sorted rows is one of the rows. */
  lemma PageOfSorted<T>(s: seq<T>, key: T -> int, offset: nat, limit: nat)
    ensures forall k :: 0 <= k < |Page(SortDesc(s, key), offset, limit)| ==>
              Page(SortDesc(s, key), offset, limit)[k] in s
  {
    var sorted := SortDesc(s, key);
    var r := Page(sorted, offset, limit);
    forall k | 0 <= k < |r| ensures r[k] in s {
      assert r[k] in multiset(sorted);
    }
  }

  /** A first page at least as long as the rows holds each row as often as the rows do. */
  lemma FullPageOfSorted<T>(s: seq<T>, key: T -> int, offset: nat, limit: nat)
    ensures offset == 0 && limit >= |s| ==> multiset(Page(SortDesc(s, key), offset, limit)) == multiset(s)
  {
    if offset == 0 && limit >= |s| {
      assert Page(SortDesc(s, key), offset, limit) == SortDesc(s, key);
    }
  }

  /** The first page of a sorted result holds the largest keys: nothing left out ranks above it. */
  lemma TopOfSorted<T>(s: seq<T>, key: T -> int, limit: nat)
    ensures forall k, x :: 0 <= k < |Page(SortDesc(s, key), 0, limit)| && x in s && x !in Page(SortDesc(s, key), 0, limit) ==>
              key(Page(SortDesc(s, key), 0, limit)[k]) >= key(x)
  {
    var sorted := SortDesc(s, key);
    var r := Page(sorted, 0, limit);
    forall k, x | 0 <= k < |r| && x in s && x !in r ensures key(r[k]) >= key(x) {
      assert x in multiset(sorted);
      var m :| 0 <= m < |sorted| && sorted[m] == x;
      assert m >= |r|;
    }
  }

  /** Two filters that agree on every row select the same rows. */
  lemma {:induction false} FilterAgree<T(!new)>(s: seq<T>, p: T -> bool, q: T -> bool)
    requires forall k :: 0 <= k < |s| ==> p(s[k]) == q(s[k])
    ensures Filter(s, p) == Filter(s, q)
  {
    if s != [] {
      FilterAgree(s[1..], p, q);
    }
  }
}
