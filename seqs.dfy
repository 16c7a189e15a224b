/** The collection queries the handlers ask of the document store, over a collection held
    in natural (insertion) order: first match, count, filter, delete one, sort and page. */
module Seqs {
  import opened Common

  /** `findOne(query)`: the index of the first document the query matches. */
  function FindFirst<T>(s: seq<T>, p: T -> bool): (r: Option<nat>)
    ensures r.Some? ==> r.value < |s| && p(s[r.value])
    ensures r.Some? ==> forall j :: 0 <= j < r.value ==> !p(s[j])
    ensures r.None? <==> forall j :: 0 <= j < |s| ==> !p(s[j])
  {
    if |s| == 0 then None
    else if p(s[0]) then Some(0)
    else match FindFirst(s[1..], p)
      case None => None
      case Some(i) => Some(i + 1)
  }

  /** `countDocuments(query)`. */
  function Count<T>(s: seq<T>, p: T -> bool): (n: nat)
    ensures n <= |s|
    ensures n == 0 <==> forall j :: 0 <= j < |s| ==> !p(s[j])
  {
    if |s| == 0 then 0 else (if p(s[0]) then 1 else 0) + Count(s[1..], p)
  }

  lemma {:induction false} CountAppend<T>(s: seq<T>, x: T, p: T -> bool)
    ensures Count(s + [x], p) == Count(s, p) + (if p(x) then 1 else 0)
  {
    if |s| > 0 {
      assert (s + [x])[1..] == s[1..] + [x];
      CountAppend(s[1..], x, p);
    } else {
      assert s + [x] == [x];
    }
  }

  /** `s` without its element at `i`: what deleting one document leaves. */
  function RemoveAt<T>(s: seq<T>, i: nat): (r: seq<T>)
    requires i < |s|
    ensures |r| == |s| - 1
    ensures forall j :: 0 <= j < i ==> r[j] == s[j]
    ensures forall j :: i <= j < |r| ==> r[j] == s[j + 1]
    ensures multiset(r) + multiset{s[i]} == multiset(s)
  {
    assert s == s[..i] + [s[i]] + s[i + 1..];
    s[..i] + s[i + 1..]
  }

  lemma {:induction false} CountRemoveAt<T>(s: seq<T>, i: nat, p: T -> bool)
    requires i < |s|
    ensures Count(RemoveAt(s, i), p) + (if p(s[i]) then 1 else 0) == Count(s, p)
  {
    if i > 0 {
      assert RemoveAt(s, i)[1..] == RemoveAt(s[1..], i - 1);
      CountRemoveAt(s[1..], i - 1, p);
    } else {
      assert RemoveAt(s, i) == s[1..];
    }
  }

  /** `find(query).toArray()`: the matching documents, in collection order. */
  function Filter<T>(s: seq<T>, p: T -> bool): (r: seq<T>)
    ensures |r| == Count(s, p)
    ensures forall k :: 0 <= k < |r| ==> r[k] in s && p(r[k])
    ensures forall j :: 0 <= j < |s| && p(s[j]) ==> s[j] in r
    ensures multiset(r) <= multiset(s)
  {
    if |s| == 0 then []
    else
      assert s == [s[0]] + s[1..];
      if p(s[0]) then [s[0]] + Filter(s[1..], p) else Filter(s[1..], p)
  }

  /** The order a `.sort()` produces: non-decreasing in `rank`. */
  predicate SortedBy<T>(s: seq<T>, rank: T -> int) {
    forall i, j :: 0 <= i < j < |s| ==> rank(s[i]) <= rank(s[j])
  }

  function InsertSorted<T>(x: T, s: seq<T>, rank: T -> int): (r: seq<T>)
    requires SortedBy(s, rank)
    ensures SortedBy(r, rank)
    ensures multiset(r) == multiset(s) + multiset{x}
    ensures |r| > 0 && (r[0] == x || (|s| > 0 && r[0] == s[0]))
  {
    if |s| == 0 then [x]
    else if rank(x) <= rank(s[0]) then [x] + s
    else
      var t := InsertSorted(x, s[1..], rank);
      assert s == [s[0]] + s[1..];
      assert rank(s[0]) <= rank(t[0]);
      [s[0]] + t
  }

  /** `.sort({ key: 1 })` with ascending `rank`; equal ranks keep collection order. */
  function SortBy<T>(s: seq<T>, rank: T -> int): (r: seq<T>)
    ensures SortedBy(r, rank)
    ensures multiset(r) == multiset(s)
  {
    if |s| == 0 then []
    else
      assert s == [s[0]] + s[1..];
      InsertSorted(s[0], SortBy(s[1..], rank), rank)
  }

  /** `.skip(skip).limit(limit)` with a positive limit. */
  function Window<T>(s: seq<T>, skip: nat, limit: nat): (r: seq<T>)
    requires limit > 0
    ensures |r| <= limit
    ensures skip >= |s| ==> r == []
    ensures skip < |s| ==> |r| == (if skip + limit <= |s| then limit else |s| - skip)
    ensures forall k :: 0 <= k < |r| ==> skip + k < |s| && r[k] == s[skip + k]
  {
    if skip >= |s| then [] else if skip + limit <= |s| then s[skip..skip + limit] else s[skip..]
  }

  /** A page of a sorted sequence is sorted. */
  lemma WindowKeepsSorted<T>(s: seq<T>, skip: nat, limit: nat, rank: T -> int)
    requires limit > 0
    ensures SortedBy(s, rank) ==> SortedBy(Window(s, skip, limit), rank)
  {
    var w := Window(s, skip, limit);
    if SortedBy(s, rank) {
      forall i, j | 0 <= i < j < |w| ensures rank(w[i]) <= rank(w[j]) {
        assert w[i] == s[skip + i] && w[j] == s[skip + j];
      }
    }
  }

  /** Sorting the matches of a query yields only documents of `s` that the query matches,
      as many as it counts. */
  lemma SortFilterMembers<T>(s: seq<T>, p: T -> bool, rank: T -> int)
    ensures var r := SortBy(Filter(s, p), rank);
      |r| == Count(s, p) && forall k :: 0 <= k < |r| ==> r[k] in s && p(r[k])
  {
    var matching := Filter(s, p);
    var r := SortBy(matching, rank);
    assert |r| == |multiset(r)| == |multiset(matching)| == |matching|;
    forall k | 0 <= k < |r| ensures r[k] in s && p(r[k]) {
      assert r[k] in multiset(matching);
    }
  }
}
