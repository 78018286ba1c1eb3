/** Sequence searches and sorting used by `Array.prototype.find`,
    `indexOf` and the stable `Array.prototype.sort`. */
module Seqs {
  import opened Wrappers

  /** `s.findIndex(p)`: the first index whose element satisfies `p`. */
  function FindFirst<T>(s: seq<T>, p: T -> bool): (r: Option<nat>)
    ensures r.Some? ==> r.value < |s| && p(s[r.value])
    ensures r.Some? ==> forall j :: 0 <= j < r.value ==> !p(s[j])
    ensures r.None? <==> forall j :: 0 <= j < |s| ==> !p(s[j])
  {
    if |s| == 0 then None
    else if p(s[0]) then Some(0)
    else
      match FindFirst(s[1..], p)
      case None => None
      case Some(i) => Some(i + 1)
  }

  /** `s.find(p)`: the first element satisfying `p`. */
  function Find<T>(s: seq<T>, p: T -> bool): (r: Option<T>)
    ensures r.Some? ==> r.value in s && p(r.value)
    ensures r.Some? ==> exists i :: 0 <= i < |s| && s[i] == r.value && forall j :: 0 <= j < i ==> !p(s[j])
    ensures r.None? <==> forall j :: 0 <= j < |s| ==> !p(s[j])
  {
    match FindFirst(s, p)
    case None => None
    case Some(i) => Some(s[i])
  }

  /** `s.filter(p)`. */
  function Filter<T>(s: seq<T>, p: T -> bool): (r: seq<T>)
    ensures |r| <= |s|
    ensures forall i :: 0 <= i < |r| ==> r[i] in s && p(r[i])
    ensures forall i :: 0 <= i < |s| && p(s[i]) ==> s[i] in r
    ensures multiset(r) <= multiset(s)
  {
    if |s| == 0 then []
    else
      var rest := Filter(s[1..], p);
      FilterStep(s[0], s[1..], rest, p);
      assert s == [s[0]] + s[1..];
      if p(s[0]) then [s[0]] + rest else rest
  }

  /** One step of `Filter`: the head is kept exactly when it passes. */
  lemma FilterStep<T>(x: T, t: seq<T>, rest: seq<T>, p: T -> bool)
    requires forall i :: 0 <= i < |rest| ==> rest[i] in t && p(rest[i])
    requires forall i :: 0 <= i < |t| && p(t[i]) ==> t[i] in rest
    requires multiset(rest) <= multiset(t)
    ensures var r := if p(x) then [x] + rest else rest;
      && (forall i :: 0 <= i < |r| ==> r[i] in [x] + t && p(r[i]))
      && (forall i :: 0 <= i < |[x] + t| && p(([x] + t)[i]) ==> ([x] + t)[i] in r)
      && multiset(r) <= multiset([x] + t)
  {
    var s := [x] + t;
    assert multiset(s) == multiset([x]) + multiset(t);
    assert forall i :: 0 < i < |s| ==> s[i] == t[i - 1];
    if p(x) {
      var r := [x] + rest;
      assert multiset(r) == multiset([x]) + multiset(rest);
      assert forall i :: 0 < i < |r| ==> r[i] == rest[i - 1];
    }
  }

  /** Filtering by a predicate every element meets keeps the whole sequence. */
  lemma {:induction false} FilterKeepsAll<T>(s: seq<T>, p: T -> bool)
    requires forall i :: 0 <= i < |s| ==> p(s[i])
    ensures Filter(s, p) == s
  {
    if |s| > 0 {
      FilterKeepsAll(s[1..], p);
    }
  }

  /** Filtering `x` followed by `s`: `x` is kept in front exactly when it
      satisfies `p`. */
  lemma FilterCons<T>(x: T, s: seq<T>, p: T -> bool)
    ensures Filter([x] + s, p) == if p(x) then [x] + Filter(s, p) else Filter(s, p)
  {
    assert ([x] + s)[1..] == s;
  }

  /** Filtering distributes over concatenation, so the kept elements stay in
      their order and with their multiplicity. */
  lemma {:induction false} FilterAppend<T>(a: seq<T>, b: seq<T>, p: T -> bool)
    ensures Filter(a + b, p) == Filter(a, p) + Filter(b, p)
  {
    if a == [] {
      assert a + b == b;
    } else {
      assert (a + b)[0] == a[0] && (a + b)[1..] == a[1..] + b;
      FilterAppend(a[1..], b, p);
    }
  }

  /** Ascending by `key`. */
  predicate SortedBy<T>(s: seq<T>, key: T -> real) {
    forall i, j :: 0 <= i < j < |s| ==> key(s[i]) <= key(s[j])
  }

  /** Inserts `x` before the first element whose key is not below `x`'s. */
  function InsertBy<T>(x: T, s: seq<T>, key: T -> real): (r: seq<T>)
    requires SortedBy(s, key)
    ensures SortedBy(r, key)
    ensures multiset(r) == multiset(s) + multiset{x}
    ensures |r| == |s| + 1
    ensures r[0] == x || (|s| > 0 && r[0] == s[0])
  {
    if |s| == 0 then [x]
    else if key(x) <= key(s[0]) then [x] + s
    else
      var rest := InsertBy(x, s[1..], key);
      assert s == [s[0]] + s[1..];
      [s[0]] + rest
  }

  /** `[...s].sort((a, b) => key(a) - key(b))`, an insertion sort that keeps
      equal keys in their original order. */
  function SortBy<T>(s: seq<T>, key: T -> real): (r: seq<T>)
    ensures SortedBy(r, key)
    ensures multiset(r) == multiset(s)
    ensures |r| == |s|
  {
    if |s| == 0 then []
    else
      assert s == [s[0]] + s[1..];
      InsertBy(s[0], SortBy(s[1..], key), key)
  }

  /** Inserting `x` puts it after every element of its own key. */
  lemma {:induction false} InsertByKeepsClass<T>(x: T, s: seq<T>, key: T -> real, p: T -> bool, k: real)
    requires SortedBy(s, key)
    requires forall y :: p(y) <==> key(y) == k
    ensures Filter(InsertBy(x, s, key), p) == if p(x) then [x] + Filter(s, p) else Filter(s, p)
  {
    if |s| == 0 {
      FilterCons(x, s, p);
    } else if key(x) <= key(s[0]) {
      FilterCons(x, s, p);
    } else {
      var rest := InsertBy(x, s[1..], key);
      InsertByKeepsClass(x, s[1..], key, p, k);
      FilterCons(s[0], rest, p);
    }
  }

  /** The sort is stable: the elements of any one key come out in the order
      they went in. */
  lemma {:induction false} SortByStable<T>(s: seq<T>, key: T -> real, p: T -> bool, k: real)
    requires forall y :: p(y) <==> key(y) == k
    ensures Filter(SortBy(s, key), p) == Filter(s, p)
  {
    if |s| > 0 {
      SortByStable(s[1..], key, p, k);
      InsertByKeepsClass(s[0], SortBy(s[1..], key), key, p, k);
    }
  }

  /** The head of a sorted permutation has the least key of the input. */
  lemma SortedHeadIsLeast<T>(s: seq<T>, key: T -> real, x: T)
    requires x in s
    ensures |SortBy(s, key)| > 0
    ensures key(SortBy(s, key)[0]) <= key(x)
  {
    var r := SortBy(s, key);
    assert x in multiset(s);
    assert x in multiset(r);
    var i :| 0 <= i < |r| && r[i] == x;
  }
}
