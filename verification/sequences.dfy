/**
 The list operations both repositories are built from: first match, filter,
 1-based pagination and removal of one position, each specified
 independently of how it is computed.
 */
module Sequences {
  import opened Outcomes

  function Min(a: int, b: int): int {
    if a <= b then a else b
  }

  /** `r` is `s` with some elements left out and the rest kept in order. */
  ghost predicate Subsequence<T>(r: seq<T>, s: seq<T>)
    decreases |s|
  {
    if |r| == 0 then true
    else if |s| == 0 then false
    else if r[0] == s[0] then Subsequence(r[1..], s[1..])
    else Subsequence(r, s[1..])
  }

  /** The position of the first element satisfying `p`, as `stream().filter(p).findFirst()` picks it. */
  function FirstIndex<T>(s: seq<T>, p: T -> bool): (r: Option<nat>)
    ensures r.None? <==> forall i :: 0 <= i < |s| ==> !p(s[i])
    ensures r.Some? ==> r.value < |s| && p(s[r.value])
    ensures r.Some? ==> forall j :: 0 <= j < r.value ==> !p(s[j])
  {
    if |s| == 0 then None
    else if p(s[0]) then Some(0)
    else
      match FirstIndex(s[1..], p)
      case None => None
      case Some(k) => Some(k + 1)
  }

  /** The elements of `s` that satisfy `p`, as `stream().filter(p).collect(toList())` yields them. */
  function Filter<T(!new)>(s: seq<T>, p: T -> bool): (r: seq<T>)
    ensures forall i :: 0 <= i < |r| ==> p(r[i])
    ensures forall i :: 0 <= i < |s| && p(s[i]) ==> s[i] in r
    ensures Subsequence(r, s)
  {
    if |s| == 0 then []
    else
      var rest := Filter(s[1..], p);
      assert s == [s[0]] + s[1..];
      assert forall i :: 1 <= i < |s| ==> s[i] == s[1..][i - 1];
      if p(s[0]) then
        assert ([s[0]] + rest)[1..] == rest;
        [s[0]] + rest
      else
        assert |rest| > 0 ==> rest[0] != s[0];
        rest
  }

  /** Each value is kept as often as it occurs in `s` when it satisfies `p`, and never otherwise. */
  lemma {:induction false} FilterCount<T(!new)>(s: seq<T>, p: T -> bool, x: T)
    ensures multiset(Filter(s, p))[x] == if p(x) then multiset(s)[x] else 0
  {
    if |s| > 0 {
      FilterCount(s[1..], p, x);
      FilterCons(s[0], s[1..], p);
      assert s == [s[0]] + s[1..];
    }
  }

  /** Filtering a list with a given head keeps the head exactly when it satisfies `p`. */
  lemma FilterCons<T(!new)>(x: T, s: seq<T>, p: T -> bool)
    ensures Filter([x] + s, p) == (if p(x) then [x] else []) + Filter(s, p)
  {
    assert ([x] + s)[1..] == s;
  }

  /** An element is kept exactly when it occurs in `s` and satisfies `p`. */
  lemma FilterMembership<T(!new)>(s: seq<T>, p: T -> bool, x: T)
    ensures x in Filter(s, p) <==> x in s && p(x)
  {
    FilterCount(s, p, x);
    assert x in Filter(s, p) <==> x in multiset(Filter(s, p));
    assert x in s <==> x in multiset(s);
  }

  /** Filtering commutes with concatenation, so the order of the kept elements is the order in `s`. */
  lemma {:induction false} FilterAppend<T(!new)>(a: seq<T>, b: seq<T>, p: T -> bool)
    ensures Filter(a + b, p) == Filter(a, p) + Filter(b, p)
  {
    if |a| == 0 {
      assert a + b == b;
    } else {
      assert (a + b)[1..] == a[1..] + b;
      FilterAppend(a[1..], b, p);
    }
  }

  /** The page `pageNumber` (counted from 1) of `pageSize` elements: skip `(pageNumber - 1) * pageSize`,
      then take at most `pageSize`; a negative skip or limit is refused as the stream library refuses it. */
  function Page<T>(s: seq<T>, pageNumber: int, pageSize: int): (r: Result<seq<T>>)
    ensures r.Failure? <==> pageSize < 0 || (pageNumber - 1) * pageSize < 0
    ensures r.Failure? ==> r.error == IllegalArgument
    ensures r.Success? ==>
              var offset := (pageNumber - 1) * pageSize;
              && |r.value| == (if offset >= |s| then 0 else Min(pageSize, |s| - offset))
              && forall k :: 0 <= k < |r.value| ==> r.value[k] == s[offset + k]
  {
    var skip := (pageNumber - 1) * pageSize;
    if skip < 0 || pageSize < 0 then Failure(IllegalArgument)
    else
      var start := Min(skip, |s|);
      Success(s[start .. Min(start + pageSize, |s|)])
  }

  /** Every element lies on the page its index says: the element at `q * pageSize + m`, with
      `0 <= m < pageSize`, is entry `m` of page `q + 1`. */
  lemma PageLocates<T>(s: seq<T>, pageSize: int, q: int, m: int)
    requires pageSize > 0 && q >= 0 && 0 <= m < pageSize && q * pageSize + m < |s|
    ensures Page(s, q + 1, pageSize).Success?
    ensures |Page(s, q + 1, pageSize).value| > m
    ensures Page(s, q + 1, pageSize).value[m] == s[q * pageSize + m]
  {
    assert (q + 1 - 1) * pageSize == q * pageSize;
    assert q * pageSize >= 0;
  }

  /** Pages 1 .. n of size `pageSize`, concatenated. */
  function Pages<T>(s: seq<T>, pageSize: nat, n: nat): seq<T> {
    if n == 0 then [] else Pages(s, pageSize, n - 1) + Page(s, n, pageSize).value
  }

  /** Reading pages 1 .. n in turn yields the first `n * pageSize` elements (or all of them). */
  lemma {:induction false} PagesArePrefix<T>(s: seq<T>, pageSize: nat, n: nat)
    ensures Pages(s, pageSize, n) == s[..Min(n * pageSize, |s|)]
  {
    if n > 0 {
      PagesArePrefix(s, pageSize, n - 1);
      var lo := Min((n - 1) * pageSize, |s|);
      var hi := Min(n * pageSize, |s|);
      assert n * pageSize == (n - 1) * pageSize + pageSize;
      assert Page(s, n, pageSize).value == s[lo..hi];
      assert s[..hi] == s[..lo] + s[lo..hi];
    }
  }

  /** `s` without its element at position `i`. */
  function RemoveAt<T>(s: seq<T>, i: nat): (r: seq<T>)
    requires i < |s|
    ensures |r| == |s| - 1
    ensures forall j :: 0 <= j < i ==> r[j] == s[j]
    ensures forall j :: i <= j < |r| ==> r[j] == s[j + 1]
    ensures multiset(r) == multiset(s) - multiset{s[i]}
  {
    assert s == s[..i] + [s[i]] + s[i + 1..];
    s[..i] + s[i + 1..]
  }
}
