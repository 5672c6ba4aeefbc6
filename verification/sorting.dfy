/**
 Sorting of match positions, standing for Python's `list.sort()` and
 `sorted()` on lists of integers: an insertion sort specified by its result
 (same elements, ascending order) rather than by Timsort's internals.
 */
module Sorting {

  predicate Ascending(s: seq<int>) {
    forall i, j :: 0 <= i < j < |s| ==> s[i] <= s[j]
  }

  predicate StrictlyAscending(s: seq<int>) {
    forall i, j :: 0 <= i < j < |s| ==> s[i] < s[j]
  }

  /** No value occurs twice */
  predicate Distinct(s: seq<int>) {
    forall i, j :: 0 <= i < j < |s| ==> s[i] != s[j]
  }

  /** `[0, 1, ..., n - 1]`, Python's `list(range(n))` */
  function Range(n: nat): (r: seq<int>)
    ensures |r| == n
    ensures forall k :: 0 <= k < n ==> r[k] == k
  {
    seq(n, k => k)
  }

  /** Insert `x` in front of the first element that is not below it */
  function Insert(x: int, s: seq<int>): (r: seq<int>)
    ensures multiset(r) == multiset(s) + multiset{x}
    ensures Ascending(s) ==> Ascending(r)
    ensures StrictlyAscending(s) && x !in s ==> StrictlyAscending(r)
  {
    if |s| == 0 then [x]
    else if x <= s[0] then
      InFront(x, s);
      [x] + s
    else
      var rest := Insert(x, s[1..]);
      HeadBelowRest(s, x, rest);
      [s[0]] + rest
  }

  /** `x` placed in front of a sequence whose head is not below it */
  lemma InFront(x: int, s: seq<int>)
    requires |s| > 0 && x <= s[0]
    ensures multiset([x] + s) == multiset(s) + multiset{x}
    ensures Ascending(s) ==> Ascending([x] + s)
    ensures StrictlyAscending(s) && x !in s ==> StrictlyAscending([x] + s)
  {
    var r := [x] + s;
    if Ascending(s) {
      forall i, j | 0 <= i < j < |r| ensures r[i] <= r[j] {
        if i == 0 { assert s[0] <= s[j - 1]; }
      }
    }
    if StrictlyAscending(s) && x !in s {
      assert x != s[0];
      forall i, j | 0 <= i < j < |r| ensures r[i] < r[j] {
        if i == 0 { assert s[0] <= s[j - 1]; }
      }
    }
  }

  /** Keeping a head below `x` in front of the tail with `x` inserted */
  lemma HeadBelowRest(s: seq<int>, x: int, rest: seq<int>)
    requires |s| > 0 && s[0] < x
    requires multiset(rest) == multiset(s[1..]) + multiset{x}
    requires Ascending(s[1..]) ==> Ascending(rest)
    requires StrictlyAscending(s[1..]) && x !in s[1..] ==> StrictlyAscending(rest)
    ensures multiset([s[0]] + rest) == multiset(s) + multiset{x}
    ensures Ascending(s) ==> Ascending([s[0]] + rest)
    ensures StrictlyAscending(s) && x !in s ==> StrictlyAscending([s[0]] + rest)
  {
    assert s == [s[0]] + s[1..];
    if Ascending(s) {
      assert Ascending(s[1..]);
      forall k | 0 <= k < |rest| ensures s[0] <= rest[k] {
        RestAbove(s, x, rest, k);
      }
      ConsAscending(s[0], rest);
    }
    if StrictlyAscending(s) && x !in s {
      assert StrictlyAscending(s[1..]) && x !in s[1..];
      forall k | 0 <= k < |rest| ensures s[0] < rest[k] {
        RestAbove(s, x, rest, k);
      }
      ConsStrictlyAscending(s[0], rest);
    }
  }

  lemma ConsAscending(h: int, s: seq<int>)
    requires Ascending(s) && forall k :: 0 <= k < |s| ==> h <= s[k]
    ensures Ascending([h] + s)
  {
  }

  lemma ConsStrictlyAscending(h: int, s: seq<int>)
    requires StrictlyAscending(s) && forall k :: 0 <= k < |s| ==> h < s[k]
    ensures StrictlyAscending([h] + s)
  {
  }

  /** Every entry of the tail with `x` inserted lies above the head of an ascending `s` */
  lemma RestAbove(s: seq<int>, x: int, rest: seq<int>, k: nat)
    requires |s| > 0 && s[0] < x && k < |rest|
    requires multiset(rest) == multiset(s[1..]) + multiset{x}
    ensures Ascending(s) ==> s[0] <= rest[k]
    ensures StrictlyAscending(s) ==> s[0] < rest[k]
  {
    assert rest[k] in multiset(rest);
    if rest[k] != x {
      assert rest[k] in s[1..];
      var t :| 0 <= t < |s[1..]| && s[1..][t] == rest[k];
      assert s[t + 1] == rest[k];
    }
  }

  /** The elements of `s` in ascending order */
  function Sort(s: seq<int>): (r: seq<int>)
    ensures multiset(r) == multiset(s)
    ensures Ascending(r)
    ensures Distinct(s) ==> StrictlyAscending(r)
  {
    if |s| == 0 then []
    else
      var rest := Sort(s[1..]);
      DistinctHead(s, rest);
      Insert(s[0], rest)
  }

  /** A distinct sequence's tail is distinct, and its head is not among the tail's values */
  lemma DistinctHead(s: seq<int>, rest: seq<int>)
    requires |s| > 0 && multiset(rest) == multiset(s[1..])
    ensures multiset(s) == multiset(rest) + multiset{s[0]}
    ensures Distinct(s) ==> Distinct(s[1..]) && s[0] !in rest
  {
    assert s == [s[0]] + s[1..];
    if Distinct(s) {
      assert s[0] !in s[1..];
      assert s[0] !in multiset(rest);
    }
  }

  /** Sorting keeps exactly the values of `s`, each as often as before */
  lemma SortKeeps(s: seq<int>)
    ensures |Sort(s)| == |s|
    ensures forall x :: x in Sort(s) <==> x in s
  {
    var r := Sort(s);
    forall x ensures x in r <==> x in s {
      assert x in multiset(r) <==> x in multiset(s);
    }
    assert |r| == |multiset(r)| == |multiset(s)| == |s|;
  }

  /**
   A strictly ascending sequence holding exactly the values `0 .. n - 1` is
   `Range(n)`; used for the empty-pattern results.
   */
  lemma StrictlyAscendingIsRange(s: seq<int>, n: nat)
    requires StrictlyAscending(s)
    requires forall x :: x in s <==> 0 <= x < n
    ensures s == Range(n)
  {
    RangeFront(s, n, n);
    if |s| > n {
      assert s[n] in s;
      AscendingFloor(s, n);
    }
  }

  /** The first `k` entries of such a sequence are `0 .. k - 1` */
  lemma {:induction false} RangeFront(s: seq<int>, n: nat, k: nat)
    requires StrictlyAscending(s)
    requires forall x :: x in s <==> 0 <= x < n
    requires k <= n
    ensures k <= |s|
    ensures forall i :: 0 <= i < k ==> s[i] == i
  {
    if k > 0 {
      RangeFront(s, n, k - 1);
      var v := k - 1;
      assert v in s;
      var j :| 0 <= j < |s| && s[j] == v;
      assert j >= v;
      AscendingFloor(s, v);
    }
  }

  /** Strictly ascending naturals: the entry at `k` is at least `k` */
  lemma {:induction false} AscendingFloor(s: seq<int>, k: nat)
    requires StrictlyAscending(s) && k < |s|
    requires forall x :: x in s ==> 0 <= x
    ensures k <= s[k]
  {
    if k > 0 {
      AscendingFloor(s, k - 1);
    } else {
      assert s[0] in s;
    }
  }
}
