/**
 The suffix array of `src/suffix_array.py`: the start offsets of a text
 ordered by the suffixes they start, and the two binary searches that find
 the block of suffixes beginning with a query.
 */
module SuffixArray {
  import opened Strings
  import opened Sorting

  /** `T[i:]`; Python slicing yields the empty string past the end */
  function Suffix(T: string, i: nat): string {
    if i <= |T| then T[i..] else []
  }

  /** The suffixes started by the entries of `sa` strictly increase */
  ghost predicate SortedBySuffix(T: string, sa: seq<nat>) {
    forall i, j :: 0 <= i < j < |sa| ==> Less(Suffix(T, sa[i]), Suffix(T, sa[j]))
  }

  /** `sa` is the suffix array of `T`: every offset `0 .. |T| - 1` once, in suffix order */
  ghost predicate IsSuffixArray(T: string, sa: seq<nat>) {
    && |sa| == |T|
    && (forall k :: 0 <= k < |sa| ==> sa[k] < |T|)
    && (forall i :: 0 <= i < |T| ==> i in sa)
    && SortedBySuffix(T, sa)
  }

  /** Some entry of `sa` starts a suffix that begins with `q` */
  ghost predicate Found(T: string, sa: seq<nat>, q: string) {
    exists k :: 0 <= k < |sa| && IsPrefix(q, Suffix(T, sa[k]))
  }

  /** Suffixes at different offsets differ: they have different lengths */
  lemma SuffixesDiffer(T: string, x: nat, y: nat)
    requires x <= |T| && y <= |T| && x != y
    ensures Suffix(T, x) != Suffix(T, y)
  {
    assert |Suffix(T, x)| != |Suffix(T, y)|;
  }

  /** A suffix array has no repeated offset */
  lemma SuffixArrayDistinct(T: string, sa: seq<nat>)
    requires IsSuffixArray(T, sa)
    ensures Distinct(sa)
  {
    forall i, j | 0 <= i < j < |sa| ensures sa[i] != sa[j] {
      if sa[i] == sa[j] {
        LessIrreflexive(Suffix(T, sa[i]));
      }
    }
  }

  /**
   One step of the sort behind `suffixes.sort()`: insert offset `x` before the
   first entry whose suffix is above the suffix at `x`.
   */
  function InsertBySuffix(T: string, x: nat, s: seq<nat>): (r: seq<nat>)
    ensures |r| == |s| + 1
    ensures forall y :: y in r <==> y == x || y in s
    ensures
      && SortedBySuffix(T, s) && x <= |T| && x !in s
      && (forall k :: 0 <= k < |s| ==> s[k] <= |T|)
      ==> SortedBySuffix(T, r)
  {
    if |s| == 0 then [x]
    else if Less(Suffix(T, x), Suffix(T, s[0])) then
      InsertInFront(T, x, s);
      [x] + s
    else
      var rest := InsertBySuffix(T, x, s[1..]);
      assert s == [s[0]] + s[1..];
      InsertBehindHead(T, x, s, rest);
      [s[0]] + rest
  }

  lemma InsertInFront(T: string, x: nat, s: seq<nat>)
    requires |s| > 0 && Less(Suffix(T, x), Suffix(T, s[0]))
    ensures SortedBySuffix(T, s) ==> SortedBySuffix(T, [x] + s)
  {
    if SortedBySuffix(T, s) {
      var r := [x] + s;
      forall i, j | 0 <= i < j < |r| ensures Less(Suffix(T, r[i]), Suffix(T, r[j])) {
        if i == 0 && j > 1 {
          LessTransitive(Suffix(T, x), Suffix(T, s[0]), Suffix(T, s[j - 1]));
        }
      }
    }
  }

  lemma InsertBehindHead(T: string, x: nat, s: seq<nat>, rest: seq<nat>)
    requires |s| > 0 && !Less(Suffix(T, x), Suffix(T, s[0]))
    requires forall y :: y in rest <==> y == x || y in s[1..]
    requires
      && SortedBySuffix(T, s) && x <= |T| && x !in s
      && (forall k :: 0 <= k < |s| ==> s[k] <= |T|)
      ==> SortedBySuffix(T, rest)
    ensures
      && SortedBySuffix(T, s) && x <= |T| && x !in s
      && (forall k :: 0 <= k < |s| ==> s[k] <= |T|)
      ==> SortedBySuffix(T, [s[0]] + rest)
  {
    if && SortedBySuffix(T, s) && x <= |T| && x !in s
       && (forall k :: 0 <= k < |s| ==> s[k] <= |T|)
    {
      SuffixesDiffer(T, x, s[0]);
      LessTotal(Suffix(T, x), Suffix(T, s[0]));
      var r := [s[0]] + rest;
      forall i, j | 0 <= i < j < |r| ensures Less(Suffix(T, r[i]), Suffix(T, r[j])) {
        if i == 0 && r[j] != x {
          assert r[j] in s[1..];
          var t :| 0 <= t < |s[1..]| && s[1..][t] == r[j];
          assert s[t + 1] == r[j];
        }
      }
    }
  }

  /**
   `build_suffix_array(T)`: the offsets `0 .. |T| - 1` sorted by the suffixes
   they start. Suffixes at different offsets never tie, so sorting the pairs
   `(T[i:], i)` orders them by suffix alone.
   */
  method BuildSuffixArray(T: string) returns (sa: seq<nat>)
    ensures IsSuffixArray(T, sa)
  {
    sa := [];
    var i := 0;
    while i < |T|
      invariant i <= |T|
      invariant |sa| == i
      invariant forall y :: y in sa <==> 0 <= y < i
      invariant SortedBySuffix(T, sa)
    {
      assert forall k :: 0 <= k < |sa| ==> sa[k] in sa;
      sa := InsertBySuffix(T, i, sa);
      i := i + 1;
    }
    assert forall k :: 0 <= k < |sa| ==> sa[k] in sa;
  }

  /**
   First loop of `search_array`: the smallest index whose suffix starts with
   `q` or lies above `q`. `maxPrefix` is the longest common prefix of `q`
   with a probed suffix.
   */
  method LowerBound(T: string, sa: seq<nat>, q: string) returns (first: nat, maxPrefix: nat)
    ensures first <= |sa| && maxPrefix <= |q|
    ensures first < |sa| && IsPrefix(q, Suffix(T, sa[first])) ==> maxPrefix == |q|
    ensures maxPrefix == |q| && q != [] ==> Found(T, sa, q)
    ensures SortedBySuffix(T, sa) ==> forall k :: 0 <= k < first ==> Less(Suffix(T, sa[k]), q)
    ensures SortedBySuffix(T, sa) ==> forall k :: first <= k < |sa| ==> !Less(Suffix(T, sa[k]), q)
  {
    maxPrefix := 0;
    var left, right := 0, |sa|;
    while left < right
      invariant 0 <= left <= right <= |sa|
      invariant maxPrefix <= |q|
      invariant right < |sa| && IsPrefix(q, Suffix(T, sa[right])) ==> maxPrefix == |q|
      invariant maxPrefix == |q| && q != [] ==> Found(T, sa, q)
      invariant SortedBySuffix(T, sa) ==> forall k :: 0 <= k < left ==> Less(Suffix(T, sa[k]), q)
      invariant SortedBySuffix(T, sa) ==> forall k :: right <= k < |sa| ==> !Less(Suffix(T, sa[k]), q)
    {
      var mid := (left + right) / 2;
      var suffix := Suffix(T, sa[mid]);
      var prefixLen := CommonPrefixLength(q, suffix);
      if prefixLen > maxPrefix {
        maxPrefix := prefixLen;
      }
      if prefixLen == |q| {
        assert IsPrefix(q, suffix);
      }
      if IsPrefix(q, suffix) {
        PrefixNotBelow(q, suffix);
        AboveFromMid(T, sa, q, mid);
        right := mid;
      } else if Less(q, suffix) {
        LessAsymmetric(q, suffix);
        AboveFromMid(T, sa, q, mid);
        right := mid;
      } else {
        LessTotal(q, suffix);
        BelowUpToMid(T, sa, q, mid);
        left := mid + 1;
      }
    }
    first := left;
  }

  /** In sorted order, nothing from a suffix not below `q` onwards is below `q` */
  lemma AboveFromMid(T: string, sa: seq<nat>, q: string, mid: nat)
    requires mid < |sa| && !Less(Suffix(T, sa[mid]), q)
    ensures SortedBySuffix(T, sa) ==> forall k :: mid <= k < |sa| ==> !Less(Suffix(T, sa[k]), q)
  {
    if SortedBySuffix(T, sa) {
      forall k | mid < k < |sa| ensures !Less(Suffix(T, sa[k]), q) {
        if Less(Suffix(T, sa[k]), q) {
          LessTransitive(Suffix(T, sa[mid]), Suffix(T, sa[k]), q);
        }
      }
    }
  }

  /** In sorted order, everything up to a suffix below `q` is below `q` */
  lemma BelowUpToMid(T: string, sa: seq<nat>, q: string, mid: nat)
    requires mid < |sa| && Less(Suffix(T, sa[mid]), q)
    ensures SortedBySuffix(T, sa) ==> forall k :: 0 <= k <= mid ==> Less(Suffix(T, sa[k]), q)
  {
    if SortedBySuffix(T, sa) {
      forall k | 0 <= k < mid ensures Less(Suffix(T, sa[k]), q) {
        LessTransitive(Suffix(T, sa[k]), Suffix(T, sa[mid]), q);
      }
    }
  }

  /**
   Second loop of `search_array`: from `first`, the end of the block of
   suffixes that start with `q`.
   */
  method UpperBound(T: string, sa: seq<nat>, q: string, first: nat, maxIn: nat)
    returns (last: nat, maxPrefix: nat)
    requires first <= |sa| && maxIn <= |q|
    ensures first <= last <= |sa|
    ensures maxIn <= maxPrefix <= |q|
    ensures maxPrefix == |q| && maxIn < |q| ==> Found(T, sa, q)
    ensures
      SortedBySuffix(T, sa) && (forall k :: first <= k < |sa| ==> !Less(Suffix(T, sa[k]), q)) ==>
        && (forall k :: first <= k < last ==> IsPrefix(q, Suffix(T, sa[k])))
        && (forall k :: last <= k < |sa| ==> !IsPrefix(q, Suffix(T, sa[k])))
  {
    ghost var sorted := SortedBySuffix(T, sa) && (forall k :: first <= k < |sa| ==> !Less(Suffix(T, sa[k]), q));
    maxPrefix := maxIn;
    var left, right := first, |sa|;
    while left < right
      invariant first <= left <= right <= |sa|
      invariant maxIn <= maxPrefix <= |q|
      invariant maxPrefix == |q| && maxIn < |q| ==> Found(T, sa, q)
      invariant sorted ==> forall k :: first <= k < left ==> IsPrefix(q, Suffix(T, sa[k]))
      invariant sorted ==> forall k :: right <= k < |sa| ==> !IsPrefix(q, Suffix(T, sa[k]))
    {
      var mid := (left + right) / 2;
      var suffix := Suffix(T, sa[mid]);
      var prefixLen := CommonPrefixLength(q, suffix);
      if prefixLen > maxPrefix {
        maxPrefix := prefixLen;
      }
      if prefixLen == |q| {
        assert IsPrefix(q, suffix);
      }
      if IsPrefix(q, suffix) {
        PrefixBlockUpToMid(T, sa, q, first, mid);
        left := mid + 1;
      } else if Less(q, suffix) {
        LessAsymmetric(q, suffix);
        NoPrefixFromMid(T, sa, q, mid);
        right := mid;
      } else {
        LessTotal(q, suffix);
        left := mid + 1;
      }
    }
    last := right;
  }

  /** Between the lower bound and a suffix starting with `q`, all start with `q` */
  lemma PrefixBlockUpToMid(T: string, sa: seq<nat>, q: string, first: nat, mid: nat)
    requires first <= mid < |sa| && IsPrefix(q, Suffix(T, sa[mid]))
    ensures
      SortedBySuffix(T, sa) && (forall k :: first <= k < |sa| ==> !Less(Suffix(T, sa[k]), q)) ==>
        forall k :: first <= k <= mid ==> IsPrefix(q, Suffix(T, sa[k]))
  {
    if SortedBySuffix(T, sa) && (forall k :: first <= k < |sa| ==> !Less(Suffix(T, sa[k]), q)) {
      forall k | first <= k < mid ensures IsPrefix(q, Suffix(T, sa[k])) {
        LessAsymmetric(Suffix(T, sa[k]), Suffix(T, sa[mid]));
        PrefixInterval(q, Suffix(T, sa[k]), Suffix(T, sa[mid]));
      }
    }
  }

  /** Past a suffix above `q` that does not start with `q`, none starts with `q` */
  lemma NoPrefixFromMid(T: string, sa: seq<nat>, q: string, mid: nat)
    requires mid < |sa| && !Less(Suffix(T, sa[mid]), q) && !IsPrefix(q, Suffix(T, sa[mid]))
    ensures SortedBySuffix(T, sa) ==> forall k :: mid <= k < |sa| ==> !IsPrefix(q, Suffix(T, sa[k]))
  {
    if SortedBySuffix(T, sa) {
      forall k | mid < k < |sa| ensures !IsPrefix(q, Suffix(T, sa[k])) {
        LessAsymmetric(Suffix(T, sa[mid]), Suffix(T, sa[k]));
        if IsPrefix(q, Suffix(T, sa[k])) {
          PrefixInterval(q, Suffix(T, sa[mid]), Suffix(T, sa[k]));
        }
      }
    }
  }

  /**
   With a suffix array, the entries between the two bounds are exactly the
   occurrence positions of `q`.
   */
  lemma BlockIsOccurrences(T: string, sa: seq<nat>, q: string, first: nat, last: nat)
    requires IsSuffixArray(T, sa)
    requires first <= last <= |sa|
    requires forall k :: 0 <= k < first ==> Less(Suffix(T, sa[k]), q)
    requires forall k :: first <= k < last ==> IsPrefix(q, Suffix(T, sa[k]))
    requires forall k :: last <= k < |sa| ==> !IsPrefix(q, Suffix(T, sa[k]))
    ensures forall i :: i in sa[first..last] <==> 0 <= i < |T| && OccursAt(T, q, i)
  {
    forall i | i in sa[first..last] ensures 0 <= i < |T| && OccursAt(T, q, i) {
      var k :| first <= k < last && sa[k] == i;
      PrefixOfSuffixIsOccurrence(T, q, sa[k]);
    }
    forall i | 0 <= i < |T| && OccursAt(T, q, i) ensures i in sa[first..last] {
      assert i in sa;
      var k :| 0 <= k < |sa| && sa[k] == i;
      PrefixOfSuffixIsOccurrence(T, q, i);
      if k < first {
        PrefixNotBelow(q, Suffix(T, i));
      }
      assert sa[first..last][k - first] == i;
    }
  }

  /**
   Once the block between the two bounds is sorted into `positions`, they are
   the occurrences of `q`, each once.
   */
  lemma SearchOutcome(T: string, sa: seq<nat>, q: string, first: nat, last: nat, positions: seq<int>)
    requires IsSuffixArray(T, sa)
    requires first <= last <= |sa|
    requires forall k :: 0 <= k < first ==> Less(Suffix(T, sa[k]), q)
    requires forall k :: first <= k < last ==> IsPrefix(q, Suffix(T, sa[k]))
    requires forall k :: last <= k < |sa| ==> !IsPrefix(q, Suffix(T, sa[k]))
    requires multiset(positions) == multiset(sa[first..last])
    requires Distinct(sa[first..last]) ==> StrictlyAscending(positions)
    ensures StrictlyAscending(positions)
    ensures forall i :: i in positions <==> 0 <= i < |T| && OccursAt(T, q, i)
  {
    SuffixArrayDistinct(T, sa);
    assert Distinct(sa[first..last]);
    BlockIsOccurrences(T, sa, q, first, last);
    assert forall i :: i in positions <==> i in multiset(sa[first..last]);
  }

  /** The empty query occurs at every offset, so it returns `0 .. |T| - 1` */
  lemma EmptyQueryOutcome(T: string, positions: seq<int>)
    requires StrictlyAscending(positions)
    requires forall i :: i in positions <==> 0 <= i < |T| && OccursAt(T, [], i)
    ensures positions == Range(|T|)
  {
    forall i | 0 <= i < |T| ensures OccursAt(T, [], i) {}
    StrictlyAscendingIsRange(positions, |T|);
  }

  lemma MatchIffFullPrefix(T: string, sa: seq<nat>, q: string, first: nat, last: nat,
                           maxLow: nat, maxHigh: nat, positions: seq<int>)
    requires forall k :: 0 <= k < |sa| ==> sa[k] < |T|
    requires first <= last <= |sa| && maxLow <= maxHigh <= |q| && q != []
    requires forall k :: first <= k < last ==> IsPrefix(q, Suffix(T, sa[k]))
    requires first < |sa| && IsPrefix(q, Suffix(T, sa[first])) ==> maxLow == |q|
    requires maxLow == |q| ==> Found(T, sa, q)
    requires maxHigh == |q| && maxLow < |q| ==> Found(T, sa, q)
    requires forall i :: i in positions <==> i in multiset(sa[first..last])
    requires forall i :: i in positions <==> 0 <= i < |T| && OccursAt(T, q, i)
    ensures |positions| > 0 <==> maxHigh == |q|
  {
    if |positions| > 0 {
      var p0 := positions[0];
      assert p0 in positions;
      assert p0 in multiset(sa[first..last]);
    }
    if maxHigh == |q| {
      var k :| 0 <= k < |sa| && IsPrefix(q, Suffix(T, sa[k]));
      PrefixOfSuffixIsOccurrence(T, q, sa[k]);
      assert sa[k] in positions;
    }
  }

  /**
   `search_array(T, suffix_array, q)`: the number of occurrences of `q`, the
   longest common prefix of `q` with any probed suffix, and the occurrence
   positions in ascending order.
   */
  method SearchArray(T: string, sa: seq<nat>, q: string)
    returns (count: nat, maxPrefix: nat, positions: seq<int>)
    ensures count == |positions| && maxPrefix <= |q|
    ensures Ascending(positions)
    ensures IsSuffixArray(T, sa) ==> StrictlyAscending(positions)
    ensures IsSuffixArray(T, sa) ==>
      forall i :: i in positions <==> 0 <= i < |T| && OccursAt(T, q, i)
    ensures IsSuffixArray(T, sa) && q == [] ==> positions == Range(|T|)
    ensures IsSuffixArray(T, sa) && q != [] ==> (count > 0 <==> maxPrefix == |q|)
  {
    var first, maxLow := LowerBound(T, sa, q);
    var last, maxHigh := UpperBound(T, sa, q, first, maxLow);
    var matches := sa[first..last];
    positions := Sort(matches);
    count := |positions|;
    maxPrefix := maxHigh;
    if IsSuffixArray(T, sa) {
      SearchOutcome(T, sa, q, first, last, positions);
      if q == [] {
        EmptyQueryOutcome(T, positions);
      } else {
        MatchIffFullPrefix(T, sa, q, first, last, maxLow, maxHigh, positions);
      }
    }
  }
}
