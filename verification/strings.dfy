/**
 Text helpers shared by the three indexes: prefixes (Python's `startswith`),
 the lexicographic order of Python strings, substring occurrence, and the
 common-prefix-length scan of `common_prefix_length`.
 */
module Strings {

  /** `s.startswith(p)` */
  predicate IsPrefix(p: string, s: string) {
    |p| <= |s| && s[..|p|] == p
  }

  /** `p` is a prefix of `s` and strictly shorter */
  predicate IsProperPrefix(p: string, s: string) {
    |p| < |s| && s[..|p|] == p
  }

  /** `T[i:i+len(q)] == q` with `i + len(q)` inside `T` */
  predicate OccursAt(T: string, q: string, i: nat) {
    i + |q| <= |T| && T[i..i + |q|] == q
  }

  /** `q` is a contiguous substring of `T` */
  ghost predicate IsSubstring(q: string, T: string) {
    exists i: nat :: OccursAt(T, q, i)
  }

  /**
   Python's `a < b` on `str`: compare code points left to right; when one
   string runs out first, the shorter one (a proper prefix) is smaller.
   */
  predicate Less(a: string, b: string)
    decreases |a|
  {
    |b| > 0 && (|a| == 0 || a[0] < b[0] || (a[0] == b[0] && Less(a[1..], b[1..])))
  }

  lemma {:induction false} LessIrreflexive(a: string)
    ensures !Less(a, a)
    decreases |a|
  {
    if |a| > 0 {
      LessIrreflexive(a[1..]);
    }
  }

  lemma {:induction false} LessAsymmetric(a: string, b: string)
    requires Less(a, b)
    ensures !Less(b, a)
    decreases |a|
  {
    if |a| > 0 && a[0] == b[0] {
      LessAsymmetric(a[1..], b[1..]);
    }
  }

  lemma {:induction false} LessTransitive(a: string, b: string, c: string)
    requires Less(a, b) && Less(b, c)
    ensures Less(a, c)
    decreases |a|
  {
    if |a| > 0 && a[0] == b[0] && b[0] == c[0] {
      LessTransitive(a[1..], b[1..], c[1..]);
    }
  }

  /** Any two strings are equal or ordered one way: the order is total */
  lemma {:induction false} LessTotal(a: string, b: string)
    ensures a == b || Less(a, b) || Less(b, a)
    decreases |a|
  {
    if |a| > 0 && |b| > 0 && a[0] == b[0] {
      LessTotal(a[1..], b[1..]);
      if a[1..] == b[1..] {
        assert a == [a[0]] + a[1..] && b == [b[0]] + b[1..];
      }
    }
  }

  /** A string that starts with `q` is never below `q` */
  lemma {:induction false} PrefixNotBelow(q: string, s: string)
    requires IsPrefix(q, s)
    ensures !Less(s, q)
    decreases |q|
  {
    if |q| > 0 {
      assert s[1..][..|q| - 1] == q[1..];
      PrefixNotBelow(q[1..], s[1..]);
    }
  }

  /**
   The strings that start with `q` form an interval of the order: a string
   lying between `q` and a string that starts with `q` starts with `q` too.
   */
  lemma {:induction false} PrefixInterval(q: string, a: string, b: string)
    requires !Less(a, q) && !Less(b, a) && IsPrefix(q, b)
    ensures IsPrefix(q, a)
    decreases |q|
  {
    if |q| > 0 {
      assert b[0] == q[0];
      assert b[1..][..|q| - 1] == q[1..];
      if |a| > 0 && a[0] == q[0] && b[0] == a[0] {
        PrefixInterval(q[1..], a[1..], b[1..]);
        assert a == [a[0]] + a[1..];
      }
    }
  }

  lemma PrefixTransitive(a: string, b: string, c: string)
    requires IsPrefix(a, b) && IsPrefix(b, c)
    ensures IsPrefix(a, c)
  {
    assert c[..|a|] == c[..|b|][..|a|];
  }

  /** Two prefixes of one string are prefixes of each other */
  lemma PrefixesComparable(a: string, b: string, c: string)
    requires IsPrefix(a, c) && IsPrefix(b, c) && |a| <= |b|
    ensures IsPrefix(a, b)
  {
    assert b[..|a|] == c[..|b|][..|a|];
  }

  /**
   Reading `j` more characters that agree with `w` after the first `i` of `s`
   gives the first `i + j` characters of `s`.
   */
  lemma PrefixExtend(s: string, i: nat, w: string, j: nat)
    requires i + j <= |s| && j <= |w| && s[i..][..j] == w[..j]
    ensures s[..i] + w[..j] == s[..i + j]
    ensures j == |w| ==> s[..i] + w == s[..i + j]
  {
    assert s[..i + j] == s[..i] + s[i..][..j];
    assert w == w[..|w|];
  }

  /** `startswith` on the suffix at `i` is the same as an occurrence at `i` */
  lemma PrefixOfSuffixIsOccurrence(T: string, q: string, i: nat)
    requires i <= |T|
    ensures IsPrefix(q, T[i..]) <==> OccursAt(T, q, i)
  {
    if i + |q| <= |T| {
      assert T[i..][..|q|] == T[i..i + |q|];
    }
  }

  /**
   `common_prefix_length(s1, s2)`: walk both strings in step while the
   characters agree; the result is the length of their longest common prefix.
   */
  method CommonPrefixLength(s1: string, s2: string) returns (k: nat)
    ensures k <= |s1| && k <= |s2|
    ensures s1[..k] == s2[..k]
    ensures k < |s1| && k < |s2| ==> s1[k] != s2[k]
  {
    k := 0;
    while k < |s1| && k < |s2| && s1[k] == s2[k]
      invariant k <= |s1| && k <= |s2|
      invariant s1[..k] == s2[..k]
    {
      k := k + 1;
    }
  }

  /**
   The length of the agreement the edge walks of `src/suffix_tree.py` count
   inline (`while j < len(sub2) and ... P[i + j] == sub2[j]`): how many
   leading characters `s` and `t` share.
   */
  function AgreeLength(s: string, t: string): (k: nat)
    ensures k <= |s| && k <= |t|
  {
    if |s| == 0 || |t| == 0 || s[0] != t[0] then 0
    else 1 + AgreeLength(s[1..], t[1..])
  }

  /**
   `AgreeLength` counts what `CommonPrefixLength` counts: the two strings
   agree on that many leading characters and differ right after, unless one
   of them has ended.
   */
  lemma {:induction false} AgreeLengthIsCommonPrefix(s: string, t: string)
    ensures s[..AgreeLength(s, t)] == t[..AgreeLength(s, t)]
    ensures AgreeLength(s, t) < |s| && AgreeLength(s, t) < |t| ==> s[AgreeLength(s, t)] != t[AgreeLength(s, t)]
    decreases |s|
  {
    if |s| > 0 && |t| > 0 && s[0] == t[0] {
      AgreeLengthIsCommonPrefix(s[1..], t[1..]);
      var k := AgreeLength(s[1..], t[1..]);
      assert s[..k + 1] == [s[0]] + s[1..][..k];
      assert t[..k + 1] == [t[0]] + t[1..][..k];
    }
  }
}
