/**
 The membership-only suffix trie of `src/suffix_trie.py`: a nested
 character trie holding every non-empty suffix of a text, each suffix's last
 node carrying the `'$': True` end marker.
 */
module SuffixTrie {
  import opened Strings

  /** The key under which a node records that a suffix ends there */
  const EndMarker: char := '$'

  /**
   One nested dict of the source: its character keys become `children`, and
   the `'$': True` entry becomes `end`.
   */
  datatype Trie = Trie(children: map<char, Trie>, end: bool)

  /** `{}` */
  const Empty: Trie := Trie(map[], false)

  datatype Option<T> = None | Some(value: T)

  /** The node reached from `t` by following the characters of `w`, if every step has a child */
  function Follow(t: Trie, w: string): Option<Trie>
    decreases |w|
  {
    if w == [] then Some(t)
    else if w[0] in t.children then Follow(t.children[w[0]], w[1..])
    else None
  }

  /**
   `search_trie(trie, pattern)`: walk the pattern's characters from the root;
   false as soon as one has no child, true once the pattern is used up.
   */
  function SearchTrie(t: Trie, pattern: string): (found: bool)
    requires EndMarker !in pattern
    ensures pattern == [] ==> found
    ensures |pattern| > 0 && pattern[0] !in t.children ==> !found
    ensures found && |pattern| > 0 ==> SearchTrie(t.children[pattern[0]], pattern[1..])
  {
    Follow(t, pattern).Some?
  }

  /**
   The inner loop of `build_suffix_trie`: walk `w` from `t`, creating the
   missing children, and set the end marker on the last node.
   */
  function Insert(t: Trie, w: string): (r: Trie)
    ensures t.children.Keys <= r.children.Keys
    ensures t.end ==> r.end
    decreases |w|
  {
    if w == [] then t.(end := true)
    else
      var child := if w[0] in t.children then t.children[w[0]] else Empty;
      t.(children := t.children[w[0] := Insert(child, w[1..])])
  }

  /** The outer loop of `build_suffix_trie`: insert `s[i:]`, `s[i+1:]`, ... in turn */
  function InsertSuffixes(t: Trie, s: string, i: nat): Trie
    requires i <= |s|
    decreases |s| - i
  {
    if i == |s| then t else InsertSuffixes(Insert(t, s[i..]), s, i + 1)
  }

  /** `build_suffix_trie(s)`: the trie of the suffixes `s[0:]` .. `s[len(s)-1:]` */
  function BuildSuffixTrie(s: string): (t: Trie)
    requires EndMarker !in s
    ensures s == [] ==> t == Empty
  {
    InsertSuffixes(Empty, s, 0)
  }

  /** Inserting `w` adds exactly the prefixes of `w` to the walkable paths */
  lemma {:induction false} InsertPaths(t: Trie, w: string, p: string)
    ensures Follow(Insert(t, w), p).Some? <==> Follow(t, p).Some? || IsPrefix(p, w)
    decreases |w|
  {
    if p != [] && w != [] {
      var child := if w[0] in t.children then t.children[w[0]] else Empty;
      if p[0] == w[0] {
        InsertPaths(child, w[1..], p[1..]);
        if w[0] !in t.children {
          EmptyPaths(p[1..]);
        }
        PrefixStep(p, w);
      }
    } else if p != [] {
      assert Insert(t, w).children == t.children;
    }
  }

  /** Only the empty path can be walked in the empty trie */
  lemma EmptyPaths(p: string)
    ensures Follow(Empty, p).Some? <==> p == []
  {
  }

  lemma PrefixStep(p: string, w: string)
    requires p != [] && w != [] && p[0] == w[0]
    ensures IsPrefix(p, w) <==> IsPrefix(p[1..], w[1..])
  {
    if IsPrefix(p[1..], w[1..]) {
      assert w[..|p|] == [w[0]] + w[1..][..|p| - 1];
    }
    if IsPrefix(p, w) {
      assert w[1..][..|p| - 1] == w[..|p|][1..];
    }
  }

  /** Inserting never removes an end marker, and marks the end of `w` itself */
  lemma {:induction false} InsertMarks(t: Trie, w: string, p: string)
    ensures Follow(Insert(t, w), w).Some? && Follow(Insert(t, w), w).value.end
    ensures Follow(t, p).Some? && Follow(t, p).value.end ==>
              Follow(Insert(t, w), p).Some? && Follow(Insert(t, w), p).value.end
    decreases |w|
  {
    if w != [] {
      var child := if w[0] in t.children then t.children[w[0]] else Empty;
      if p != [] && p[0] == w[0] {
        InsertMarks(child, w[1..], p[1..]);
      } else {
        InsertMarks(child, w[1..], []);
      }
    }
  }

  /** The paths of the built trie: the old ones and the prefixes of every inserted suffix */
  lemma {:induction false} InsertSuffixesPaths(t: Trie, s: string, i: nat, p: string)
    requires i <= |s|
    ensures Follow(InsertSuffixes(t, s, i), p).Some? <==>
              Follow(t, p).Some? || exists k :: i <= k < |s| && IsPrefix(p, s[k..])
    decreases |s| - i
  {
    if i < |s| {
      InsertSuffixesPaths(Insert(t, s[i..]), s, i + 1, p);
      InsertPaths(t, s[i..], p);
    }
  }

  /**
   For every `i`, following `s[i:]` from the root of the built trie reaches a
   node with the end marker.
   */
  lemma {:induction false} SuffixesMarked(t: Trie, s: string, i: nat, k: nat)
    requires i <= |s| && k < |s|
    requires k < i ==> Follow(t, s[k..]).Some? && Follow(t, s[k..]).value.end
    ensures Follow(InsertSuffixes(t, s, i), s[k..]).Some?
    ensures Follow(InsertSuffixes(t, s, i), s[k..]).value.end
    decreases |s| - i
  {
    if i < |s| {
      InsertMarks(t, s[i..], s[k..]);
      SuffixesMarked(Insert(t, s[i..]), s, i + 1, k);
    }
  }

  /** Every suffix `s[i:]` of the built trie ends at a marked node */
  lemma BuiltTrieMarksSuffixes(s: string, i: nat)
    requires EndMarker !in s && i < |s|
    ensures Follow(BuildSuffixTrie(s), s[i..]).Some?
    ensures Follow(BuildSuffixTrie(s), s[i..]).value.end
  {
    SuffixesMarked(Empty, s, 0, i);
  }

  /** Searching the suffix trie of `s` finds `p` exactly when `p` occurs in `s` */
  lemma SearchBuiltTrie(s: string, p: string)
    requires EndMarker !in s && EndMarker !in p
    ensures SearchTrie(BuildSuffixTrie(s), p) <==> IsSubstring(p, s)
  {
    InsertSuffixesPaths(Empty, s, 0, p);
    EmptyPaths(p);
    if SearchTrie(BuildSuffixTrie(s), p) {
      if p == [] {
        assert OccursAt(s, p, 0);
      } else {
        var k :| 0 <= k < |s| && IsPrefix(p, s[k..]);
        PrefixOfSuffixIsOccurrence(s, p, k);
      }
    }
    if IsSubstring(p, s) {
      var k: nat :| OccursAt(s, p, k);
      PrefixOfSuffixIsOccurrence(s, p, k);
      if p != [] {
        assert k < |s|;
      }
    }
  }
}
