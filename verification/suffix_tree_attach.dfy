/**
 The leaf attachment of `add_suffix` (`src/suffix_tree.py`): once the walk
 for the next suffix falls off the tree at a node, the rest of the suffix
 becomes a new leaf below that node. Attaching it keeps the arena a
 trie of labels and adds exactly that suffix to the ones the leaves spell.
 */
module SuffixTreeAttach {
  import opened Strings
  import opened SuffixTreeArena

  /**
   The walk for the suffix `s` has read its first `i` characters and stands
   at `n`, which has no child under the next one.
   */
  ghost predicate AttachPoint(nodes: seq<Node>, spell: seq<string>, n: nat, s: string, i: nat) {
    && LabelTrie(nodes, spell)
    && n < |nodes| && i < |s|
    && spell[n] == s[..i]
    && s[i] !in nodes[n].children
  }

  lemma AttachShape(nodes: seq<Node>, n: nat, tail: string)
    requires Shape(nodes) && n < |nodes| && tail != []
    ensures Shape(AttachLeaf(nodes, n, tail))
  {
    var r := AttachLeaf(nodes, n, tail);
    forall a, c | 0 <= a < |r| && c in r[a].children ensures EdgeOk(r, a, c) {
      if a != n || c != tail[0] {
        assert EdgeOk(nodes, a, c);
      }
    }
  }

  lemma AttachSpells(nodes: seq<Node>, spell: seq<string>, n: nat, tail: string)
    requires Spells(nodes, spell) && n < |nodes| && tail != []
    ensures Spells(AttachLeaf(nodes, n, tail), spell + [spell[n] + tail])
  {
    var r := AttachLeaf(nodes, n, tail);
    var sp := spell + [spell[n] + tail];
    forall a, c | 0 <= a < |r| && c in r[a].children ensures SpellStep(r, sp, a, c) {
      if a != n || c != tail[0] {
        assert SpellStep(nodes, spell, a, c);
      }
    }
  }

  /** No node's string has the new suffix as a prefix, so in particular none equals it */
  lemma AttachFresh(nodes: seq<Node>, spell: seq<string>, n: nat, s: string, i: nat, x: nat)
    requires AttachPoint(nodes, spell, n, s, i)
    requires x < |nodes|
    ensures !IsPrefix(s, spell[x])
  {
    if IsPrefix(s, spell[x]) {
      PrefixTransitive(spell[n], s, spell[x]);
      assert IsProperPrefix(spell[n], spell[x]);
    }
  }

  /** No old node's string extends past the point where the walk fell off */
  lemma AttachNoLongerPrefix(nodes: seq<Node>, spell: seq<string>, n: nat, s: string, i: nat, a: nat)
    requires AttachPoint(nodes, spell, n, s, i)
    requires a < |nodes| && IsPrefix(spell[a], s)
    ensures |spell[a]| <= i
  {
    if |spell[a]| > i {
      PrefixesComparable(spell[n], spell[a], s);
      assert IsProperPrefix(spell[n], spell[a]);
    }
  }

  /** The attachment point itself leads toward the new leaf, through it */
  lemma AttachLeadsAt(nodes: seq<Node>, spell: seq<string>, n: nat, s: string, i: nat)
    requires n < |nodes| == |spell| && i < |s| && spell[n] == s[..i]
    ensures LeadsToward(AttachLeaf(nodes, n, s[i..]), spell + [s], n, s)
  {
    assert s == s[..i] + s[i..];
  }

  /** A node above the attachment point keeps leading toward it, and so toward the suffix */
  lemma AttachLeadsAbove(nodes: seq<Node>, spell: seq<string>, n: nat, s: string, i: nat, a: nat)
    requires PrefixClosed(nodes, spell) && |spell| == |nodes|
    requires n < |nodes| && i < |s| && spell[n] == s[..i]
    requires a < |nodes| && IsProperPrefix(spell[a], spell[n])
    ensures LeadsToward(AttachLeaf(nodes, n, s[i..]), spell + [s], a, s)
  {
    assert LeadsToward(nodes, spell, a, spell[n]);
    var c := spell[n][|spell[a]|];
    PrefixTransitive(spell[nodes[a].children[c]], spell[n], s);
  }

  /** An old node whose string is a proper prefix of the new suffix leads toward the new leaf */
  lemma AttachReachesLeaf(nodes: seq<Node>, spell: seq<string>, n: nat, s: string, i: nat, a: nat)
    requires AttachPoint(nodes, spell, n, s, i)
    requires a < |nodes| && IsProperPrefix(spell[a], s)
    ensures LeadsToward(AttachLeaf(nodes, n, s[i..]), spell + [s], a, s)
  {
    AttachNoLongerPrefix(nodes, spell, n, s, i, a);
    if |spell[a]| == i {
      assert SameSpell(spell, a, n);
      AttachLeadsAt(nodes, spell, n, s, i);
    } else {
      PrefixesComparable(spell[a], spell[n], s);
      AttachLeadsAbove(nodes, spell, n, s, i, a);
    }
  }

  /** Attaching the leaf for `s` keeps the arena a trie of labels, now also spelling `s` */
  lemma AttachTrie(nodes: seq<Node>, spell: seq<string>, n: nat, s: string, i: nat)
    requires AttachPoint(nodes, spell, n, s, i)
    ensures LabelTrie(AttachLeaf(nodes, n, s[i..]), spell + [s])
  {
    var k := |nodes|;
    var r := AttachLeaf(nodes, n, s[i..]);
    var sp := spell + [s];
    AttachShape(nodes, n, s[i..]);
    assert spell[n] + s[i..] == s;
    AttachSpells(nodes, spell, n, s[i..]);
    forall a: nat, b: nat | SameSpell(sp, a, b) ensures a == b {
      if a < k && b < k {
        assert SameSpell(spell, a, b);
      } else if a < k {
        AttachFresh(nodes, spell, n, s, i, a);
      } else if b < k {
        AttachFresh(nodes, spell, n, s, i, b);
      }
    }
    forall a, b | 0 <= a < |r| && 0 <= b < |r| && IsProperPrefix(sp[a], sp[b])
      ensures LeadsToward(r, sp, a, sp[b])
    {
      if a < k && b < k {
        assert LeadsToward(nodes, spell, a, spell[b]);
      } else if a < k {
        AttachReachesLeaf(nodes, spell, n, s, i, a);
      } else if b < k {
        AttachFresh(nodes, spell, n, s, i, b);
      }
    }
  }

  /**
   The node the leaf hangs from is the root or an inner node: a non-root leaf
   ends with the terminator, which the proper prefix `X[count:count+i]` of
   the suffix cannot.
   */
  lemma AttachAtInner(nodes: seq<Node>, spell: seq<string>, X: string, count: nat, n: nat, i: nat)
    requires Terminated(X) && count < |X| && i < |X| - count
    requires LeavesAreSuffixes(nodes, spell, X, count)
    requires n < |nodes| == |spell| && spell[n] == X[count..][..i]
    requires 0 < n ==> spell[n] != []
    ensures n !in LeafSet(nodes)
  {
  }

  /** Only the root spells the empty string */
  lemma NonRootSpelled(spell: seq<string>, n: nat)
    requires DistinctSpells(spell) && |spell| > 0 && spell[0] == []
    requires 0 < n < |spell|
    ensures spell[n] != []
  {
    assert SameSpell(spell, 0, n) ==> 0 == n;
  }

  /** The new node is the only new leaf */
  lemma AttachLeafSet(nodes: seq<Node>, n: nat, tail: string)
    requires n < |nodes| && tail != [] && n !in LeafSet(nodes)
    ensures LeafSet(AttachLeaf(nodes, n, tail)) == LeafSet(nodes) + {|nodes|}
    ensures |LeafSet(AttachLeaf(nodes, n, tail))| == |LeafSet(nodes)| + 1
  {
    var r := AttachLeaf(nodes, n, tail);
    forall m | 0 < m < |r| ensures (m in LeafSet(r)) <==> (m in LeafSet(nodes) || m == |nodes|) {
      if m != n && m != |nodes| {
        assert r[m] == nodes[m];
      }
    }
    assert |nodes| !in LeafSet(nodes);
  }

  /** The old leaves keep their suffixes and the new leaf spells `X[count:]` */
  lemma AttachLeavesSuffixes(nodes: seq<Node>, spell: seq<string>, X: string, count: nat, n: nat, i: nat)
    requires LeavesAreSuffixes(nodes, spell, X, count) && |spell| == |nodes|
    requires count < |X| && n < |nodes| && i < |X| - count && n !in LeafSet(nodes)
    ensures LeavesAreSuffixes(AttachLeaf(nodes, n, X[count..][i..]), spell + [X[count..]], X, count + 1)
  {
    var r := AttachLeaf(nodes, n, X[count..][i..]);
    var sp := spell + [X[count..]];
    AttachLeafSet(nodes, n, X[count..][i..]);
    forall m | 0 < m < |r| && IsLeaf(r, m)
      ensures |X| - (count + 1) < |sp[m]| <= |X| && sp[m] == X[|X| - |sp[m]|..]
    {
      if m != |nodes| {
        assert m in LeafSet(r);
      }
    }
  }

  /** Every suffix inserted so far, and now `X[count:]`, is spelled by a leaf */
  lemma AttachSuffixesLeaves(nodes: seq<Node>, spell: seq<string>, X: string, count: nat, n: nat, i: nat)
    requires SuffixesAreLeaves(nodes, spell, X, count) && |spell| == |nodes|
    requires count < |X| && n < |nodes| && i < |X| - count && n !in LeafSet(nodes)
    ensures SuffixesAreLeaves(AttachLeaf(nodes, n, X[count..][i..]), spell + [X[count..]], X, count + 1)
  {
    var r := AttachLeaf(nodes, n, X[count..][i..]);
    var sp := spell + [X[count..]];
    AttachLeafSet(nodes, n, X[count..][i..]);
    forall p: nat | p < count + 1 && p <= |X| ensures SuffixHasLeaf(r, sp, X, p) {
      if p == count {
        assert LeafSpells(r, sp, |nodes|, X[p..]);
      } else {
        assert SuffixHasLeaf(nodes, spell, X, p);
        var m: nat :| LeafSpells(nodes, spell, m, X[p..]);
        assert m in LeafSet(nodes) && m in LeafSet(r);
        assert LeafSpells(r, sp, m, X[p..]);
      }
    }
  }

  /** The new suffix fits the text and ends at its terminator */
  lemma AttachInText(spell: seq<string>, X: string, count: nat)
    requires SpellsInText(spell, X) && Terminated(X) && count < |X|
    ensures SpellsInText(spell + [X[count..]], X)
  {
    assert TerminatorLast(X[count..]);
  }

  /** Attaching the leaf for the next suffix `X[count:]` yields the tree of `count + 1` suffixes */
  lemma AttachPreserves(nodes: seq<Node>, spell: seq<string>, X: string, count: nat, n: nat, i: nat)
    requires IsSuffixTreeOf(nodes, spell, X, count) && count < |X|
    requires AttachPoint(nodes, spell, n, X[count..], i)
    ensures IsSuffixTreeOf(AttachLeaf(nodes, n, X[count..][i..]), spell + [X[count..]], X, count + 1)
    ensures n !in LeafSet(nodes)
  {
    var s := X[count..];
    var r := AttachLeaf(nodes, n, s[i..]);
    var sp := spell + [s];
    AttachTrie(nodes, spell, n, s, i);
    if 0 < n {
      NonRootSpelled(spell, n);
    }
    AttachAtInner(nodes, spell, X, count, n, i);
    AttachInText(spell, X, count);
    AttachLeafSet(nodes, n, s[i..]);
    AttachLeavesSuffixes(nodes, spell, X, count, n, i);
    AttachSuffixesLeaves(nodes, spell, X, count, n, i);
  }
}
