/**
 The edge split of `add_suffix` (`src/suffix_tree.py`): when the walk for the
 next suffix leaves an edge after `j` of its characters, a new inner node
 labelled with those characters is put in the edge's place and the old child
 hangs below it with the rest of the label. The split changes the shape of
 the arena but keeps it a trie of labels with the same leaves.
 */
module SuffixTreeSplit {
  import opened Strings
  import opened SuffixTreeArena

  /** `n` has a child under `b` whose label is longer than the `j > 0` characters matched */
  ghost predicate SplitPoint(nodes: seq<Node>, spell: seq<string>, n: nat, b: char, j: nat) {
    && LabelTrie(nodes, spell)
    && n < |nodes| && b in nodes[n].children
    && 0 < j < |nodes[nodes[n].children[b]].sub|
  }

  /** The strings involved: `p`, then `p + sub[:j]`, then `p + sub` */
  lemma SplitStrings(p: string, sub: string, j: nat)
    requires 0 < j < |sub|
    ensures IsProperPrefix(p, p + sub[..j])
    ensures IsProperPrefix(p + sub[..j], p + sub)
    ensures (p + sub[..j])[|p|] == sub[0]
    ensures (p + sub)[|p| + j] == sub[j]
    ensures p + sub == (p + sub[..j]) + sub[j..]
  {
    assert sub == sub[..j] + sub[j..];
    assert (p + sub)[..|p| + j] == p + sub[..j];
  }

  /** The only entry pointing at a node is the one its string was built through */
  lemma UniqueParent(nodes: seq<Node>, spell: seq<string>, n: nat, b: char, x: nat, c: char)
    requires Shape(nodes) && Spells(nodes, spell) && DistinctSpells(spell)
    requires n < |nodes| && b in nodes[n].children
    requires x < |nodes| && c in nodes[x].children
    requires nodes[x].children[c] == nodes[n].children[b]
    ensures x == n && c == b
  {
    assert SpellStep(nodes, spell, n, b) && SpellStep(nodes, spell, x, c);
    assert EdgeOk(nodes, n, b) && EdgeOk(nodes, x, c);
    var m := nodes[n].children[b];
    assert spell[x] == spell[m][..|spell[m]| - |nodes[m].sub|] == spell[n];
    assert SameSpell(spell, x, n);
  }

  /** The split child is neither the parent nor the root, and its string extends the parent's */
  lemma SplitChild(nodes: seq<Node>, spell: seq<string>, n: nat, b: char)
    requires Shape(nodes) && Spells(nodes, spell)
    requires n < |nodes| && b in nodes[n].children
    ensures
      var ch := nodes[n].children[b];
      && 0 < ch < |nodes| && ch != n
      && nodes[ch].sub != [] && nodes[ch].sub[0] == b
      && spell[ch] == spell[n] + nodes[ch].sub
  {
    assert EdgeOk(nodes, n, b) && SpellStep(nodes, spell, n, b);
  }

  lemma SplitShapeSpells(nodes: seq<Node>, spell: seq<string>, n: nat, b: char, j: nat)
    requires SplitPoint(nodes, spell, n, b, j)
    ensures
      var ch := nodes[n].children[b];
      var r := SplitEdge(nodes, n, b, j);
      var sp := spell + [spell[n] + nodes[ch].sub[..j]];
      Shape(r) && Spells(r, sp)
  {
    var ch := nodes[n].children[b];
    var sub := nodes[ch].sub;
    var k := |nodes|;
    var r := SplitEdge(nodes, n, b, j);
    var sp := spell + [spell[n] + sub[..j]];
    SplitChild(nodes, spell, n, b);
    SplitStrings(spell[n], sub, j);
    forall a, c | 0 <= a < |r| && c in r[a].children ensures EdgeOk(r, a, c) && SpellStep(r, sp, a, c) {
      if a == k {
        assert c == sub[j];
      } else if a == n && c == b {
      } else {
        assert c in nodes[a].children;
        assert EdgeOk(nodes, a, c) && SpellStep(nodes, spell, a, c);
        if nodes[a].children[c] == ch {
          UniqueParent(nodes, spell, n, b, a, c);
        }
      }
    }
  }

  lemma SplitDistinct(nodes: seq<Node>, spell: seq<string>, n: nat, b: char, j: nat)
    requires SplitPoint(nodes, spell, n, b, j)
    ensures
      var ch := nodes[n].children[b];
      DistinctSpells(spell + [spell[n] + nodes[ch].sub[..j]])
  {
    var ch := nodes[n].children[b];
    var sub := nodes[ch].sub;
    var sk := spell[n] + sub[..j];
    SplitChild(nodes, spell, n, b);
    SplitStrings(spell[n], sub, j);
    var k := |nodes|;
    var sp := spell + [sk];
    forall a: nat, b: nat | SameSpell(sp, a, b) ensures a == b {
      if a < k && b < k {
        assert SameSpell(spell, a, b);
      }
    }
  }

  /** Below the new node, everything continues through the relabelled child */
  lemma SplitFromNewNode(nodes: seq<Node>, spell: seq<string>, n: nat, b: char, j: nat, y: nat)
    requires SplitPoint(nodes, spell, n, b, j)
    requires
      var ch := nodes[n].children[b];
      y < |nodes| && IsProperPrefix(spell[n] + nodes[ch].sub[..j], spell[y])
    ensures
      var ch := nodes[n].children[b];
      var sp := spell + [spell[n] + nodes[ch].sub[..j]];
      LeadsToward(SplitEdge(nodes, n, b, j), sp, |nodes|, spell[y])
  {
    var ch := nodes[n].children[b];
    var sub := nodes[ch].sub;
    var sk := spell[n] + sub[..j];
    SplitChild(nodes, spell, n, b);
    SplitStrings(spell[n], sub, j);
    PrefixTransitive(spell[n], sk, spell[y]);
    assert IsProperPrefix(spell[n], spell[y]);
    assert spell[y][|spell[n]|] == sk[|spell[n]|];
    PrefixesComparable(sk, spell[ch], spell[y]);
    assert spell[y][|sk|] == spell[ch][|sk|];
  }

  /** Every old node whose string is a proper prefix of the new node's leads toward it */
  lemma SplitToNewNode(nodes: seq<Node>, spell: seq<string>, n: nat, b: char, j: nat, a: nat)
    requires SplitPoint(nodes, spell, n, b, j)
    requires
      var ch := nodes[n].children[b];
      a < |nodes| && IsProperPrefix(spell[a], spell[n] + nodes[ch].sub[..j])
    ensures
      var ch := nodes[n].children[b];
      var sk := spell[n] + nodes[ch].sub[..j];
      LeadsToward(SplitEdge(nodes, n, b, j), spell + [sk], a, sk)
  {
    var ch := nodes[n].children[b];
    var sub := nodes[ch].sub;
    var sk := spell[n] + sub[..j];
    SplitChild(nodes, spell, n, b);
    SplitStrings(spell[n], sub, j);
    if a == n {
    } else if |spell[a]| < |spell[n]| {
      PrefixesComparable(spell[a], spell[n], sk);
      assert IsProperPrefix(spell[a], spell[n]);
      var c := spell[n][|spell[a]|];
      PrefixTransitive(spell[nodes[a].children[c]], spell[n], sk);
    } else if |spell[a]| == |spell[n]| {
      PrefixesComparable(spell[a], spell[n], sk);
      assert SameSpell(spell, a, n);
    } else {
      PrefixesComparable(spell[n], spell[a], sk);
      assert IsProperPrefix(spell[n], spell[a]);
    }
  }

  /** Pairs of old nodes keep leading toward each other */
  lemma SplitOldPair(nodes: seq<Node>, spell: seq<string>, n: nat, b: char, j: nat, a: nat, y: nat)
    requires SplitPoint(nodes, spell, n, b, j)
    requires a < |nodes| && y < |nodes| && IsProperPrefix(spell[a], spell[y])
    ensures
      var ch := nodes[n].children[b];
      var sp := spell + [spell[n] + nodes[ch].sub[..j]];
      LeadsToward(SplitEdge(nodes, n, b, j), sp, a, spell[y])
  {
    var ch := nodes[n].children[b];
    var sub := nodes[ch].sub;
    var sk := spell[n] + sub[..j];
    SplitChild(nodes, spell, n, b);
    SplitStrings(spell[n], sub, j);
    assert LeadsToward(nodes, spell, a, spell[y]);
    if a == n && spell[y][|spell[n]|] == b {
      PrefixTransitive(sk, spell[ch], spell[y]);
    }
  }

  lemma SplitPrefixClosed(nodes: seq<Node>, spell: seq<string>, n: nat, b: char, j: nat)
    requires SplitPoint(nodes, spell, n, b, j)
    ensures
      var ch := nodes[n].children[b];
      var r := SplitEdge(nodes, n, b, j);
      var sp := spell + [spell[n] + nodes[ch].sub[..j]];
      PrefixClosed(r, sp)
  {
    var ch := nodes[n].children[b];
    var k := |nodes|;
    var r := SplitEdge(nodes, n, b, j);
    var sp := spell + [spell[n] + nodes[ch].sub[..j]];
    forall a, y | 0 <= a < |r| && 0 <= y < |r| && IsProperPrefix(sp[a], sp[y])
      ensures LeadsToward(r, sp, a, sp[y])
    {
      if a == k {
        SplitFromNewNode(nodes, spell, n, b, j, y);
      } else if y == k {
        SplitToNewNode(nodes, spell, n, b, j, a);
      } else {
        SplitOldPair(nodes, spell, n, b, j, a, y);
      }
    }
  }

  /** The split adds an inner node and changes no node's leaf status */
  lemma SplitLeafSet(nodes: seq<Node>, spell: seq<string>, n: nat, b: char, j: nat)
    requires Shape(nodes) && Spells(nodes, spell)
    requires n < |nodes| && b in nodes[n].children
    requires j < |nodes[nodes[n].children[b]].sub|
    ensures
      var r := SplitEdge(nodes, n, b, j);
      && (forall m :: 0 <= m < |nodes| ==> (IsLeaf(r, m) <==> IsLeaf(nodes, m)))
      && LeafSet(r) == LeafSet(nodes)
  {
    var ch := nodes[n].children[b];
    var sub := nodes[ch].sub;
    var r := SplitEdge(nodes, n, b, j);
    SplitChild(nodes, spell, n, b);
    forall m | 0 <= m < |nodes| ensures IsLeaf(r, m) <==> IsLeaf(nodes, m) {
      if m == n {
        assert b in r[n].children;
      }
    }
    assert sub[j] in r[|nodes|].children;
  }

  /** A prefix of a node's string fits the text as that string does */
  lemma SplitInText(spell: seq<string>, X: string, sk: string, ch: nat)
    requires SpellsInText(spell, X) && ch < |spell| && IsPrefix(sk, spell[ch])
    ensures SpellsInText(spell + [sk], X)
  {
    assert TerminatorLast(spell[ch]);
  }

  /** Leaves that were leaves before, spelling what they spelled, still spell inserted suffixes */
  lemma LeavesKept(nodes: seq<Node>, spell: seq<string>, r: seq<Node>, sp: seq<string>, X: string, count: nat)
    requires LeavesAreSuffixes(nodes, spell, X, count) && |spell| == |nodes|
    requires LeafSet(r) <= LeafSet(nodes)
    requires |spell| <= |sp| && forall m :: 0 <= m < |spell| ==> sp[m] == spell[m]
    ensures LeavesAreSuffixes(r, sp, X, count)
  {
    forall m | 0 < m < |r| && m < |sp| && IsLeaf(r, m)
      ensures |X| - count < |sp[m]| <= |X| && sp[m] == X[|X| - |sp[m]|..]
    {
      assert m in LeafSet(r);
    }
  }

  /**
   Splitting an edge keeps the tree: same leaves, same inserted suffixes, and
   the new node spells `sk`, its parent's string followed by the `j`
   characters it takes from the label.
   */
  lemma SplitPreserves(nodes: seq<Node>, spell: seq<string>, X: string, count: nat, n: nat, b: char, j: nat, sk: string)
    requires IsSuffixTreeOf(nodes, spell, X, count)
    requires n < |nodes| && b in nodes[n].children
    requires 0 < j < |nodes[nodes[n].children[b]].sub|
    requires sk == spell[n] + nodes[nodes[n].children[b]].sub[..j]
    ensures IsSuffixTreeOf(SplitEdge(nodes, n, b, j), spell + [sk], X, count)
  {
    var ch := nodes[n].children[b];
    var sub := nodes[ch].sub;
    var r := SplitEdge(nodes, n, b, j);
    var sp := spell + [sk];
    SplitShapeSpells(nodes, spell, n, b, j);
    SplitDistinct(nodes, spell, n, b, j);
    SplitPrefixClosed(nodes, spell, n, b, j);
    SplitLeafSet(nodes, spell, n, b, j);
    SplitChild(nodes, spell, n, b);
    SplitStrings(spell[n], sub, j);
    SplitInText(spell, X, sk, ch);
    LeavesKept(nodes, spell, r, sp, X, count);
    forall p: nat | p < count && p <= |X| ensures SuffixHasLeaf(r, sp, X, p) {
      assert SuffixHasLeaf(nodes, spell, X, p);
      var m: nat :| LeafSpells(nodes, spell, m, X[p..]);
      assert LeafSpells(r, sp, m, X[p..]);
    }
  }
}
