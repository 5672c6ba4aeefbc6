/**
 The query of `src/suffix_tree.py`: `search_tree` walks the edge labels
 from the root along the pattern, then `collect_leaves` enumerates the
 leaves below the node where the walk stopped and turns each leaf's path
 length into a text position. The module models the function as written,
 whose walk gives up when the pattern ends inside an edge and whose position
 formula is anchored at the root's empty label, and the evidently intended
 search, which stops inside the edge and counts from the indexed length.
 */
module SuffixTreeSearch {
  import opened Strings
  import opened Sorting
  import opened SuffixTreeArena
  import SuffixTree

  /**
   Where the walk of `search_tree` stops: no way on, the end of the pattern
   at a node, or the end of the pattern strictly inside the label leading to
   `child`, whose root path length is `depth`.
   */
  datatype Stop = Missing | AtNode(node: nat) | InEdge(child: nat, depth: nat)

  /** One step of the walk of `search_tree`: it stops, or it moves to `child` with `next` characters of the pattern read */
  datatype Move = Halt(stop: Stop) | Down(child: nat, next: nat)

  /**
   One label comparison of `search_tree` at node `n`, with the first `i`
   characters of `P` consumed: take the child under the next character,
   count how far the pattern agrees with its label, and either move to the
   child once the whole label is consumed or stop.
   */
  function Advance(nodes: seq<Node>, P: string, n: nat, i: nat): (m: Move)
    requires Shape(nodes) && n < |nodes| && i <= |P|
    ensures m.Down? ==> m.child < |nodes| && i < m.next <= |P|
  {
    if i == |P| then Halt(AtNode(n))
    else if P[i] !in nodes[n].children then Halt(Missing)
    else
      assert EdgeOk(nodes, n, P[i]);
      var n2 := nodes[n].children[P[i]];
      var sub2 := nodes[n2].sub;
      var j := AgreeLength(P[i..], sub2);
      if j < |sub2| then
        if i + j == |P| then Halt(InEdge(n2, i + |sub2|)) else Halt(Missing)
      else
        assert P[i..][0] == sub2[0];
        Down(n2, i + j)
  }

  /** The walk of `search_tree` from node `n` with the first `i` characters of `P` consumed */
  function Walk(nodes: seq<Node>, P: string, n: nat, i: nat): (s: Stop)
    requires Shape(nodes) && n < |nodes| && i <= |P|
    decreases |P| - i
  {
    match Advance(nodes, P, n, i)
    case Halt(s) => s
    case Down(n2, i2) => Walk(nodes, P, n2, i2)
  }

  /** The walk stops at a node below which lie exactly the nodes whose strings extend `P` */
  ghost predicate StopsAt(nodes: seq<Node>, spell: seq<string>, P: string, c: nat) {
    && c < |nodes| && c < |spell| && IsPrefix(P, spell[c])
    && forall m :: 0 <= m < |spell| && IsPrefix(P, spell[m]) ==> IsPrefix(spell[c], spell[m])
  }

  /** What each outcome of the walk means for the strings of the nodes */
  ghost predicate WalkMeaning(nodes: seq<Node>, spell: seq<string>, P: string, s: Stop) {
    match s
    case Missing => forall m :: 0 <= m < |spell| ==> !IsPrefix(P, spell[m])
    case AtNode(c) => c < |spell| && spell[c] == P && StopsAt(nodes, spell, P, c)
    case InEdge(c, d) =>
      && StopsAt(nodes, spell, P, c) && IsProperPrefix(P, spell[c]) && d == |spell[c]|
  }

  /** A node whose string is a prefix of `P` below which `P` leads to no child lies above no extension of `P` */
  lemma NoWayOn(nodes: seq<Node>, spell: seq<string>, P: string, n: nat, i: nat)
    requires LabelTrie(nodes, spell) && n < |nodes| && i < |P| && spell[n] == P[..i]
    requires P[i] !in nodes[n].children
    ensures forall m :: 0 <= m < |spell| ==> !IsPrefix(P, spell[m])
  {
    forall m | 0 <= m < |spell| ensures !IsPrefix(P, spell[m]) {
      if IsPrefix(P, spell[m]) {
        assert IsProperPrefix(spell[n], spell[m]);
      }
    }
  }

  /** Every extension of `P` continues from `n` through the child under `P[i]` */
  lemma ThroughChild(nodes: seq<Node>, spell: seq<string>, P: string, n: nat, i: nat, m: nat)
    requires LabelTrie(nodes, spell) && n < |nodes| && i < |P| && spell[n] == P[..i]
    requires m < |spell| && IsPrefix(P, spell[m])
    ensures P[i] in nodes[n].children && nodes[n].children[P[i]] < |nodes|
    ensures IsPrefix(spell[nodes[n].children[P[i]]], spell[m])
  {
    assert IsProperPrefix(spell[n], spell[m]);
    assert LeadsToward(nodes, spell, n, spell[m]);
  }

  /**
   One label comparison of the walk from `n`, where `P[..i]` is read: the
   child under `P[i]` and the number `j` of characters on which its label
   agrees with the rest of `P`, at least its first one.
   */
  lemma EdgeMatch(nodes: seq<Node>, spell: seq<string>, P: string, n: nat, i: nat) returns (n2: nat, j: nat)
    requires Shape(nodes) && Spells(nodes, spell) && n < |nodes| && i < |P| && spell[n] == P[..i]
    requires P[i] in nodes[n].children
    ensures n2 == nodes[n].children[P[i]] && n2 < |nodes| && j == AgreeLength(P[i..], nodes[n2].sub)
    ensures 0 < j <= |nodes[n2].sub| && i + j <= |P|
    ensures spell[n2] == spell[n] + nodes[n2].sub
    ensures P[..i + j] == spell[n] + nodes[n2].sub[..j]
    ensures j < |nodes[n2].sub| && i + j < |P| ==> P[i + j] != nodes[n2].sub[j]
  {
    assert EdgeOk(nodes, n, P[i]) && SpellStep(nodes, spell, n, P[i]);
    n2 := nodes[n].children[P[i]];
    j := AgreeLength(P[i..], nodes[n2].sub);
    AgreeLengthIsCommonPrefix(P[i..], nodes[n2].sub);
    assert P[i..][0] == nodes[n2].sub[0];
    PrefixExtend(P, i, nodes[n2].sub, j);
  }

  /** `P` ends inside the label of the child `n2`: the walk stops in that edge */
  lemma EndsInEdge(nodes: seq<Node>, spell: seq<string>, P: string, n: nat, i: nat, n2: nat, j: nat)
    requires LabelTrie(nodes, spell) && n < |nodes| && i < |P| && spell[n] == P[..i]
    requires P[i] in nodes[n].children && n2 == nodes[n].children[P[i]] && n2 < |nodes|
    requires j < |nodes[n2].sub| && i + j == |P|
    requires spell[n2] == spell[n] + nodes[n2].sub && P[..i + j] == spell[n] + nodes[n2].sub[..j]
    ensures WalkMeaning(nodes, spell, P, InEdge(n2, i + |nodes[n2].sub|))
  {
    assert P == spell[n] + nodes[n2].sub[..j];
    assert IsProperPrefix(P, spell[n2]);
    forall m | 0 <= m < |spell| && IsPrefix(P, spell[m]) ensures IsPrefix(spell[n2], spell[m]) {
      ThroughChild(nodes, spell, P, n, i, m);
    }
  }

  /** `P` parts from the label of the child `n2` inside it: nothing extends `P` */
  lemma PartsInEdge(nodes: seq<Node>, spell: seq<string>, P: string, n: nat, i: nat, n2: nat, j: nat)
    requires LabelTrie(nodes, spell) && n < |nodes| && i < |P| && spell[n] == P[..i]
    requires P[i] in nodes[n].children && n2 == nodes[n].children[P[i]] && n2 < |nodes|
    requires j < |nodes[n2].sub| && i + j < |P| && P[i + j] != nodes[n2].sub[j]
    requires spell[n2] == spell[n] + nodes[n2].sub && P[..i + j] == spell[n] + nodes[n2].sub[..j]
    ensures WalkMeaning(nodes, spell, P, Missing)
  {
    forall m | 0 <= m < |spell| ensures !IsPrefix(P, spell[m]) {
      if IsPrefix(P, spell[m]) {
        ThroughChild(nodes, spell, P, n, i, m);
      }
    }
  }

  /** The walk stops at `n`: `P` is read, or `n` has no child under its next character */
  lemma WalkEnds(nodes: seq<Node>, spell: seq<string>, P: string, n: nat, i: nat)
    requires LabelTrie(nodes, spell) && n < |nodes| && i <= |P| && spell[n] == P[..i]
    requires i == |P| || P[i] !in nodes[n].children
    ensures WalkMeaning(nodes, spell, P, Walk(nodes, P, n, i))
  {
    if i == |P| {
      assert spell[n] == P;
    } else {
      NoWayOn(nodes, spell, P, n, i);
    }
  }

  /** The label under `P[i]` is not read to its end: the walk stops in that edge or finds nothing */
  lemma WalkInEdge(nodes: seq<Node>, spell: seq<string>, P: string, n: nat, i: nat)
    requires LabelTrie(nodes, spell) && n < |nodes| && i < |P| && spell[n] == P[..i]
    requires P[i] in nodes[n].children && nodes[n].children[P[i]] < |nodes|
    requires AgreeLength(P[i..], nodes[nodes[n].children[P[i]]].sub) < |nodes[nodes[n].children[P[i]]].sub|
    ensures WalkMeaning(nodes, spell, P, Walk(nodes, P, n, i))
  {
    var n2, j := EdgeMatch(nodes, spell, P, n, i);
    if i + j == |P| {
      EndsInEdge(nodes, spell, P, n, i, n2, j);
    } else {
      PartsInEdge(nodes, spell, P, n, i, n2, j);
    }
  }

  /** The label under `P[i]` is read to its end: the walk steps down to a node spelling a longer prefix of `P` */
  lemma WalkOverEdge(nodes: seq<Node>, spell: seq<string>, P: string, n: nat, i: nat) returns (n2: nat, i2: nat)
    requires Shape(nodes) && Spells(nodes, spell) && n < |nodes| && i < |P| && spell[n] == P[..i]
    requires P[i] in nodes[n].children && nodes[n].children[P[i]] < |nodes|
    requires AgreeLength(P[i..], nodes[nodes[n].children[P[i]]].sub) == |nodes[nodes[n].children[P[i]]].sub|
    ensures n2 < |nodes| && i < i2 <= |P| && spell[n2] == P[..i2]
    ensures Advance(nodes, P, n, i) == Down(n2, i2)
  {
    var j;
    n2, j := EdgeMatch(nodes, spell, P, n, i);
    assert nodes[n2].sub[..j] == nodes[n2].sub;
    i2 := i + j;
    StepOverLabel(nodes, P, n, i);
  }

  /** Once the whole label under `P[i]` is read, the walk steps down to the child after the label */
  lemma StepOverLabel(nodes: seq<Node>, P: string, n: nat, i: nat)
    requires Shape(nodes) && n < |nodes| && i < |P|
    requires P[i] in nodes[n].children && nodes[n].children[P[i]] < |nodes|
    requires AgreeLength(P[i..], nodes[nodes[n].children[P[i]]].sub) == |nodes[nodes[n].children[P[i]]].sub|
    ensures i + |nodes[nodes[n].children[P[i]]].sub| <= |P|
    ensures Advance(nodes, P, n, i) == Down(nodes[n].children[P[i]], i + |nodes[nodes[n].children[P[i]]].sub|)
  {
    assert EdgeOk(nodes, n, P[i]);
    assert P[i..][0] == nodes[nodes[n].children[P[i]]].sub[0];
  }

  /** A step down is followed by the rest of the walk */
  lemma WalkDown(nodes: seq<Node>, P: string, n: nat, i: nat)
    requires Shape(nodes) && n < |nodes| && i <= |P| && Advance(nodes, P, n, i).Down?
    ensures Walk(nodes, P, n, i) == Walk(nodes, P, Advance(nodes, P, n, i).child, Advance(nodes, P, n, i).next)
  { }

  /** The walk means what `WalkMeaning` says, from any node spelling the consumed part of `P` */
  lemma {:induction false} WalkFinds(nodes: seq<Node>, spell: seq<string>, P: string, n: nat, i: nat)
    requires LabelTrie(nodes, spell) && n < |nodes| && i <= |P| && spell[n] == P[..i]
    ensures WalkMeaning(nodes, spell, P, Walk(nodes, P, n, i))
    decreases |P| - i
  {
    if i == |P| || P[i] !in nodes[n].children {
      WalkEnds(nodes, spell, P, n, i);
    } else {
      assert EdgeOk(nodes, n, P[i]);
      var sub2 := nodes[nodes[n].children[P[i]]].sub;
      if AgreeLength(P[i..], sub2) < |sub2| {
        WalkInEdge(nodes, spell, P, n, i);
      } else {
        var n2, i2 := WalkOverEdge(nodes, spell, P, n, i);
        WalkDown(nodes, P, n, i);
        WalkFinds(nodes, spell, P, n2, i2);
      }
    }
  }

  /** Leaf `m` lies in the subtree of `node`: its string extends the node's */
  ghost predicate SubtreeLeaf(nodes: seq<Node>, spell: seq<string>, node: nat, m: nat) {
    node < |spell| && m < |spell| && IsLeaf(nodes, m) && IsPrefix(spell[node], spell[m])
  }

  /** Leaf `m` of the subtree of `node` continues under a character of `done` */
  ghost predicate LeafVia(nodes: seq<Node>, spell: seq<string>, node: nat, m: nat, done: set<char>) {
    && SubtreeLeaf(nodes, spell, node, m)
    && |spell[node]| < |spell[m]| && spell[m][|spell[node]|] in done
  }

  /** A leaf's subtree is the leaf alone */
  lemma LeafSubtree(nodes: seq<Node>, spell: seq<string>, node: nat)
    requires LabelTrie(nodes, spell) && IsLeaf(nodes, node)
    ensures forall m: nat :: m in [node] <==> SubtreeLeaf(nodes, spell, node, m)
  {
    forall m: nat | SubtreeLeaf(nodes, spell, node, m) && m != node ensures false {
      assert !SameSpell(spell, node, m);
      assert IsProperPrefix(spell[node], spell[m]);
    }
  }

  /** The subtree of a child is the part of its parent's subtree that continues under the child's key */
  lemma ChildSubtree(nodes: seq<Node>, spell: seq<string>, node: nat, c: char, m: nat)
    requires LabelTrie(nodes, spell) && node < |nodes| && c in nodes[node].children
    ensures SubtreeLeaf(nodes, spell, nodes[node].children[c], m) <==> LeafVia(nodes, spell, node, m, {c})
  {
    assert EdgeOk(nodes, node, c) && SpellStep(nodes, spell, node, c);
    var ch := nodes[node].children[c];
    if SubtreeLeaf(nodes, spell, ch, m) {
      PrefixTransitive(spell[node], spell[ch], spell[m]);
      assert spell[m][|spell[node]|] == spell[ch][|spell[node]|];
    }
    if LeafVia(nodes, spell, node, m, {c}) {
      assert IsProperPrefix(spell[node], spell[m]);
      assert LeadsToward(nodes, spell, node, spell[m]);
    }
  }

  /** Below an inner node every leaf continues under one of its keys */
  lemma InnerSubtree(nodes: seq<Node>, spell: seq<string>, node: nat, m: nat)
    requires LabelTrie(nodes, spell) && node < |nodes| && !IsLeaf(nodes, node)
    requires SubtreeLeaf(nodes, spell, node, m)
    ensures LeafVia(nodes, spell, node, m, nodes[node].children.Keys)
  {
    assert !SameSpell(spell, node, m);
    assert IsProperPrefix(spell[node], spell[m]);
    assert LeadsToward(nodes, spell, node, spell[m]);
  }

  /** Once every key of an inner node is done, the leaves gathered are its whole subtree */
  lemma InnerDone(nodes: seq<Node>, spell: seq<string>, node: nat, leaves: seq<nat>)
    requires LabelTrie(nodes, spell) && node < |nodes| && !IsLeaf(nodes, node)
    requires forall m: nat :: m in leaves <==> LeafVia(nodes, spell, node, m, nodes[node].children.Keys)
    ensures forall m: nat :: m in leaves <==> SubtreeLeaf(nodes, spell, node, m)
  {
    forall m: nat | SubtreeLeaf(nodes, spell, node, m) ensures m in leaves {
      InnerSubtree(nodes, spell, node, m);
    }
  }

  /** What `collect_leaves` needs of the arena: a trie of labels whose strings fit the text */
  ghost predicate Collectable(nodes: seq<Node>, spell: seq<string>, X: string) {
    LabelTrie(nodes, spell) && SpellsInText(spell, X)
  }

  /**
   `found` holds one position per leaf of `leaves`, the leaf at path length
   `d` giving `base - d`, and no leaf is listed twice.
   */
  ghost predicate Gathered(spell: seq<string>, base: int, found: seq<int>, leaves: seq<nat>) {
    && |found| == |leaves| && Distinct(leaves)
    && forall k :: 0 <= k < |leaves| ==> leaves[k] < |spell| && found[k] == base - |spell[leaves[k]]|
  }

  /**
   `collect_leaves(node, pathLength)`: a leaf contributes the position
   `base - pathLength`; an inner node hands each child its path length plus
   the child's label, visiting the children in the dictionary's order, which
   the model leaves open. With `pathLength` the root path length of `node`,
   the result has one entry per leaf of the subtree, for the leaves listed
   in the ghost `leaves`.
   */
  method CollectLeaves(nodes: seq<Node>, node: nat, pathLength: int, base: int,
                       ghost spell: seq<string>, ghost X: string)
    returns (found: seq<int>, ghost leaves: seq<nat>)
    requires Collectable(nodes, spell, X) && node < |nodes| && pathLength == |spell[node]|
    ensures Gathered(spell, base, found, leaves)
    ensures forall m: nat :: m in leaves <==> SubtreeLeaf(nodes, spell, node, m)
    ensures forall m: nat {:trigger SubtreeLeaf(nodes, spell, node, m)} :: SubtreeLeaf(nodes, spell, node, m) ==> base - |spell[m]| in found
    decreases |X| - |spell[node]|, 2
  {
    if |nodes[node].children| == 0 {
      LeafSubtree(nodes, spell, node);
      found, leaves := [base - pathLength], [node];
      GatheredValues(nodes, spell, node, base, found, leaves);
    } else {
      found, leaves := CollectChildren(nodes, node, pathLength, base, spell, X);
    }
  }

  /** The loop of `collect_leaves` over the children of an inner node */
  method CollectChildren(nodes: seq<Node>, node: nat, pathLength: int, base: int,
                         ghost spell: seq<string>, ghost X: string)
    returns (found: seq<int>, ghost leaves: seq<nat>)
    requires Collectable(nodes, spell, X) && node < |nodes| && pathLength == |spell[node]|
    requires !IsLeaf(nodes, node)
    ensures Gathered(spell, base, found, leaves)
    ensures forall m: nat :: m in leaves <==> SubtreeLeaf(nodes, spell, node, m)
    ensures forall m: nat {:trigger SubtreeLeaf(nodes, spell, node, m)} :: SubtreeLeaf(nodes, spell, node, m) ==> base - |spell[m]| in found
    decreases |X| - |spell[node]|, 1
  {
    var keys := nodes[node].children.Keys;
    found, leaves := [], [];
    while keys != {}
      invariant keys <= nodes[node].children.Keys
      invariant Gathered(spell, base, found, leaves)
      invariant forall m: nat :: m in leaves <==> LeafVia(nodes, spell, node, m, nodes[node].children.Keys - keys)
      decreases |keys|
    {
      var c :| c in keys;
      found, leaves := CollectChild(nodes, node, c, pathLength, base, spell, X, found, leaves,
                                    nodes[node].children.Keys - keys);
      assert nodes[node].children.Keys - keys + {c} == nodes[node].children.Keys - (keys - {c});
      keys := keys - {c};
    }
    InnerDone(nodes, spell, node, leaves);
    GatheredValues(nodes, spell, node, base, found, leaves);
  }

  /** Every leaf of the subtree, at path length `d`, has its value `base - d` among the gathered ones */
  lemma GatheredValues(nodes: seq<Node>, spell: seq<string>, node: nat, base: int, found: seq<int>, leaves: seq<nat>)
    requires Gathered(spell, base, found, leaves)
    requires forall m: nat :: m in leaves <==> SubtreeLeaf(nodes, spell, node, m)
    ensures forall m: nat {:trigger SubtreeLeaf(nodes, spell, node, m)} :: SubtreeLeaf(nodes, spell, node, m) ==> base - |spell[m]| in found
  {
    forall m: nat | SubtreeLeaf(nodes, spell, node, m) ensures base - |spell[m]| in found {
      var k :| 0 <= k < |leaves| && leaves[k] == m;
      assert found[k] == base - |spell[m]|;
    }
  }

  /**
   One turn of the loop over `children.values()`: collect below the child
   under `c` and append what it finds to the leaves gathered under the keys
   of `done`.
   */
  method CollectChild(nodes: seq<Node>, node: nat, c: char, pathLength: int, base: int,
                      ghost spell: seq<string>, ghost X: string,
                      found: seq<int>, ghost leaves: seq<nat>, ghost done: set<char>)
    returns (found': seq<int>, ghost leaves': seq<nat>)
    requires Collectable(nodes, spell, X) && node < |nodes| && pathLength == |spell[node]|
    requires c in nodes[node].children && c !in done
    requires Gathered(spell, base, found, leaves)
    requires forall m: nat :: m in leaves <==> LeafVia(nodes, spell, node, m, done)
    ensures Gathered(spell, base, found', leaves')
    ensures forall m: nat :: m in leaves' <==> LeafVia(nodes, spell, node, m, done + {c})
    ensures |found| <= |found'| && found'[..|found|] == found
    decreases |X| - |spell[node]|, 0
  {
    assert EdgeOk(nodes, node, c) && SpellStep(nodes, spell, node, c);
    var child := nodes[node].children[c];
    var f, ls := CollectLeaves(nodes, child, pathLength + |nodes[child].sub|, base, spell, X);
    forall m: nat ensures m in leaves + ls <==> LeafVia(nodes, spell, node, m, done + {c}) {
      ChildSubtree(nodes, spell, node, c, m);
    }
    AppendGathered(nodes, spell, node, base, done, c, found, leaves, f, ls);
    found', leaves' := found + f, leaves + ls;
  }

  /** Leaves gathered under distinct keys are distinct, so the two lists join */
  lemma AppendGathered(nodes: seq<Node>, spell: seq<string>, node: nat, base: int, done: set<char>, c: char,
                       found: seq<int>, leaves: seq<nat>, f: seq<int>, ls: seq<nat>)
    requires Gathered(spell, base, found, leaves) && Gathered(spell, base, f, ls) && c !in done
    requires forall m: nat :: m in leaves ==> LeafVia(nodes, spell, node, m, done)
    requires forall m: nat :: m in ls ==> LeafVia(nodes, spell, node, m, {c})
    ensures Gathered(spell, base, found + f, leaves + ls)
  {
    var a := leaves + ls;
    forall x, y | 0 <= x < y < |a| ensures a[x] != a[y] {
      if x < |leaves| <= y {
        assert leaves[x] in leaves && ls[y - |leaves|] in ls;
      }
    }
  }

  /** A leaf of the tree of the whole text spells the suffix of `X` of its own length */
  ghost predicate LeafOccurrence(spell: seq<string>, X: string, P: string, m: nat) {
    m < |spell| && 0 < |spell[m]| <= |X| && spell[m] == X[|X| - |spell[m]|..] && IsPrefix(P, spell[m])
  }

  /** The root of the tree of a whole terminated text is not a leaf */
  lemma RootInner(nodes: seq<Node>, spell: seq<string>, X: string)
    requires IsSuffixTreeOf(nodes, spell, X, |X|)
    ensures !IsLeaf(nodes, 0)
  {
    assert SuffixHasLeaf(nodes, spell, X, 0);
    var m: nat :| LeafSpells(nodes, spell, m, X[0..]);
    assert IsProperPrefix(spell[0], spell[m]);
    assert LeadsToward(nodes, spell, 0, spell[m]);
  }

  /** Every suffix of the text is spelled by a non-root leaf */
  lemma SuffixLeaf(nodes: seq<Node>, spell: seq<string>, X: string, p: nat) returns (m: nat)
    requires IsSuffixTreeOf(nodes, spell, X, |X|) && p < |X|
    ensures 0 < m < |nodes| && IsLeaf(nodes, m) && spell[m] == X[p..]
  {
    assert SuffixHasLeaf(nodes, spell, X, p);
    m :| LeafSpells(nodes, spell, m, X[p..]);
  }

  /** When no node's string extends `P`, `P` starts no suffix of the text */
  lemma NoOccurrence(nodes: seq<Node>, spell: seq<string>, X: string, P: string)
    requires IsSuffixTreeOf(nodes, spell, X, |X|)
    requires forall m :: 0 <= m < |spell| ==> !IsPrefix(P, spell[m])
    ensures forall p :: 0 <= p < |X| ==> !IsPrefix(P, X[p..])
  {
    forall p | 0 <= p < |X| ensures !IsPrefix(P, X[p..]) {
      var m := SuffixLeaf(nodes, spell, X, p);
    }
  }

  /**
   Below the stop node `c` of the walk for `P` lie exactly the leaves of the
   suffixes of `X` that start with `P`.
   */
  lemma StopCovers(nodes: seq<Node>, spell: seq<string>, X: string, P: string, c: nat)
    requires IsSuffixTreeOf(nodes, spell, X, |X|) && StopsAt(nodes, spell, P, c)
    ensures DistinctSpells(spell)
    ensures forall m: nat :: SubtreeLeaf(nodes, spell, c, m) ==> LeafOccurrence(spell, X, P, m)
    ensures forall p :: 0 <= p < |X| && IsPrefix(P, X[p..]) ==>
      exists m: nat :: SubtreeLeaf(nodes, spell, c, m) && spell[m] == X[p..]
  {
    RootInner(nodes, spell, X);
    forall m: nat | SubtreeLeaf(nodes, spell, c, m) ensures LeafOccurrence(spell, X, P, m) {
      PrefixTransitive(P, spell[c], spell[m]);
    }
    forall p | 0 <= p < |X| && IsPrefix(P, X[p..])
      ensures exists m: nat :: SubtreeLeaf(nodes, spell, c, m) && spell[m] == X[p..]
    {
      var m := SuffixLeaf(nodes, spell, X, p);
      assert SubtreeLeaf(nodes, spell, c, m);
    }
  }

  /** Each collected leaf spells a suffix of `X` that starts with `P` */
  ghost predicate LeavesOccur(spell: seq<string>, X: string, P: string, leaves: seq<nat>) {
    forall k :: 0 <= k < |leaves| ==> LeafOccurrence(spell, X, P, leaves[k])
  }

  /** Each start of `P` in `X` is the suffix spelled by some collected leaf */
  ghost predicate LeavesCover(spell: seq<string>, X: string, P: string, leaves: seq<nat>) {
    forall p :: 0 <= p < |X| && IsPrefix(P, X[p..]) ==>
      exists k :: 0 <= k < |leaves| && leaves[k] < |spell| && spell[leaves[k]] == X[p..]
  }

  /** The leaves of the subtree of the stop node, listed by `leaves`, are the occurrences of `P` */
  lemma LeavesAreOccurrences(nodes: seq<Node>, spell: seq<string>, X: string, P: string, c: nat, leaves: seq<nat>)
    requires forall m: nat :: SubtreeLeaf(nodes, spell, c, m) ==> LeafOccurrence(spell, X, P, m)
    requires forall p :: 0 <= p < |X| && IsPrefix(P, X[p..]) ==>
      exists m: nat :: SubtreeLeaf(nodes, spell, c, m) && spell[m] == X[p..]
    requires forall m: nat :: m in leaves <==> SubtreeLeaf(nodes, spell, c, m)
    ensures LeavesOccur(spell, X, P, leaves) && LeavesCover(spell, X, P, leaves)
  {
    forall k | 0 <= k < |leaves| ensures LeafOccurrence(spell, X, P, leaves[k]) {
      assert leaves[k] in leaves;
    }
    forall p | 0 <= p < |X| && IsPrefix(P, X[p..])
      ensures exists k :: 0 <= k < |leaves| && leaves[k] < |spell| && spell[leaves[k]] == X[p..]
    {
      var m: nat :| SubtreeLeaf(nodes, spell, c, m) && spell[m] == X[p..];
      assert m in leaves;
    }
  }

  /** Different leaves lie at different path lengths, so the positions are distinct */
  lemma FoundDistinct(spell: seq<string>, X: string, P: string, base: int, found: seq<int>, leaves: seq<nat>)
    requires DistinctSpells(spell) && Gathered(spell, base, found, leaves) && LeavesOccur(spell, X, P, leaves)
    ensures Distinct(found)
  {
    forall x, y | 0 <= x < y < |found| ensures found[x] != found[y] {
      assert LeafOccurrence(spell, X, P, leaves[x]) && LeafOccurrence(spell, X, P, leaves[y]);
      if found[x] == found[y] {
        assert SameSpell(spell, leaves[x], leaves[y]);
      }
    }
  }

  /** Every collected position is a start of `P`, shifted by `base - |X|` */
  lemma FoundSound(spell: seq<string>, X: string, P: string, base: int, found: seq<int>, leaves: seq<nat>)
    requires Gathered(spell, base, found, leaves) && LeavesOccur(spell, X, P, leaves)
    ensures forall x :: x in found ==> 0 <= x - base + |X| < |X| && IsPrefix(P, X[x - base + |X|..])
  {
    forall x | x in found ensures 0 <= x - base + |X| < |X| && IsPrefix(P, X[x - base + |X|..]) {
      var k :| 0 <= k < |found| && found[k] == x;
      assert LeafOccurrence(spell, X, P, leaves[k]);
    }
  }

  /** Every start of `P`, shifted by `base - |X|`, is collected */
  lemma FoundComplete(spell: seq<string>, X: string, P: string, base: int, found: seq<int>, leaves: seq<nat>)
    requires Gathered(spell, base, found, leaves) && LeavesCover(spell, X, P, leaves)
    ensures forall p :: 0 <= p < |X| && IsPrefix(P, X[p..]) ==> base - |X| + p in found
  {
    forall p | 0 <= p < |X| && IsPrefix(P, X[p..]) ensures base - |X| + p in found {
      var k :| 0 <= k < |leaves| && leaves[k] < |spell| && spell[leaves[k]] == X[p..];
      assert found[k] == base - |X| + p;
    }
  }

  /**
   Collect below the stop node `c` and sort: the positions are the starts
   of `P` in `X` shifted by `base - |X|`, ascending and each once.
   */
  method PositionsBelow(nodes: seq<Node>, P: string, c: nat, pathLength: int, base: int,
                        ghost spell: seq<string>, ghost X: string)
    returns (count: nat, positions: seq<int>)
    requires IsSuffixTreeOf(nodes, spell, X, |X|) && StopsAt(nodes, spell, P, c) && pathLength == |spell[c]|
    ensures count == |positions| && StrictlyAscending(positions)
    ensures forall p :: 0 <= p < |X| ==> (base - |X| + p in positions <==> IsPrefix(P, X[p..]))
    ensures forall x :: x in positions ==> 0 <= x - base + |X| < |X| && IsPrefix(P, X[x - base + |X|..])
  {
    StopCovers(nodes, spell, X, P, c);
    var found;
    ghost var leaves;
    found, leaves := CollectLeaves(nodes, c, pathLength, base, spell, X);
    LeavesAreOccurrences(nodes, spell, X, P, c, leaves);
    FoundDistinct(spell, X, P, base, found, leaves);
    FoundSound(spell, X, P, base, found, leaves);
    FoundComplete(spell, X, P, base, found, leaves);
    positions := Sort(found);
    SortKeeps(found);
    count := |found|;
  }

  /** With `base` the length of `X`, the shifted positions are the starts themselves */
  lemma Unshifted(X: string, P: string, base: int, positions: seq<int>)
    requires base == |X|
    requires forall p :: 0 <= p < |X| ==> (base - |X| + p in positions <==> IsPrefix(P, X[p..]))
    requires forall x :: x in positions ==> 0 <= x - base + |X| < |X| && IsPrefix(P, X[x - base + |X|..])
    ensures forall p :: p in positions <==> 0 <= p < |X| && IsPrefix(P, X[p..])
  {
  }

  /** With the base `-1` of the formula as written, each start `p` shows as `p - |X| - 1` */
  lemma ShiftedBelowZero(X: string, P: string, base: int, positions: seq<int>)
    requires base == -1
    requires forall p :: 0 <= p < |X| ==> (base - |X| + p in positions <==> IsPrefix(P, X[p..]))
    requires forall x :: x in positions ==> 0 <= x - base + |X| < |X| && IsPrefix(P, X[x - base + |X|..])
    ensures forall p :: 0 <= p < |X| ==> (p - |X| - 1 in positions <==> IsPrefix(P, X[p..]))
    ensures forall x :: x in positions ==> -|X| - 1 <= x < -1 && IsPrefix(P, X[x + |X| + 1..])
  {
  }

  /** Some node's string is exactly `P` */
  ghost predicate NodeSpells(spell: seq<string>, P: string) {
    exists m :: 0 <= m < |spell| && spell[m] == P
  }

  /** The walk from the root stops exactly at a node iff some node's string is the whole pattern */
  lemma StopsAtNodeIff(nodes: seq<Node>, spell: seq<string>, P: string)
    requires LabelTrie(nodes, spell)
    ensures Walk(nodes, P, 0, 0).AtNode? <==> NodeSpells(spell, P)
  {
    WalkFinds(nodes, spell, P, 0, 0);
    if NodeSpells(spell, P) {
      var m :| 0 <= m < |spell| && spell[m] == P;
      assert IsPrefix(P, spell[m]);
    }
  }

  /**
   `search_tree(tree, P)` as written: `(0, [])` unless the walk ends
   exactly at a node, and otherwise the collected values with the position
   formula anchored at the root's label, `len(root label) - pathLength - 1`.
   Since the root's label is empty, each occurrence `p` of `P` in the
   indexed text `X` is reported as `p - |X| - 1`, a negative number.
   */
  method SearchTreeAsWritten(nodes: seq<Node>, P: string, ghost spell: seq<string>, ghost X: string)
    returns (count: nat, positions: seq<int>)
    requires IsSuffixTreeOf(nodes, spell, X, |X|)
    ensures count == |positions| && StrictlyAscending(positions)
    ensures !Walk(nodes, P, 0, 0).AtNode? ==> count == 0 && positions == []
    ensures Walk(nodes, P, 0, 0).AtNode? ==>
      forall p :: 0 <= p < |X| ==> (p - |X| - 1 in positions <==> IsPrefix(P, X[p..]))
    ensures forall x :: x in positions ==> -|X| - 1 <= x < -1 && IsPrefix(P, X[x + |X| + 1..])
    ensures !NodeSpells(spell, P) ==> count == 0 && positions == []
    ensures NodeSpells(spell, P) ==>
      forall p :: 0 <= p < |X| ==> (p - |X| - 1 in positions <==> IsPrefix(P, X[p..]))
  {
    StopsAtNodeIff(nodes, spell, P);
    var s := Walk(nodes, P, 0, 0);
    if !s.AtNode? {
      return 0, [];
    }
    count, positions := PositionsAsWritten(nodes, P, s.node, spell, X);
  }

  /** The as-written collection once the walk for `P` has stopped exactly at the node `c` */
  method PositionsAsWritten(nodes: seq<Node>, P: string, c: nat, ghost spell: seq<string>, ghost X: string)
    returns (count: nat, positions: seq<int>)
    requires IsSuffixTreeOf(nodes, spell, X, |X|) && Walk(nodes, P, 0, 0) == AtNode(c)
    ensures count == |positions| && StrictlyAscending(positions)
    ensures forall p :: 0 <= p < |X| ==> (p - |X| - 1 in positions <==> IsPrefix(P, X[p..]))
    ensures forall x :: x in positions ==> -|X| - 1 <= x < -1 && IsPrefix(P, X[x + |X| + 1..])
  {
    WalkFinds(nodes, spell, P, 0, 0);
    var base := |nodes[0].sub| - 1;
    assert base == -1;
    count, positions := PositionsBelow(nodes, P, c, |P|, base, spell, X);
    ShiftedBelowZero(X, P, base, positions);
  }

  /**
   The evidently intended search, which navigates to where the pattern
   ends and reads each leaf's starting position off its path length: a pattern ending inside an edge stops
   at the child below that edge, and a leaf at path length `d` is the
   suffix starting at `indexedLength - d`, `indexedLength = |text| + 1`
   being the length of the indexed `text + "$"`. The positions are exactly
   the starts of `P` in the indexed text, ascending and each once.
   */
  method SearchTree(nodes: seq<Node>, P: string, indexedLength: nat, ghost spell: seq<string>, ghost text: string)
    returns (count: nat, positions: seq<int>)
    requires indexedLength == |text| + 1
    requires IsSuffixTreeOf(nodes, spell, text + [Terminator], indexedLength)
    ensures count == |positions| && StrictlyAscending(positions)
    ensures forall p :: p in positions <==> 0 <= p <= |text| && IsPrefix(P, (text + [Terminator])[p..])
    ensures P == [] ==> positions == Range(|text| + 1)
  {
    ghost var X := text + [Terminator];
    var s := Walk(nodes, P, 0, 0);
    WalkFinds(nodes, spell, P, 0, 0);
    if s.Missing? {
      NoOccurrence(nodes, spell, X, P);
      return 0, [];
    }
    var c, depth := if s.AtNode? then s.node else s.child, if s.AtNode? then |P| else s.depth;
    count, positions := PositionsBelow(nodes, P, c, depth, indexedLength, spell, X);
    Unshifted(X, P, indexedLength, positions);
    if P == [] {
      EverywhereIsRange(text, positions);
    }
  }

  /**
   For a non-empty pattern without the terminator, its starts in the
   indexed `text + "$"` are its starts in `text`: the positions of the
   suffix tree search are those of the suffix array search.
   */
  lemma IndexedOccurrence(text: string, P: string, p: nat)
    requires Terminator !in P && P != [] && p <= |text|
    ensures IsPrefix(P, (text + [Terminator])[p..]) <==> p < |text| && IsPrefix(P, text[p..])
  {
    var X := text + [Terminator];
    assert X[p..] == text[p..] + [Terminator];
    assert |text| - p < |P| <= |X| - p ==> X[p..][..|P|][|text| - p] == Terminator;
    if p < |text| && IsPrefix(P, text[p..]) {
      assert X[p..][..|P|] == text[p..][..|P|];
    }
  }

  /** Positions that are exactly the starts of the empty pattern in `text + "$"`, ascending, are `0 .. |text|` */
  lemma EverywhereIsRange(text: string, positions: seq<int>)
    requires StrictlyAscending(positions)
    requires forall p :: p in positions <==> 0 <= p <= |text| && IsPrefix([], (text + [Terminator])[p..])
    ensures positions == Range(|text| + 1)
  {
    StrictlyAscendingIsRange(positions, |text| + 1);
  }

  /** A map with at least two entries has two distinct keys */
  lemma TwoKeys(m: map<char, nat>) returns (c1: char, c2: char)
    requires |m| >= 2
    ensures c1 in m && c2 in m && c1 != c2
  {
    c1 :| c1 in m;
    var rest := m.Keys - {c1};
    assert |rest| == |m.Keys| - 1;
    c2 :| c2 in rest;
  }

  /** Below every non-root node hangs a non-root leaf whose string extends the node's */
  lemma {:induction false} LeafBelow(nodes: seq<Node>, spell: seq<string>, X: string, n: nat) returns (m: nat)
    requires Shape(nodes) && Spells(nodes, spell) && SpellsInText(spell, X)
    requires 0 < n < |nodes|
    ensures m in LeafSet(nodes) && IsPrefix(spell[n], spell[m])
    decreases |X| - |spell[n]|
  {
    if nodes[n].children == map[] {
      m := n;
    } else {
      var c :| c in nodes[n].children;
      assert EdgeOk(nodes, n, c) && SpellStep(nodes, spell, n, c);
      var k := nodes[n].children[c];
      m := LeafBelow(nodes, spell, X, k);
      assert spell[k][..|spell[n]|] == spell[n];
      PrefixTransitive(spell[n], spell[k], spell[m]);
    }
  }

  /**
   In a tree holding suffixes of `X`, the first character of any child's
   label comes right after the node's string in some leaf's suffix.
   */
  lemma ChildStartsSuffix(nodes: seq<Node>, spell: seq<string>, X: string, count: nat, n: nat, c: char)
    returns (m: nat)
    requires Shape(nodes) && Spells(nodes, spell) && SpellsInText(spell, X)
    requires LeavesAreSuffixes(nodes, spell, X, count)
    requires n < |nodes| && c in nodes[n].children
    ensures m in LeafSet(nodes) && IsPrefix(spell[n], spell[m])
    ensures |spell[n]| < |spell[m]| <= |X| && spell[m][|spell[n]|] == c
    ensures spell[m] == X[|X| - |spell[m]|..]
  {
    assert EdgeOk(nodes, n, c) && SpellStep(nodes, spell, n, c);
    var k := nodes[n].children[c];
    m := LeafBelow(nodes, spell, X, k);
    assert spell[k][..|spell[n]|] == spell[n];
    PrefixTransitive(spell[n], spell[k], spell[m]);
    assert spell[m][|spell[n]|] == spell[m][..|spell[k]|][|spell[n]|];
    assert IsLeaf(nodes, m);
  }

  /** A leaf of a tree holding suffixes of `"a$"` spells `"a$"` or `"$"`, never `"a"` */
  lemma LeafNotA(nodes: seq<Node>, spell: seq<string>, n: nat)
    requires HoldsSuffixes(nodes, spell, "a$", 2) && |spell| == |nodes|
    requires 0 < n < |nodes| && IsLeaf(nodes, n)
    ensures spell[n] != "a"
  {
    assert LeavesAreSuffixes(nodes, spell, "a$", 2);
    assert spell[n] == "a$"[2 - |spell[n]|..];
  }

  /**
   In a tree of suffixes of `"a$"` only the root branches: two children of a
   node spelling `w` would start two suffixes `w + c` with distinct `c`, and
   no two suffixes of `"a$"` share a first character.
   */
  lemma BranchIsRoot(nodes: seq<Node>, spell: seq<string>, n: nat)
    requires IsSuffixTreeOf(nodes, spell, "a$", 2)
    requires n < |nodes| && |nodes[n].children| >= 2
    ensures spell[n] == []
  {
    var c1, c2 := TwoKeys(nodes[n].children);
    var m1 := ChildStartsSuffix(nodes, spell, "a$", 2, n, c1);
    var m2 := ChildStartsSuffix(nodes, spell, "a$", 2, n, c2);
  }

  /**
   Whatever compressed tree of both suffixes of `"a$"` the construction
   returns, no node spells `"a"`: it would be a leaf, or a branching node
   other than the root.
   */
  lemma NoNodeSpellsA(nodes: seq<Node>, spell: seq<string>)
    requires IsSuffixTreeOf(nodes, spell, "a$", 2) && Compressed(nodes)
    ensures !NodeSpells(spell, "a")
  {
    forall n | 0 <= n < |spell| ensures spell[n] != "a" {
      if n == 0 {
      } else if |nodes[n].children| == 0 {
        LeafNotA(nodes, spell, n);
      } else {
        BranchIsRoot(nodes, spell, n);
      }
    }
  }

  /**
   The arena `build_suffix_tree("a")` produces: the two `add_suffix` calls
   each find no child under the suffix's first character at the root and
   hang the whole suffix there by `AttachLeaf`, first `"a$"`, then `"$"`.
   */
  function TreeOfA(): (r: seq<Node>)
    ensures r == [Node([], map['a' := 1, '$' := 2]), Node("a$", map[]), Node("$", map[])]
  {
    AttachLeaf(AttachLeaf([Node([], map[])], 0, "a$"), 0, "$")
  }

  /** The node strings of `TreeOfA()` */
  function SpellOfA(): seq<string> {
    [[], "a$", "$"]
  }

  /** `TreeOfA()` is the tree of both suffixes of `"a$"`, and a compressed one */
  lemma TreeOfAIsSuffixTree()
    ensures IsSuffixTreeOf(TreeOfA(), SpellOfA(), "a$", 2)
    ensures Compressed(TreeOfA())
  {
    TreeOfALabels();
    TreeOfADistinct();
    TreeOfAPrefixClosed();
    TreeOfAHolds();
    TreeOfACompressed();
  }

  /** Both non-root nodes of `TreeOfA()` are leaves */
  lemma TreeOfACompressed()
    ensures Compressed(TreeOfA())
  {
    var t := TreeOfA();
    forall n | 0 < n < |t| ensures |t[n].children| != 1 {
      assert t[n].children == map[];
    }
  }

  /** Every edge of `TreeOfA()` is keyed by its label's first character and reads `SpellOfA()` */
  lemma TreeOfALabels()
    ensures Shape(TreeOfA()) && Spells(TreeOfA(), SpellOfA())
  {
    var t, spell := TreeOfA(), SpellOfA();
    forall n, c | 0 <= n < |t| && c in t[n].children ensures EdgeOk(t, n, c) && SpellStep(t, spell, n, c) {
      assert n == 0 && (c == 'a' || c == '$');
    }
  }

  /** The three node strings differ */
  lemma TreeOfADistinct()
    ensures DistinctSpells(SpellOfA())
  {
    var spell := SpellOfA();
    assert spell[1][0] != spell[2][0];
  }

  /** Only the root's string is a proper prefix of another, and its child leads there */
  lemma TreeOfAPrefixClosed()
    ensures PrefixClosed(TreeOfA(), SpellOfA())
  {
    var t, spell := TreeOfA(), SpellOfA();
    forall a, b | 0 <= a < |t| && 0 <= b < |t| && IsProperPrefix(spell[a], spell[b])
      ensures LeadsToward(t, spell, a, spell[b])
    {
      assert a == 0 && b != 0;
      assert spell[b][..|spell[b]|] == spell[b];
    }
  }

  /** The leaves of `TreeOfA()` are exactly the two suffixes of `"a$"` */
  lemma TreeOfAHolds()
    ensures HoldsSuffixes(TreeOfA(), SpellOfA(), "a$", 2)
  {
    TreeOfATerminated();
    TreeOfALeaves();
    TreeOfASuffixes();
    TreeOfALeafSet();
  }

  /** `"a$"` ends with its only terminator, and every node string fits it */
  lemma TreeOfATerminated()
    ensures Terminated("a$") && SpellsInText(SpellOfA(), "a$")
  {
  }

  /** Each leaf spells a suffix of `"a$"` */
  lemma TreeOfALeaves()
    ensures LeavesAreSuffixes(TreeOfA(), SpellOfA(), "a$", 2)
  {
    assert "a$"[0..] == "a$" && "a$"[1..] == "$";
  }

  /** Each suffix of `"a$"` has its leaf */
  lemma TreeOfASuffixes()
    ensures SuffixesAreLeaves(TreeOfA(), SpellOfA(), "a$", 2)
  {
    var t, spell, X := TreeOfA(), SpellOfA(), "a$";
    assert X[0..] == "a$" && X[1..] == "$";
    assert LeafSpells(t, spell, 1, X[0..]) && LeafSpells(t, spell, 2, X[1..]);
  }

  /** `TreeOfA()` has two non-root leaves */
  lemma TreeOfALeafSet()
    ensures |LeafSet(TreeOfA())| == 2
  {
    assert LeafSet(TreeOfA()) == {1, 2};
  }

  /** No node of `TreeOfA()` spells `"a"`, though `"a"` starts `"a$"`; the root spells the empty pattern */
  lemma SpelledOfA()
    ensures !NodeSpells(SpellOfA(), "a") && NodeSpells(SpellOfA(), "")
    ensures IsPrefix("a", "a$"[0..])
  {
    var spell := SpellOfA();
    assert "a$"[0..][..1] == "a";
    assert spell[0] == "";
    forall m | 0 <= m < |spell| ensures spell[m] != "a" {
      assert |spell[m]| != 1 || spell[m][0] != 'a';
    }
  }

  /** On `TreeOfA()` the walk for `"a"` stops inside the edge `"a$"`, and the walk for the empty pattern at the root */
  lemma WalksOfA()
    ensures Walk(TreeOfA(), "a", 0, 0) == InEdge(1, 2)
    ensures Walk(TreeOfA(), "", 0, 0) == AtNode(0)
  {
    TreeOfALabels();
    assert "a"[0..][..1] == "a";
    assert AgreeLength("a", "a$") == 1;
  }

  /** The root spells the empty pattern in every arena */
  lemma RootSpellsEmpty(nodes: seq<Node>, spell: seq<string>)
    requires Spells(nodes, spell)
    ensures NodeSpells(spell, [])
  {
    assert spell[0] == [];
  }

  /**
   On the tree `build_suffix_tree("a")` builds, the pattern `"a"` ends inside
   the edge labelled `"a$"` (`WalksOfA` shows the stop on `TreeOfA()`), where
   no node spells it (`NoNodeSpellsA`), so the search as written reports it
   absent, though it starts the indexed text.
   */
  method EdgeEndCounterexample() returns (count: nat, positions: seq<int>)
    ensures IsPrefix("a", "a$"[0..])
    ensures count == 0 && positions == []
  {
    var nodes;
    ghost var spell;
    nodes, spell := SuffixTree.BuildSuffixTree("a");
    assert "a" + [Terminator] == "a$";
    NoNodeSpellsA(nodes, spell);
    assert "a$"[0..][..1] == "a";
    count, positions := SearchTreeAsWritten(nodes, "a", spell, "a$");
  }

  /**
   On the tree `build_suffix_tree("a")` builds, the walk for the empty
   pattern stops at the root, which spells it, and the two leaves at path
   lengths 2 and 1 come out as -3 and -2 where the pattern starts at 0 and 1.
   */
  method RootLabelCounterexample() returns (count: nat, positions: seq<int>)
    ensures count == 2 && positions == [-3, -2]
  {
    var nodes;
    ghost var spell;
    nodes, spell := SuffixTree.BuildSuffixTree("a");
    assert "a" + [Terminator] == "a$";
    RootSpellsEmpty(nodes, spell);
    count, positions := SearchTreeAsWritten(nodes, "", spell, "a$");
    BothStartsShifted(positions);
  }

  /** The as-written values for the empty pattern on `"a$"` are `[-3, -2]` */
  lemma BothStartsShifted(positions: seq<int>)
    requires StrictlyAscending(positions)
    requires forall p :: 0 <= p < 2 ==> (p - 3 in positions <==> IsPrefix("", "a$"[p..]))
    requires forall x :: x in positions ==> -3 <= x < -1
    ensures positions == [-3, -2]
  {
    assert IsPrefix("", "a$"[0..]) && IsPrefix("", "a$"[1..]);
    AscendingPair(positions, -3);
  }

  /** A strictly ascending list holding `a` and `a + 1` and nothing outside `[a, a + 1]` is `[a, a + 1]` */
  lemma AscendingPair(s: seq<int>, a: int)
    requires StrictlyAscending(s) && a in s && a + 1 in s
    requires forall x :: x in s ==> a <= x <= a + 1
    ensures s == [a, a + 1]
  {
    var i :| 0 <= i < |s| && s[i] == a;
    var j :| 0 <= j < |s| && s[j] == a + 1;
    assert s[0] in s && s[1] in s && s[|s| - 1] in s;
  }
}
