/**
 The node arena of `src/suffix_tree.py` and the two edits `add_suffix` makes
 to it: attaching a new leaf and splitting an edge. Alongside the arena the
 proofs carry a ghost `spell` sequence, `spell[n]` being the string read on
 the labels from the root down to node `n`; the invariants below are stated
 over the arena and that sequence together.
 */
module SuffixTreeArena {
  import opened Strings

  /** The character appended to the text before indexing */
  const Terminator: char := '$'

  /**
   An entry `[SUB, CHILDREN]` of the arena: the label of the edge from the
   parent, and the children indexed by the first character of their labels.
   */
  datatype Node = Node(sub: string, children: map<char, nat>)

  /** A node without children */
  predicate IsLeaf(nodes: seq<Node>, m: nat) {
    m < |nodes| && |nodes[m].children| == 0
  }

  /** The non-root leaves */
  function LeafSet(nodes: seq<Node>): set<nat> {
    set m | 0 < m < |nodes| && IsLeaf(nodes, m)
  }

  /**
   `nodes.append([tail, {}])` followed by `nodes[n][CHILDREN][tail[0]] = len(nodes)`:
   one new leaf, linked from `n` under its first character, and nothing else.
   */
  function AttachLeaf(nodes: seq<Node>, n: nat, tail: string): (r: seq<Node>)
    requires n < |nodes| && tail != []
    ensures |r| == |nodes| + 1
    ensures r[|nodes|] == Node(tail, map[])
    ensures r[n] == nodes[n].(children := nodes[n].children[tail[0] := |nodes|])
    ensures forall m :: 0 <= m < |nodes| && m != n ==> r[m] == nodes[m]
  {
    nodes[n := nodes[n].(children := nodes[n].children[tail[0] := |nodes|])] + [Node(tail, map[])]
  }

  /**
   The split of the edge from `n` under `b` after its first `j` characters: a
   new node labelled with those characters takes the child's place under `n`,
   and the child, relabelled with the rest, hangs below it.
   */
  function SplitEdge(nodes: seq<Node>, n: nat, b: char, j: nat): (r: seq<Node>)
    requires n < |nodes| && b in nodes[n].children && nodes[n].children[b] < |nodes|
    requires j < |nodes[nodes[n].children[b]].sub|
    ensures |r| == |nodes| + 1
    ensures
      var ch := nodes[n].children[b];
      var sub := nodes[ch].sub;
      && r[|nodes|] == Node(sub[..j], map[sub[j] := ch])
      && r[n].children == nodes[n].children[b := |nodes|]
      && r[ch].sub == sub[j..]
      && (n != ch ==> r[n].sub == nodes[n].sub && r[ch].children == nodes[ch].children)
    ensures
      forall m :: 0 <= m < |nodes| && m != n && m != nodes[n].children[b] ==> r[m] == nodes[m]
  {
    var ch := nodes[n].children[b];
    var sub := nodes[ch].sub;
    var relabelled := nodes[ch := nodes[ch].(sub := sub[j..])];
    relabelled[n := relabelled[n].(children := relabelled[n].children[b := |nodes|])]
      + [Node(sub[..j], map[sub[j] := ch])]
  }

  /** The child of `n` under `c` is a non-root node whose label starts with `c` */
  ghost predicate EdgeOk(nodes: seq<Node>, n: nat, c: char) {
    && n < |nodes| && c in nodes[n].children
    && var m := nodes[n].children[c];
    && 0 < m < |nodes| && nodes[m].sub != [] && nodes[m].sub[0] == c
  }

  /** Arena shape: a root with the empty label, and every child entry `EdgeOk` */
  ghost predicate Shape(nodes: seq<Node>) {
    && |nodes| > 0
    && nodes[0].sub == []
    && forall n, c :: 0 <= n < |nodes| && c in nodes[n].children ==> EdgeOk(nodes, n, c)
  }

  /** Reading the child's label after `spell[n]` gives the child's `spell` */
  ghost predicate SpellStep(nodes: seq<Node>, spell: seq<string>, n: nat, c: char) {
    && n < |nodes| == |spell| && c in nodes[n].children
    && var m := nodes[n].children[c];
    && m < |nodes| && spell[m] == spell[n] + nodes[m].sub
  }

  /** `spell` holds the root-to-node strings of the arena */
  ghost predicate Spells(nodes: seq<Node>, spell: seq<string>) {
    && |spell| == |nodes| && |nodes| > 0 && spell[0] == []
    && forall n, c :: 0 <= n < |nodes| && c in nodes[n].children ==> SpellStep(nodes, spell, n, c)
  }

  /** No two nodes spell the same string */
  ghost predicate DistinctSpells(spell: seq<string>) {
    forall a: nat, b: nat :: SameSpell(spell, a, b) ==> a == b
  }

  /** Nodes `a` and `b` spell the same string */
  ghost predicate SameSpell(spell: seq<string>, a: nat, b: nat) {
    a < |spell| && b < |spell| && spell[a] == spell[b]
  }

  /**
   From node `a`, the child under the next character of `w` exists and its
   root-to-node string is still a prefix of `w`.
   */
  ghost predicate LeadsToward(nodes: seq<Node>, spell: seq<string>, a: nat, w: string) {
    && a < |nodes| == |spell| && |spell[a]| < |w|
    && var c := w[|spell[a]|];
    && c in nodes[a].children && nodes[a].children[c] < |nodes|
    && IsPrefix(spell[nodes[a].children[c]], w)
  }

  /**
   Whenever one node's string is a proper prefix of another's, the path to
   the second continues from the first through one of its children: the
   trie property that makes every walk from the root deterministic.
   */
  ghost predicate PrefixClosed(nodes: seq<Node>, spell: seq<string>) {
    forall a, b {:trigger IsProperPrefix(spell[a], spell[b])} {:trigger LeadsToward(nodes, spell, a, spell[b])} ::
      (0 <= a < |nodes| && 0 <= b < |nodes| && a < |spell| && b < |spell| &&
       IsProperPrefix(spell[a], spell[b])) ==> LeadsToward(nodes, spell, a, spell[b])
  }

  /** The arena is a trie of edge labels whose node strings are `spell` */
  ghost predicate LabelTrie(nodes: seq<Node>, spell: seq<string>) {
    && Shape(nodes)
    && Spells(nodes, spell)
    && DistinctSpells(spell)
    && PrefixClosed(nodes, spell)
  }

  /** The terminator occurs in `w` at most as its last character */
  ghost predicate TerminatorLast(w: string) {
    forall k :: 0 <= k < |w| - 1 ==> w[k] != Terminator
  }

  /** `X` is some text followed by the terminator, which occurs nowhere else */
  ghost predicate Terminated(X: string) {
    |X| > 0 && X[|X| - 1] == Terminator && TerminatorLast(X)
  }

  /** Every non-empty suffix of a terminated text is terminated too */
  lemma SuffixTerminated(X: string, p: nat)
    requires Terminated(X) && p < |X|
    ensures Terminated(X[p..])
  {
    assert X[p..][|X| - p - 1] == X[|X| - 1];
  }

  /** Every node string fits in `X` and carries the terminator at most at its end */
  ghost predicate SpellsInText(spell: seq<string>, X: string) {
    forall n :: 0 <= n < |spell| ==> |spell[n]| <= |X| && TerminatorLast(spell[n])
  }

  /** Every non-root leaf spells one of the inserted suffixes `X[p:]`, `p < count` */
  ghost predicate LeavesAreSuffixes(nodes: seq<Node>, spell: seq<string>, X: string, count: nat) {
    forall m :: 0 < m < |nodes| && m < |spell| && IsLeaf(nodes, m) ==>
      |X| - count < |spell[m]| <= |X| && spell[m] == X[|X| - |spell[m]|..]
  }

  /** A non-root leaf spells `w` */
  ghost predicate LeafSpells(nodes: seq<Node>, spell: seq<string>, m: nat, w: string) {
    0 < m < |nodes| && m < |spell| && IsLeaf(nodes, m) && spell[m] == w
  }

  /** Some leaf spells the suffix `X[p:]` */
  ghost predicate SuffixHasLeaf(nodes: seq<Node>, spell: seq<string>, X: string, p: nat) {
    p <= |X| && exists m: nat :: LeafSpells(nodes, spell, m, X[p..])
  }

  /** Every inserted suffix `X[p:]`, `p < count`, is spelled by a leaf */
  ghost predicate SuffixesAreLeaves(nodes: seq<Node>, spell: seq<string>, X: string, count: nat) {
    forall p: nat :: p < count && p <= |X| ==> SuffixHasLeaf(nodes, spell, X, p)
  }

  /**
   The strings of the arena index the first `count` suffixes of the
   terminated text `X`: they fit the text, and the non-root leaves are one
   per inserted suffix, each spelling it.
   */
  ghost predicate HoldsSuffixes(nodes: seq<Node>, spell: seq<string>, X: string, count: nat) {
    && count <= |X| && Terminated(X)
    && SpellsInText(spell, X)
    && LeavesAreSuffixes(nodes, spell, X, count)
    && SuffixesAreLeaves(nodes, spell, X, count)
    && |LeafSet(nodes)| == count
  }

  /**
   The arena after inserting the suffixes `X[0:]` .. `X[count-1:]` of the
   terminated text `X`: a trie of edge labels with one leaf per inserted suffix.
   */
  ghost predicate IsSuffixTreeOf(nodes: seq<Node>, spell: seq<string>, X: string, count: nat) {
    LabelTrie(nodes, spell) && HoldsSuffixes(nodes, spell, X, count)
  }

  /**
   No node but the root has exactly one child: a path without branching is
   always one edge, with one label.
   */
  ghost predicate Compressed(nodes: seq<Node>) {
    forall n :: 0 < n < |nodes| ==> |nodes[n].children| != 1
  }

  /** The single root `['', {}]` is the tree of no suffixes */
  lemma InitialTree(X: string)
    requires Terminated(X)
    ensures IsSuffixTreeOf([Node([], map[])], [[]], X, 0)
    ensures Compressed([Node([], map[])])
  {
    var nodes := [Node([], map[])];
    assert LeafSet(nodes) == {};
  }

}
