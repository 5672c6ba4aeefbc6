/**
 Construction of the suffix tree of `src/suffix_tree.py`: `add_suffix`
 inserts one suffix into the node arena, and `build_suffix_tree` inserts
 every suffix of the text with the terminator appended, longest first.
 */
module SuffixTree {
  import opened Strings
  import opened SuffixTreeArena
  import opened SuffixTreeAttach
  import opened SuffixTreeSplit

  /**
   The next suffix to insert is new to the tree: no node's string has it as
   a prefix. It ends with the only terminator of `X`, so a node spelling it
   or more would have to be a leaf for an earlier, longer suffix.
   */
  lemma NextSuffixIsNew(nodes: seq<Node>, spell: seq<string>, X: string, count: nat, x: nat)
    requires IsSuffixTreeOf(nodes, spell, X, count) && count < |X| && x < |nodes|
    ensures !IsPrefix(X[count..], spell[x])
  {
    var s := X[count..];
    SuffixTerminated(X, count);
    if IsPrefix(s, spell[x]) {
      TerminatedPrefix(s, spell[x]);
      if !IsLeaf(nodes, x) {
        var c :| c in nodes[x].children;
        assert SpellStep(nodes, spell, x, c) && EdgeOk(nodes, x, c);
        var m := nodes[x].children[c];
        TerminatedPrefix(s, spell[m]);
      }
    }
  }

  /** A string ending in the terminator is a prefix only of itself among the strings carrying it last */
  lemma TerminatedPrefix(s: string, w: string)
    requires Terminated(s)
    requires IsPrefix(s, w) && TerminatorLast(w)
    ensures w == s
  {
    assert w[|s| - 1] == Terminator;
  }

  /** The walk for `suf` has read its first `i` characters and stands at `n` */
  ghost predicate Reached(spell: seq<string>, suf: string, n: nat, i: nat) {
    n < |spell| && i <= |suf| && spell[n] == suf[..i]
  }

  /**
   The label comparison of one step down: `j`, the length of the common
   prefix of the rest of the suffix and the child's label, is positive since
   the child was chosen by the suffix's next character, and the node string
   followed by the matched characters is the suffix read that far.
   */
  lemma MatchLabel(suf: string, i: nat, p: string, sub: string, j: nat)
    requires i < |suf| && p == suf[..i] && sub != [] && suf[i] == sub[0]
    requires j <= |suf| - i && j <= |sub| && suf[i..][..j] == sub[..j]
    requires j < |suf| - i && j < |sub| ==> suf[i..][j] != sub[j]
    ensures 0 < j
    ensures p + sub[..j] == suf[..i + j]
    ensures j == |sub| ==> p + sub == suf[..i + j]
  {
    assert suf[i..][0] == sub[0];
    PrefixExtend(suf, i, sub, j);
  }

  /**
   The label comparison of one step down from `n`, where the walk for `suf`
   stands after `i` characters, to `i'` characters: the suffix agrees with
   the label of the child under `suf[i]` for `i' - i` characters and, if it
   stops inside the label, parts from it there.
   */
  ghost predicate Matched(nodes: seq<Node>, suf: string, n: nat, i: nat, i': nat) {
    && n < |nodes| && i < i' <= |suf| && suf[i] in nodes[n].children
    && var ch := nodes[n].children[suf[i]];
    && ch < |nodes| && i' - i <= |nodes[ch].sub|
    && suf[i..i'] == nodes[ch].sub[..i' - i]
    && (i' < |suf| && i' - i < |nodes[ch].sub| ==> suf[i'] != nodes[ch].sub[i' - i])
  }

  /**
   The edit of one step down after `j` matched characters: when the match
   stops inside the label of the child under `b`, that edge is split there
   and the walk stops at the new node; otherwise the walk moves to the child
   and the arena is unchanged.
   */
  ghost predicate Stepped(nodes: seq<Node>, spell: seq<string>, n: nat, b: char, j: nat,
                          r: seq<Node>, spell': seq<string>, n': nat) {
    && n < |nodes| && n < |spell| && b in nodes[n].children
    && var ch := nodes[n].children[b];
    && 0 < j && ch < |nodes| && j <= |nodes[ch].sub|
    && if j < |nodes[ch].sub| then
         && r == SplitEdge(nodes, n, b, j) && n' == |nodes|
         && spell' == spell + [spell[n] + nodes[ch].sub[..j]]
       else
         r == nodes && spell' == spell && n' == ch
  }

  /** A step down keeps the walk on the tree of the same suffixes, now on the arena the step produced */
  lemma SteppedPreserves(nodes: seq<Node>, spell: seq<string>, X: string, count: nat, suf: string, n: nat, i: nat,
                         r: seq<Node>, spell': seq<string>, n': nat, i': nat)
    requires Walking(nodes, spell, X, count, suf, n, i)
    requires i < |suf| && i < i' && Stepped(nodes, spell, n, suf[i], i' - i, r, spell', n')
    requires n' < |r| && Reached(spell', suf, n', i')
    ensures Walking(r, spell', X, count, suf, n', i')
  {
    var b := suf[i];
    if i' - i < |nodes[nodes[n].children[b]].sub| {
      SplitFacts(nodes, spell, n, b, i' - i, r, spell', n');
      SplitWalking(nodes, spell, X, count, suf, n, b, i' - i, r, spell', n', i');
    } else {
      MoveFacts(nodes, spell, n, b, i' - i, r, spell', n');
      MoveWalking(nodes, spell, X, count, suf, n, i, r, spell', n', i');
    }
  }

  /** What a step that stops inside a label did: it split that edge after the matched characters */
  lemma SplitFacts(nodes: seq<Node>, spell: seq<string>, n: nat, b: char, j: nat,
                   r: seq<Node>, spell': seq<string>, n': nat)
    requires Stepped(nodes, spell, n, b, j, r, spell', n')
    requires j < |nodes[nodes[n].children[b]].sub|
    ensures n < |nodes| && b in nodes[n].children && nodes[n].children[b] < |nodes| && 0 < j
    ensures r == SplitEdge(nodes, n, b, j) && spell' == spell + [spell[n] + nodes[nodes[n].children[b]].sub[..j]]
  {
  }

  /** What a step that reads a whole label did: nothing to the arena */
  lemma MoveFacts(nodes: seq<Node>, spell: seq<string>, n: nat, b: char, j: nat,
                  r: seq<Node>, spell': seq<string>, n': nat)
    requires Stepped(nodes, spell, n, b, j, r, spell', n')
    requires j >= |nodes[nodes[n].children[b]].sub|
    ensures r == nodes && spell' == spell
  {
  }

  /** The step split the edge it stopped in: the arena with the new node is still the tree */
  lemma SplitWalking(nodes: seq<Node>, spell: seq<string>, X: string, count: nat, suf: string, n: nat, b: char, j: nat,
                     r: seq<Node>, spell': seq<string>, n': nat, i': nat)
    requires IsSuffixTreeOf(nodes, spell, X, count) && count < |X| && suf == X[count..]
    requires n < |nodes| && b in nodes[n].children && nodes[n].children[b] < |nodes|
    requires 0 < j < |nodes[nodes[n].children[b]].sub|
    requires r == SplitEdge(nodes, n, b, j) && spell' == spell + [spell[n] + nodes[nodes[n].children[b]].sub[..j]]
    requires n' < |r| && Reached(spell', suf, n', i')
    ensures Walking(r, spell', X, count, suf, n', i')
  {
    SplitPreserves(nodes, spell, X, count, n, b, j, spell[n] + nodes[nodes[n].children[b]].sub[..j]);
  }

  /** The step read a whole label: the arena is unchanged and the walk stands at the child */
  lemma MoveWalking(nodes: seq<Node>, spell: seq<string>, X: string, count: nat, suf: string, n: nat, i: nat,
                    r: seq<Node>, spell': seq<string>, n': nat, i': nat)
    requires Walking(nodes, spell, X, count, suf, n, i)
    requires r == nodes && spell' == spell
    requires n' < |r| && Reached(spell', suf, n', i')
    ensures Walking(r, spell', X, count, suf, n', i')
  {
  }

  /**
   One step down in `add_suffix` once the node `n` reached after `i`
   characters has a child under the next one: match the suffix against that
   child's label, split the edge if the match stops inside it, and move to
   the node at the end of the match.
   */
  method Descend(nodes: seq<Node>, suf: string, n: nat, i: nat, ghost spell: seq<string>)
    returns (r: seq<Node>, n': nat, i': nat, ghost spell': seq<string>)
    requires Shape(nodes) && Spells(nodes, spell) && n < |nodes| && Reached(spell, suf, n, i)
    requires i < |suf| && suf[i] in nodes[n].children
    ensures Matched(nodes, suf, n, i, i') && Stepped(nodes, spell, n, suf[i], i' - i, r, spell', n')
    ensures |nodes| <= |r| && n' < |r| && Reached(spell', suf, n', i')
    ensures CompressedAtWalk(nodes, n, suf, i) ==> CompressedAtWalk(r, n', suf, i')
  {
    var b := suf[i];
    SplitChild(nodes, spell, n, b);
    var n2 := nodes[n].children[b];
    var sub2 := nodes[n2].sub;
    var j := AgreeLength(suf[i..], sub2);
    AgreeLengthIsCommonPrefix(suf[i..], sub2);
    MatchLabel(suf, i, spell[n], sub2, j);
    i' := i + j;
    assert suf[i..i'] == suf[i..][..j];
    if j < |sub2| {
      spell' := spell + [spell[n] + sub2[..j]];
      r := SplitEdge(nodes, n, b, j);
      n' := |nodes|;
    } else {
      r, spell', n' := nodes, spell, n2;
    }
    if CompressedAtWalk(nodes, n, suf, i) {
      SteppedCompressed(nodes, spell, suf, n, i, r, spell', n', i');
    }
  }

  /**
   `Compressed` holds during the walk of `add_suffix` except perhaps at the
   node `n` it stands at: a node just made by a split has one child, and the
   next character of the suffix is not under it, so the leaf hung there next
   gives it a second child.
   */
  ghost predicate CompressedAtWalk(nodes: seq<Node>, n: nat, suf: string, i: nat) {
    && (forall m :: 0 < m < |nodes| && m != n ==> |nodes[m].children| != 1)
    && (0 < n < |nodes| && |nodes[n].children| == 1 && i < |suf| ==> suf[i] !in nodes[n].children)
  }

  /** A step down keeps `CompressedAtWalk`, at the node the step ends at */
  lemma SteppedCompressed(nodes: seq<Node>, spell: seq<string>, suf: string, n: nat, i: nat,
                          r: seq<Node>, spell': seq<string>, n': nat, i': nat)
    requires Shape(nodes) && Spells(nodes, spell) && i < |suf|
    requires Matched(nodes, suf, n, i, i') && Stepped(nodes, spell, n, suf[i], i' - i, r, spell', n')
    requires CompressedAtWalk(nodes, n, suf, i)
    ensures CompressedAtWalk(r, n', suf, i')
  {
    var j := i' - i;
    assert i + j == i';
    if j < |nodes[nodes[n].children[suf[i]]].sub| {
      SplitFacts(nodes, spell, n, suf[i], j, r, spell', n');
      assert i + j < |suf| ==> suf[i + j] != nodes[nodes[n].children[suf[i]]].sub[j];
      SplitCompressed(nodes, spell, n, j, suf, i);
    } else {
      MoveCompressed(nodes, n, suf, i, i');
    }
  }

  /** Splitting the edge under the next character leaves only the new middle node with one child, and not under the character after the match */
  lemma SplitCompressed(nodes: seq<Node>, spell: seq<string>, n: nat, j: nat, suf: string, i: nat)
    requires Shape(nodes) && Spells(nodes, spell) && n < |nodes| && i < |suf| && suf[i] in nodes[n].children
    requires 0 < j < |nodes[nodes[n].children[suf[i]]].sub|
    requires i + j < |suf| ==> suf[i + j] != nodes[nodes[n].children[suf[i]]].sub[j]
    requires CompressedAtWalk(nodes, n, suf, i)
    ensures CompressedAtWalk(SplitEdge(nodes, n, suf[i], j), |nodes|, suf, i + j)
  {
    var b := suf[i];
    assert EdgeOk(nodes, n, b) && SpellStep(nodes, spell, n, b);
    var ch := nodes[n].children[b];
    var r := SplitEdge(nodes, n, b, j);
    assert ch != n;
    forall m | 0 < m < |r| && m != |nodes| ensures |r[m].children| != 1 {
      if m != n && m != ch {
        assert r[m] == nodes[m];
      }
    }
  }

  /** Moving down to the child leaves the arena as it is; the node left behind has a child under the next character, so it is not the exception */
  lemma MoveCompressed(nodes: seq<Node>, n: nat, suf: string, i: nat, i': nat)
    requires Shape(nodes) && n < |nodes| && i < |suf| && suf[i] in nodes[n].children
    requires CompressedAtWalk(nodes, n, suf, i)
    ensures CompressedAtWalk(nodes, nodes[n].children[suf[i]], suf, i')
  {
    assert EdgeOk(nodes, n, suf[i]);
  }

  /** Hanging a leaf below an inner node, or the root, under a new character leaves no node but the root with one child */
  lemma HangCompressed(nodes: seq<Node>, n: nat, suf: string, i: nat)
    requires n < |nodes| && i < |suf| && suf[i] !in nodes[n].children && n !in LeafSet(nodes)
    requires CompressedAtWalk(nodes, n, suf, i)
    ensures Compressed(AttachLeaf(nodes, n, suf[i..]))
  {
    var r := AttachLeaf(nodes, n, suf[i..]);
    assert suf[i..][0] == suf[i];
    assert |r[n].children| == |nodes[n].children| + 1;
    forall m | 0 < m < |r| ensures |r[m].children| != 1 {
      if m == n {
        assert 0 < m ==> !IsLeaf(nodes, m);
      } else if m < |nodes| {
        assert r[m] == nodes[m];
      }
    }
  }

  /** The walk for the next suffix `suf = X[count:]` stands at `n` of the tree of `count` suffixes after `i` characters */
  ghost predicate Walking(nodes: seq<Node>, spell: seq<string>, X: string, count: nat, suf: string, n: nat, i: nat) {
    && IsSuffixTreeOf(nodes, spell, X, count) && count < |X| && suf == X[count..]
    && n < |nodes| && Reached(spell, suf, n, i)
  }

  /** The walk never reads the whole suffix: no node spells it yet */
  lemma WalkEndsInside(nodes: seq<Node>, spell: seq<string>, X: string, count: nat, suf: string, n: nat, i: nat)
    requires Walking(nodes, spell, X, count, suf, n, i)
    ensures i < |suf|
  {
    if i == |suf| {
      assert IsPrefix(suf, spell[n]);
      NextSuffixIsNew(nodes, spell, X, count, n);
    }
  }

  /**
   The end of the walk of `add_suffix`: `n` has no child under the next
   character, so the rest of the suffix becomes a new leaf below `n`.
   */
  method Hang(nodes: seq<Node>, suf: string, n: nat, i: nat,
              ghost spell: seq<string>, ghost X: string, ghost count: nat)
    returns (r: seq<Node>, ghost spell': seq<string>)
    requires Walking(nodes, spell, X, count, suf, n, i)
    requires i < |suf| && suf[i] !in nodes[n].children
    ensures IsSuffixTreeOf(r, spell', X, count + 1)
    ensures |nodes| < |r|
    ensures CompressedAtWalk(nodes, n, suf, i) ==> Compressed(r)
  {
    AttachPreserves(nodes, spell, X, count, n, i);
    spell' := spell + [suf];
    r := AttachLeaf(nodes, n, suf[i..]);
    if CompressedAtWalk(nodes, n, suf, i) {
      HangCompressed(nodes, n, suf, i);
    }
  }

  /** One step down keeps the walk on the tree of the same suffixes, further along the suffix */
  method StepDown(nodes: seq<Node>, suf: string, n: nat, i: nat,
                  ghost spell: seq<string>, ghost X: string, ghost count: nat)
    returns (r: seq<Node>, n': nat, i': nat, ghost spell': seq<string>)
    requires Walking(nodes, spell, X, count, suf, n, i)
    requires i < |suf| && suf[i] in nodes[n].children
    ensures Walking(r, spell', X, count, suf, n', i')
    ensures i < i' && |nodes| <= |r|
    ensures CompressedAtWalk(nodes, n, suf, i) ==> CompressedAtWalk(r, n', suf, i')
  {
    r, n', i', spell' := Descend(nodes, suf, n, i, spell);
    SteppedPreserves(nodes, spell, X, count, suf, n, i, r, spell', n', i');
  }

  /**
   The walk of `add_suffix` from node `n`, reached after the first `i`
   characters of `suf = X[count:]`: descend while there is a child under the
   next character, and hang the rest of the suffix as a new leaf below the
   node where there is none. The arena becomes the tree of one more suffix.
   */
  method InsertFrom(nodes: seq<Node>, suf: string, n: nat, i: nat,
                    ghost spell: seq<string>, ghost X: string, ghost count: nat)
    returns (r: seq<Node>, ghost spell': seq<string>)
    requires Walking(nodes, spell, X, count, suf, n, i)
    ensures IsSuffixTreeOf(r, spell', X, count + 1)
    ensures |nodes| < |r|
    ensures CompressedAtWalk(nodes, n, suf, i) ==> Compressed(r)
    decreases |suf| - i
  {
    WalkEndsInside(nodes, spell, X, count, suf, n, i);
    if suf[i] !in nodes[n].children {
      r, spell' := Hang(nodes, suf, n, i, spell, X, count);
    } else {
      var r1, n1, i1, spell1 := StepDown(nodes, suf, n, i, spell, X, count);
      r, spell' := InsertFrom(r1, suf, n1, i1, spell1, X, count);
    }
  }

  /**
   `add_suffix(nodes, suf)` for the next suffix `suf = X[count:]`, walking
   from the root with nothing read yet.
   */
  method AddSuffix(nodes: seq<Node>, suf: string, ghost spell: seq<string>, ghost X: string, ghost count: nat)
    returns (r: seq<Node>, ghost spell': seq<string>)
    requires IsSuffixTreeOf(nodes, spell, X, count) && count < |X| && suf == X[count..]
    ensures IsSuffixTreeOf(r, spell', X, count + 1)
    ensures |nodes| < |r|
    ensures Compressed(nodes) ==> Compressed(r)
  {
    r, spell' := InsertFrom(nodes, suf, 0, 0, spell, X, count);
  }

  /**
   `build_suffix_tree(text)`: append the terminator and insert the suffixes
   of `text + "$"` from offset 0 to the terminator alone. The result has one
   leaf per offset, each spelling its suffix.
   */
  method BuildSuffixTree(text: string) returns (nodes: seq<Node>, ghost spell: seq<string>)
    requires Terminator !in text
    ensures IsSuffixTreeOf(nodes, spell, text + [Terminator], |text| + 1)
    ensures |LeafSet(nodes)| == |text| + 1
    ensures Compressed(nodes)
  {
    var X := text + [Terminator];
    assert Terminated(X) by {
      forall k | 0 <= k < |X| - 1 ensures X[k] != Terminator {
        assert X[k] == text[k];
      }
    }
    nodes := [Node([], map[])];
    spell := [[]];
    InitialTree(X);
    for i := 0 to |X|
      invariant IsSuffixTreeOf(nodes, spell, X, i)
      invariant Compressed(nodes)
    {
      nodes, spell := AddSuffix(nodes, X[i..], spell, X, i);
    }
  }
}
