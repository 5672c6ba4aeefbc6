# Suffix indexes: suffix array, suffix tree and suffix trie

A model in Dafny of the three text indexes of the suffix-index assignment
repository. The proofs show three things:
- the array search returns exactly the occurrences of a query in the text;
- the trie search answers whether the pattern occurs;
- the tree search as written does not find the occurrences (see "## Findings"), while a corrected search does.

- **Suffix array** (`src/suffix_array.py`).
  - `build_suffix_array` sorts the start offsets of a text `T` by the suffixes they start.
  - `search_array` runs two binary searches for the block of suffixes that begin with a query `q`.
    It returns the number of matches, the longest common prefix it met on the way, and the matching offsets, sorted.
  - `common_prefix_length` is the character-by-character comparison behind that statistic.
- **Suffix tree** (`src/suffix_tree.py`).
  - The tree is an arena of nodes `[SUB, CHILDREN]`: an edge label, and a dict from first characters to node indices.
  - `build_suffix_tree` appends the terminator `$` and calls `add_suffix` on every suffix, longest first.
  - `add_suffix` walks down the arena, splits an edge where the suffix leaves its label, and hangs the rest of the suffix as a new leaf.
  - `search_tree` walks the pattern down the labels. Its inner `collect_leaves` gives each leaf below the stop the value `len(root label) - path_length - 1`, which is meant to be the leaf's start in the text but is always negative (see "## Findings").
- **Suffix trie** (`src/suffix_trie.py`).
  - `build_suffix_trie` nests one dict per character for every suffix and marks each suffix's end with `'$': True`.
  - `search_trie` follows the pattern's characters from the root.

Files and modules:

| file | module | contents |
|---|---|---|
| `strings.dfy` | `Strings` | prefixes, occurrences, Python's string order `<`, `CommonPrefixLength`, `AgreeLength` |
| `sorting.dfy` | `Sorting` | the `sorted` / `list.sort` of integer lists |
| `suffix_array.dfy` | `SuffixArray` | construction and the two binary searches |
| `suffix_tree_arena.dfy` | `SuffixTreeArena` | the node arena, its two edits, and the suffix-tree invariant |
| `suffix_tree_attach.dfy` | `SuffixTreeAttach` | hanging a new leaf keeps the invariant |
| `suffix_tree_split.dfy` | `SuffixTreeSplit` | splitting an edge keeps the invariant |
| `suffix_tree.dfy` | `SuffixTree` | `add_suffix` and `build_suffix_tree` |
| `suffix_tree_search.dfy` | `SuffixTreeSearch` | `search_tree` as written, and the evidently intended search |
| `suffix_trie.dfy` | `SuffixTrie` | the nested trie and its search |

How the suffix tree is proved:

- The arena is carried together with a ghost sequence `spell`. `spell[n]` is the string read on the labels from the root down to node `n`.
- `IsSuffixTreeOf(nodes, spell, X, count)` says that the arena is a trie of edge labels over the first `count` suffixes of the terminated text `X`. Its parts:
  - labels are non-empty and keyed by their first character;
  - node strings are distinct;
  - every proper prefix relation between node strings is reached through the right child;
  - every node string fits the text;
  - the non-root leaves are exactly the inserted suffixes, one each.
- `Compressed(nodes)` says that no node but the root has exactly one child, so a path without branching is one edge. It is kept apart from `IsSuffixTreeOf`. During the walk of `add_suffix` it may fail only at the node the walk stands on, a node just made by a split, which the leaf hung next repairs (`CompressedAtWalk`).
- `add_suffix` preserves both, and `build_suffix_tree` establishes both for all `|T| + 1` suffixes of `T$`.
- The search proofs rely only on this invariant.

## Model

| member | source | states |
|---|---|---|
| Strings.CommonPrefixLength | src/suffix_array.py:32-39 | the count is the length of the longest common prefix: the two strings agree up to it and differ just after it, unless one of them has ended |
| Strings.AgreeLengthIsCommonPrefix | src/suffix_tree.py:78-79 | the label comparison loop stops at the longest common prefix of the pattern's rest and the label: they agree before it and differ at it, unless one of them has ended |
| Strings.Less | src/suffix_array.py:57 | Python's `<` on strings, defined character by character; its order properties are the four rows below |
| Strings.AgreeLength | src/suffix_tree.py:40-42 | the `j` loops of `add_suffix` and `search_tree` as a function: the count never passes either string's end; `Strings.AgreeLengthIsCommonPrefix` states what it counts |
| Strings.LessIrreflexive | src/suffix_array.py:57 | Python's `<` on strings never holds between a string and itself |
| Strings.LessAsymmetric | src/suffix_array.py:57 | `<` on strings never holds in both directions |
| Strings.LessTransitive | src/suffix_array.py:57 | `<` on strings is transitive |
| Strings.LessTotal | src/suffix_array.py:57 | any two different strings are ordered one way or the other, so sorting suffixes is well defined |
| Strings.PrefixNotBelow | src/suffix_array.py:55-58 | a suffix that starts with `q` is not below `q`, so the `startswith` branch may move left like the `q < suffix` branch |
| Strings.PrefixInterval | src/suffix_array.py:74-77 | a string between `q` and a string starting with `q` also starts with `q`, so the matches form one contiguous block of the array |
| Strings.PrefixOfSuffixIsOccurrence | src/suffix_array.py:55 | `T[i:].startswith(q)` holds exactly when `q` occurs in `T` at `i` |
| Sorting.Sort | src/suffix_tree.py:98 | the result is a permutation of the input, ascending, and strictly ascending when the input has no duplicates |
| Sorting.SortKeeps | src/suffix_array.py:86 | sorting keeps the length and the set of elements |
| Sorting.StrictlyAscendingIsRange | src/suffix_array.py:85-86 | a strictly ascending list whose elements are exactly `0 .. n-1` is `[0, 1, .., n-1]` |
| SuffixArray.Suffix | src/suffix_array.py:51 | `T[i:]`, empty past the end, as Python slices it; no contract of its own |
| SuffixArray.SuffixesDiffer | src/suffix_array.py:27-28 | suffixes at different offsets are different strings, so the sort meets no ties |
| SuffixArray.InsertBySuffix | src/suffix_array.py:28 | inserting an offset adds exactly that offset and keeps the list strictly ordered by suffix |
| SuffixArray.BuildSuffixArray | src/suffix_array.py:26-30 | the result holds every offset `0 .. len(T)-1` exactly once, in strictly increasing order of the suffixes they start |
| SuffixArray.SuffixArrayDistinct | src/suffix_array.py:29 | a suffix array has no repeated offset |
| SuffixArray.LowerBound | src/suffix_array.py:47-63 | on a sorted array, `first` splits the suffixes below `q` from the rest; the prefix statistic is `len(q)` when the suffix at `first` starts with `q`, and for a non-empty `q` it reaches `len(q)` only if some suffix starts with `q` |
| SuffixArray.AboveFromMid | src/suffix_array.py:55-58 | once the middle suffix is not below `q`, no later suffix is either |
| SuffixArray.BelowUpToMid | src/suffix_array.py:59-60 | once the middle suffix is below `q`, so is every earlier one |
| SuffixArray.UpperBound | src/suffix_array.py:65-82 | starting from the lower bound, `last` ends the block of suffixes that start with `q`: every suffix in `first..last` starts with `q` and none after it does |
| SuffixArray.PrefixBlockUpToMid | src/suffix_array.py:74-75 | a middle suffix that starts with `q` means every suffix from `first` up to it does too |
| SuffixArray.NoPrefixFromMid | src/suffix_array.py:76-79 | a middle suffix above `q` that does not start with `q` means no later suffix does |
| SuffixArray.BlockIsOccurrences | src/suffix_array.py:85 | the offsets `array[first:last]` are exactly the positions where `q` occurs in `T` |
| SuffixArray.SearchOutcome | src/suffix_array.py:85-88 | the sorted matches are strictly ascending and are exactly the occurrences of `q` |
| SuffixArray.EmptyQueryOutcome | src/suffix_array.py:85-88 | for the empty query the matches are `[0, 1, .., len(T)-1]` |
| SuffixArray.MatchIffFullPrefix | src/suffix_array.py:53-72 | for a non-empty query, there is a match if and only if the longest common prefix observed is `len(q)` |
| SuffixArray.SearchArray | src/suffix_array.py:41-88 | the count is the number of positions; on a suffix array the positions are strictly ascending and are exactly the occurrences of `q` in `T`; the empty query gives every offset; a non-empty query matches if and only if the statistic is `len(q)` |
| SuffixTreeArena.AttachLeaf | src/suffix_tree.py:32-34 | one node `[suf[i:], {}]` is appended and linked from `n` under its first character; every other node stays as it was |
| SuffixTreeArena.SplitEdge | src/suffix_tree.py:45-49 | one node `[sub2[:j], {sub2[j]: n3}]` is appended and takes the child's place under `b`; the child keeps its children and gets the label `sub2[j:]`; every other node stays as it was |
| SuffixTreeArena.InitialTree | src/suffix_tree.py:57 | the root-only arena is the tree of no suffixes, and compressed |
| SuffixTreeAttach.AttachTrie | src/suffix_tree.py:31-35 | hanging the rest of the suffix below the node where the walk fell off keeps the arena a trie of labels, now also spelling that suffix |
| SuffixTreeAttach.AttachAtInner | src/suffix_tree.py:31-35 | the node the new leaf hangs from is never an existing leaf |
| SuffixTreeAttach.AttachLeafSet | src/suffix_tree.py:32-34 | the appended node is the only new leaf, so the leaf count grows by one |
| SuffixTreeAttach.AttachPreserves | src/suffix_tree.py:31-35 | after the new leaf the arena is the tree of one more suffix; the node it hangs from was not a leaf |
| SuffixTreeSplit.UniqueParent | src/suffix_tree.py:49 | a node is the child of exactly one parent entry, so redirecting that entry detaches it from nowhere else |
| SuffixTreeSplit.SplitShapeSpells | src/suffix_tree.py:44-49 | splitting a label at `j` keeps labels non-empty and keyed by their first character; the new middle node spells the parent's string plus `sub2[:j]` |
| SuffixTreeSplit.SplitDistinct | src/suffix_tree.py:44-49 | the middle node's string is new: node strings stay distinct |
| SuffixTreeSplit.SplitPrefixClosed | src/suffix_tree.py:44-49 | after the split every node still reaches the nodes below it through the right child |
| SuffixTreeSplit.SplitLeafSet | src/suffix_tree.py:44-49 | the split creates and removes no leaf |
| SuffixTreeSplit.SplitPreserves | src/suffix_tree.py:44-49 | the split arena is the tree of the same suffixes |
| SuffixTree.NextSuffixIsNew | src/suffix_tree.py:28 | no node string has the next suffix as a prefix, because of the terminator |
| SuffixTree.WalkEndsInside | src/suffix_tree.py:28-35 | the walk never uses up the whole suffix, so `add_suffix` always ends by hanging a leaf |
| SuffixTree.MatchLabel | src/suffix_tree.py:40-42 | the matched length `j` is positive, and the node string plus `sub2[:j]` is the suffix read so far |
| SuffixTree.Descend | src/suffix_tree.py:37-52 | one step down matches the child's label, splits it if the match stops inside, and stands where the match ended; it keeps `CompressedAtWalk` |
| SuffixTree.SteppedCompressed | src/suffix_tree.py:44-52 | a step down keeps the arena compressed except at the node the walk now stands on |
| SuffixTree.SplitCompressed | src/suffix_tree.py:44-49 | after a split only the new middle node has a single child, and the suffix's next character is not under it |
| SuffixTree.MoveCompressed | src/suffix_tree.py:51-52 | moving on to the child changes nothing; the node left behind has a child under the next character, so it is not the one-child exception |
| SuffixTree.HangCompressed | src/suffix_tree.py:31-35 | hanging a leaf below the root or an inner node under a new character leaves no node but the root with a single child |
| SuffixTree.SteppedPreserves | src/suffix_tree.py:44-52 | a step down keeps the walk on a tree of the same suffixes, with the walk standing on the suffix's prefix of the new length |
| SuffixTree.Hang | src/suffix_tree.py:31-35 | hanging the leaf yields the tree of one more suffix, compressed if the walk kept `CompressedAtWalk` |
| SuffixTree.StepDown | src/suffix_tree.py:37-52 | a step down keeps the walk invariant and `CompressedAtWalk`, and strictly advances along the suffix |
| SuffixTree.InsertFrom | src/suffix_tree.py:28-52 | the walk from any reached node ends with the tree of one more suffix, compressed if the walk started compressed |
| SuffixTree.AddSuffix | src/suffix_tree.py:25-52 | inserting the next suffix turns the tree of `count` suffixes into the tree of `count + 1`, and keeps a compressed arena compressed |
| SuffixTree.BuildSuffixTree | src/suffix_tree.py:54-62 | the result is the trie of labels of all suffixes of `T$`, with exactly `len(T) + 1` leaves, and compressed: no node but the root has a single child |
| SuffixTreeSearch.Advance | src/suffix_tree.py:71-83 | one pass of the `while` loop of `search_tree`: it stops (no child, a differing character, or the pattern used up inside a label), or it moves to an existing child with strictly more, and at most all, of the pattern read |
| SuffixTreeSearch.Walk | src/suffix_tree.py:70-83 | the loop of `search_tree` as recursion over `Advance`; what its stop means is stated by `SuffixTreeSearch.WalkFinds` |
| SuffixTreeSearch.NoWayOn | src/suffix_tree.py:73-74 | when the next pattern character has no child, no node string starts with the pattern |
| SuffixTreeSearch.WalkOverEdge | src/suffix_tree.py:75-83 | after reading a whole label the walk steps down to the child, which spells the pattern's prefix of the new, longer length |
| SuffixTreeSearch.StepOverLabel | src/suffix_tree.py:75-83 | when the pattern agrees with the whole label under its next character, the loop moves to that child and adds the label's length to the characters read, which stays within the pattern |
| SuffixTreeSearch.WalkFinds | src/suffix_tree.py:70-83 | the walk's stop says where the pattern ends in the tree: nowhere; exactly at a node; or strictly inside the label above a node whose string extends the pattern |
| SuffixTreeSearch.CollectLeaves | src/suffix_tree.py:86-93 | every leaf of the node's subtree at path length `d` contributes the value `base - d`, and the values gathered are one per leaf of the subtree, each leaf once |
| SuffixTreeSearch.CollectChild | src/suffix_tree.py:92-93 | one pass of the `for` loop: the values for the child's subtree are appended after those already gathered, which stay in front, and the gathered leaves become those reached through the keys done so far |
| SuffixTreeSearch.CollectChildren | src/suffix_tree.py:91-93 | gathering over all children of an inner node, in any order, covers exactly the leaves of its subtree, each contributing `base - d` |
| SuffixTreeSearch.StopCovers | src/suffix_tree.py:96 | the leaves below the stop are exactly the suffixes of the text that start with the pattern |
| SuffixTreeSearch.FoundDistinct | src/suffix_tree.py:89-90 | the gathered positions have no duplicates |
| SuffixTreeSearch.FoundSound | src/suffix_tree.py:89-90 | each gathered position maps back to an occurrence of the pattern |
| SuffixTreeSearch.FoundComplete | src/suffix_tree.py:89-90 | every occurrence of the pattern is gathered |
| SuffixTreeSearch.PositionsBelow | src/suffix_tree.py:96-98 | for any offset, the sorted positions below the stop are exactly the occurrences shifted by that offset, strictly ascending, with the count equal to their number |
| SuffixTreeSearch.ShiftedBelowZero | src/suffix_tree.py:89 | with the root's empty label in the formula, each occurrence `p` comes out as `p - len(T$) - 1`, always negative |
| SuffixTreeSearch.StopsAtNodeIff | src/suffix_tree.py:70-83 | the walk stops exactly at a node if and only if some node's string is the whole pattern |
| SuffixTreeSearch.SearchTreeAsWritten | src/suffix_tree.py:64-98 | as written: `(0, [])` unless the walk ends exactly at a node, that is, whenever no node's string is the pattern, even if it occurs; otherwise one negative value `p - len(T$) - 1` for each occurrence `p` |
| SuffixTreeSearch.PositionsAsWritten | src/suffix_tree.py:96-98 | as written, once the walk stops at a node: the values are the occurrences shifted below zero |
| SuffixTreeSearch.SearchTree | src/suffix_tree.py:64-98 | the corrected search: positions are strictly ascending and are exactly the starts of the pattern in `T$`; for the empty pattern they are `[0, 1, .., len(T)]` |
| SuffixTreeSearch.IndexedOccurrence | src/suffix_tree.py:55 | for a non-empty pattern without `$`, its starts in `T$` are exactly its starts in `T` |
| SuffixTreeSearch.EverywhereIsRange | src/suffix_tree.py:96-98 | ascending positions that are exactly the starts of the empty pattern in `T$` are `[0, 1, .., len(T)]` |
| SuffixTreeSearch.TreeOfAIsSuffixTree | src/suffix_tree.py:54-62 | the arena `build_suffix_tree("a")` produces, `[['', {'a': 1, '$': 2}], ['a$', {}], ['$', {}]]`, is the compressed tree of both suffixes of `"a$"` |
| SuffixTreeSearch.WalksOfA | src/suffix_tree.py:70-83 | on that tree the walk for `"a"` stops inside the label `"a$"`, and the walk for the empty pattern at the root |
| SuffixTreeSearch.SpelledOfA | src/suffix_tree.py:80-81 | on that tree no node spells `"a"`, though `"a"` starts `"a$"`; the root spells the empty pattern |
| SuffixTreeSearch.LeafBelow | src/suffix_tree.py:86-93 | below every non-root node hangs a non-root leaf whose string extends the node's, so `collect_leaves` always reaches a leaf |
| SuffixTreeSearch.ChildStartsSuffix | src/suffix_tree.py:54-62 | in a tree of suffixes, a node's string followed by the first character of any child's label starts some inserted suffix |
| SuffixTreeSearch.LeafNotA | src/suffix_tree.py:54-62 | in a tree of suffixes of `"a$"` no leaf spells `"a"`, since every leaf spells a suffix |
| SuffixTreeSearch.BranchIsRoot | src/suffix_tree.py:54-62 | in a tree of suffixes of `"a$"` only the root has two or more children |
| SuffixTreeSearch.NoNodeSpellsA | src/suffix_tree.py:54-62 | every compressed tree of both suffixes of `"a$"`, and so the one `build_suffix_tree("a")` returns, has no node spelling `"a"` |
| SuffixTreeSearch.RootSpellsEmpty | src/suffix_tree.py:64-70 | the root spells the empty pattern, so for `P = ""` the walk stops at a node |
| SuffixTreeSearch.EdgeEndCounterexample | src/suffix_tree.py:80-81 | the search as written, applied with the pattern `"a"` to the tree that `build_suffix_tree("a")` returns, gives `(0, [])`, although `"a"` occurs at 0 |
| SuffixTreeSearch.RootLabelCounterexample | src/suffix_tree.py:89 | the search as written, applied with the empty pattern to the tree that `build_suffix_tree("a")` returns, gives `(2, [-3, -2])` instead of `(2, [0, 1])` |
| SuffixTrie.Insert | src/suffix_trie.py:27-32 | the inner loop: no existing child or end marker is lost; `SuffixTrie.InsertPaths` and `SuffixTrie.InsertMarks` state what it adds |
| SuffixTrie.InsertSuffixes | src/suffix_trie.py:26-32 | the outer loop over `s[i:]`, `s[i+1:]`, ...; `SuffixTrie.InsertSuffixesPaths` states what it adds |
| SuffixTrie.BuildSuffixTrie | src/suffix_trie.py:22-34 | the empty text gives the empty trie; `SuffixTrie.BuiltTrieMarksSuffixes` and `SuffixTrie.SearchBuiltTrie` state what the trie holds |
| SuffixTrie.SearchTrie | src/suffix_trie.py:36-42 | the empty pattern is found; a first character without a child is not; a found pattern is found again from the child under its first character; `SuffixTrie.SearchBuiltTrie` states the answer on a built trie |
| SuffixTrie.EmptyPaths | src/suffix_trie.py:23 | the empty trie has only the empty path |
| SuffixTrie.InsertPaths | src/suffix_trie.py:27-32 | inserting a word adds exactly its prefixes to the walkable paths |
| SuffixTrie.InsertMarks | src/suffix_trie.py:27-32 | after inserting a word its last node carries the end marker, and earlier marks stay |
| SuffixTrie.InsertSuffixesPaths | src/suffix_trie.py:26-32 | inserting the suffixes from `i` on makes walkable exactly the old paths and the prefixes of those suffixes |
| SuffixTrie.SuffixesMarked | src/suffix_trie.py:26-32 | every inserted suffix ends at a marked node |
| SuffixTrie.BuiltTrieMarksSuffixes | src/suffix_trie.py:22-34 | every non-empty suffix of the text ends at a node carrying the end marker |
| SuffixTrie.SearchBuiltTrie | src/suffix_trie.py:36-42 | searching the built trie answers true if and only if the pattern is a substring of the text |

## Left out

- The `get_args` and `main` of each of the three files are not modelled: argument parsing, FASTA reading, printing and `T[930:940]` are I/O.
- `src/experiment.py` is not part of this model: it is the timing, memory and plotting harness.
- Python's list sort (Timsort) is modelled by an insertion sort. A sort of integers, or of suffixes of one text, has only one possible result, so the choice of algorithm does not change any result.
- `build_suffix_array` compares Python's `(suffix, offset)` tuples. The model sorts offsets by suffix alone: suffixes at different offsets always differ, so the tuple's second component never decides.
- The iteration order of a dict in `collect_leaves` is modelled as an arbitrary order of the keys: the children are gathered one key at a time in any order. The result is sorted afterwards, so the order does not matter.
- Python's `while` loops in `add_suffix` and `search_tree` are modelled as recursion, and the inner `j` loops as the function `AgreeLength`, which `Strings.AgreeLengthIsCommonPrefix` shows counts the same common prefix as the method `CommonPrefixLength`.
- Recursion depth, running time and memory use are not modelled.
- SuffixTree.BuildSuffixTree: requires the text to be free of `$`. The code appends `$` without checking, and a text already containing `$` breaks the one-leaf-per-suffix property. That case is not modelled.
- SuffixTreeSearch.SearchTree: takes the indexed length `len(T) + 1` as a parameter fixed when the tree is built, because the arena itself does not record it.
- SuffixTrie.SearchTrie: requires the pattern to be free of `$`. In the code the end marker `'$': True` sits in the same dict as the children, so a pattern running through `$` reaches the value `True`: the answer is true, or a `TypeError` is raised if characters follow. The model keeps the marker apart from the children.
- SuffixTrie.BuildSuffixTrie: requires the text to be free of `$`, for the same reason: in the code a `$` in the text collides with the end marker.
- The empty pattern:
  - The array search reports `len(T)` positions `[0, len(T))`.
  - The corrected tree search walks nothing and collects every leaf, so it also reports position `len(T)`, the start of the terminator alone. The model follows the code here: `SuffixTreeSearch.SearchTree` states the result `[0, 1, .., len(T)]` for the empty pattern.
  - For a non-empty pattern without `$`, the tree's and the array's positions coincide (`SuffixTreeSearch.IndexedOccurrence`).

## Findings

| source | as written | input that shows it | evidently intended | confidence | as-written member | corrected member |
|---|---|---|---|---|---|---|
| src/suffix_tree.py:80-81 | the walk returns `(0, [])` as soon as the pattern ends strictly inside an edge label (`j < len(sub2)` also holds when the pattern is used up) | `T = "a"`: the tree has the leaves `"a$"` and `"$"` below the root; the pattern `"a"` matches one character of `"a$"` and gets `(0, [])`, although it occurs at 0 | report "not found" only when a character differs; when the pattern runs out inside a label, collect the leaves below that label's child | not executed | SuffixTreeSearch.SearchTreeAsWritten, SuffixTreeSearch.EdgeEndCounterexample | SuffixTreeSearch.SearchTree |
| src/suffix_tree.py:89 | each leaf position is `len(suffix_tree[0][SUB]) - path_length - 1`; the root's label is always empty, so every reported position is negative | `T = "a"`, pattern `""`: the leaves at path lengths 2 and 1 give `-3` and `-2` instead of `0` and `1` | `len(T$) - path_length`, with `len(T$) = len(T) + 1` recorded when the tree is built | not executed | SuffixTreeSearch.SearchTreeAsWritten, SuffixTreeSearch.RootLabelCounterexample | SuffixTreeSearch.SearchTree |
