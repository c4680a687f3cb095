# sports_reference binary tree and NCAA bracket, in Dafny

This project models the tree and sorting core of the `sports_reference`
scraping package, plus the bracket-filling logic that sits on top of it.

`sports_reference/_binary_tree.py` has three parts:

- **`Node`.** A mutable record holding a payload and `parent`/`left`/`right` links. It is compared and tested for truth through its payload only.
- **`BinaryTree(height)`.** A perfect tree built by the recursive `build_tree`. It offers `size`, the recursive `traverse` (pre-, in- and post-order) and `levels` (the nodes grouped by depth, left to right).
- **`BracketSort`.** Three pieces:
  - `height` finds `h` with `2^h == len(array)`, or raises `ValueError`.
  - `selection_sort` is an in-place selection sort that puts the smallest remaining element at even positions and the largest at odd ones.
  - `sort` turns each element into a one-element group. It then plays `height` rounds, each a `selection_sort` of the groups followed by joining adjacent groups.

`sports_reference/cbb/postseason/_ncaa_bracket.py` adds:

- **`Team`.** A scraped team cell with a seed, a name and a winner flag, compared and hashed on `(seed, name)`.
- **`Game` and `Round`.** A game has two team cells, the second possibly missing. `Game.winner` picks the side that won, and `Round.teams` lists two team entries per game.
- **`Bracket`.** Rounds numbered from 1. `Bracket.binary_tree` builds a tree of height `nrounds - 1` and seats round `nrounds - k`'s teams, left to right, on depth `k`.

## How the model is built

- **Nodes in an arena.** A tree's nodes live in an *arena*: a sequence whose positions are the nodes' identities. Links are arena indices.
  - `build_tree` creates a node, then its left subtree, then its right subtree. So the subtree at position `i` of height `h` fills the `2^(h+1) - 1` positions from `i`.
  - Its children sit at `i + 1` and `i + 2^h`. `BinaryTrees.PerfectAt` states that layout.
- **`BinaryTree` is a class** whose `nodes` field is the arena.
  - `BinaryTree.SetData` is the `node.data = value` setter. It replaces one node's payload and keeps every link.
  - `levels` hands out node references, so the model returns arena positions. Writing a payload through one of them is `SetData` at that position.
- **`build_tree` is a recursive method** that grows the arena (`BinaryTrees.BuildTree`).
- **Recursive functions.** `traverse` and `levels` never use `self`, so they are functions over the arena. Each threads the accumulator (a list, or a dictionary) in the same order as the Python, but returns a new value where the Python appends to the caller's object.
- **Reference shapes.** Proofs compare what the tree code produces against:
  - `Layout.OrderOf`, the traversal of a perfect tree;
  - `Layout.LevelNodes` / `Layout.NodeAt`, the node at a given depth and left-to-right offset;
  - `Layout.Position`, the inverse of `NodeAt`.
- **Sorting.** `selection_sort` is a method on a Dafny `array`, proved equal to the function `BracketSort.AltSort` on the array's contents. `sort` is a method proved equal to `BracketSort.BracketOrder`.
  - Properties (permutation, alternating extremes, halving per round) are proved about those functions.
  - Element order is a parameter `lt`, Python's `<` on the elements. `>` is `lt` with its operands swapped.
  - Groups (Python lists) compare lexicographically (`Orders.LexLess`).
- **Python behaviour is kept where it shows.**
  - Ordering a `None` payload against a payload of a built-in type (int, str, tuple) raises TypeError.
  - Ordering an empty `Team()` against a scraped one (`<`, `<=`, `>`, `>=`) raises TypeError; `==` and `!=` do not, and two empty teams are equal.
  - `Game.winner` yields None when the second team is missing, because the `AttributeError` is caught.
  - `binary_tree` raises IndexError when a round is too short for its depth. With no rounds at all, `BinaryTree(-1)` recurses without end; this is modelled as `Err(RecursionError)`.
  - Errors are values of `Wrappers.Result`.
- **Plain definitions.** A few members only transcribe a source expression, and the rows of the members that use them carry the properties:
  - `BinaryTrees.Detached` is `Node(data)` with no links (used by `BuildTree`);
  - `NcaaBracket.TeamWinner` is `Team.winner` (used by `GameWinner`);
  - `NcaaBracket.NodesOf`, `NcaaBracket.BracketTeams` and `NcaaBracket.TeamNodes` are the comprehensions of `Team.node`, `Bracket.teams()` and `binary_tree` (described by `BracketTeamsByGame` and `TeamNodesByGame`);
  - `BinaryTrees.LevelsStep` unfolds `levels` at a node with two children (used by `LevelsOfPerfectKeys` and `LevelsOfPerfect`).
- **Inputs.** The scraped page is not modelled. A bracket is given as its rounds' games, and a team cell as the values its properties read from it.

## Model

| member | source | states |
|---|---|---|
| BinaryTrees.PayloadLess | sports_reference/_binary_tree.py:40-50 | for payloads of a built-in type, ordering two payloads raises TypeError exactly when one of them is None |
| BinaryTrees.NodeComparisons | sports_reference/_binary_tree.py:34-53 | over a strict total payload order, two truthy nodes satisfy exactly one of <, ==, >; <= is not-> and >= is not-<; with a None payload every ordering raises TypeError (as for built-in payloads); != negates ==; links play no part |
| BinaryTrees.BuildTree | sports_reference/_binary_tree.py:136-153 | `build_tree(h)` appends 2^(h+1)-1 fresh nodes after the existing ones, leaving those unchanged; the new ones form a perfect tree of height h whose children point back at their parents; its root has no parent; every new payload is None |
| BinaryTrees.BinaryTree.constructor | sports_reference/_binary_tree.py:122-124 | `BinaryTree(height)` keeps the height, holds a perfect tree of that height rooted at position 0 with a parentless root, and all payloads are None |
| BinaryTrees.BinaryTree.SetData | sports_reference/_binary_tree.py:81-83 | the `data` setter changes that node's payload only; the tree stays perfect with all links intact |
| BinaryTrees.SizeIsLeafCount | sports_reference/_binary_tree.py:136-174 | a tree of height h has 2^(h+1)-1 nodes, of which exactly `size` = 2^h are leaves |
| BinaryTrees.PerfectLeaves | sports_reference/_binary_tree.py:141-153 | a perfect subtree of height h has 2^h childless nodes |
| BinaryTrees.TreeParentLinks | sports_reference/_binary_tree.py:146-151 | the root alone has no parent; every other node is a child of its parent; every child's parent is the node that holds it |
| BinaryTrees.PerfectLinksAt | sports_reference/_binary_tree.py:146-151 | inside a perfect subtree every non-root node's parent is an earlier node holding it as a child, and every child lies later in the subtree and points back |
| BinaryTrees.TraverseAppends | sports_reference/_binary_tree.py:186-201 | `traverse(None, …)` returns the accumulator unchanged; otherwise the subtree's nodes are appended after whatever the accumulator held |
| BinaryTrees.TraverseShift | sports_reference/_binary_tree.py:176-201 | the nodes a traversal appends do not depend on what the accumulator already holds |
| BinaryTrees.TraverseVisitAt | sports_reference/_binary_tree.py:193-199 | a node with two children is placed before, between or after its subtrees' traversals for pre-, in- and post-order |
| BinaryTrees.TraverseOfPerfect | sports_reference/_binary_tree.py:176-201 | the traversal of a perfect subtree equals the reference order `OrderOf` for each of the three orders |
| BinaryTrees.TraverseVisitsEachOnce | sports_reference/_binary_tree.py:176-201 | each of pre-, in- and post-order from the root lists 2^(h+1)-1 nodes, and every node of the tree exactly once |
| BinaryTrees.PreOrderIsCreationOrder | sports_reference/_binary_tree.py:136-201 | pre-order from the root lists the nodes in the order `build_tree` created them |
| BinaryTrees.LevelsOfPerfectKeys | sports_reference/_binary_tree.py:203-223 | `levels` from depth d over a perfect subtree of height h adds exactly the keys d .. d+h |
| BinaryTrees.LevelsOfPerfect | sports_reference/_binary_tree.py:203-223 | `levels` over a perfect subtree appends to each depth exactly that subtree's nodes at that depth, left to right |
| BinaryTrees.LevelOfPerfect | sports_reference/_binary_tree.py:203-223 | from the root, depth k is a key exactly when k <= h, and then holds the 2^k nodes of that depth |
| BinaryTrees.LevelsOfTree | sports_reference/_binary_tree.py:203-223 | `levels(root)` has keys exactly 0..height, the root alone at depth 0, and depth k holds 2^k nodes, left to right |
| BinaryTrees.LevelsListEachNodeOnce | sports_reference/_binary_tree.py:203-223 | every node appears in `levels(root)` at its own depth and offset, and at no other depth or offset |
| BinaryTrees.LevelsChildren | sports_reference/_binary_tree.py:203-223 | entry o of depth k has the entries 2o and 2o+1 of depth k+1 as its left and right children; the nodes of the last depth are leaves |
| BinaryTrees.NodeAtChildren | sports_reference/_binary_tree.py:146-151 | the node at depth k, offset o has the nodes at depth k+1, offsets 2o and 2o+1, as its children |
| BinaryTrees.NodeAtLeaf | sports_reference/_binary_tree.py:141-142 | the nodes at depth h of a tree of height h have no children |
| BinaryTrees.HeightTwoShape | sports_reference/_binary_tree.py:136-153 | `BinaryTree(2)` has 7 nodes: the root's children are 1 and 4, theirs are 2, 3 and 5, 6, all four leaves |
| Layout.NodeAt | sports_reference/_binary_tree.py:203-223 | the node at depth k and offset o of a perfect subtree lies inside that subtree |
| Layout.LevelNodesAt | sports_reference/_binary_tree.py:203-223 | the reference depth-k list of a perfect tree has 2^k entries, entry o being the node at depth k and offset o |
| Layout.Position | sports_reference/_binary_tree.py:203-223 | every node of a perfect subtree has a depth <= h and an offset below 2^depth |
| Layout.PositionOfNodeAt | sports_reference/_binary_tree.py:203-223 | the node at depth k and offset o has depth k and offset o: Position undoes NodeAt |
| Layout.NodeAtPosition | sports_reference/_binary_tree.py:203-223 | every node is the node at its own depth and offset: NodeAt undoes Position |
| Layout.NodeAtInjective | sports_reference/_binary_tree.py:203-223 | distinct depth-offset pairs name distinct nodes |
| Layout.PreOrderIsRange | sports_reference/_binary_tree.py:136-194 | the reference pre-order of a perfect subtree at i lists the positions i, i+1, … in order |
| Layout.OrderOfLength | sports_reference/_binary_tree.py:176-201 | each reference order of a perfect tree of height h has 2^(h+1)-1 entries |
| Layout.OrderOfOccurrences | sports_reference/_binary_tree.py:176-201 | each reference order lists every node of the subtree once and nothing else |
| Powers.CountIsPow2 | sports_reference/_binary_tree.py:141-153 | a perfect tree of height h has 2^(h+1)-1 nodes |
| Powers.Pow2Injective | sports_reference/_binary_tree.py:287-299 | a length is 2^h for at most one h |
| BracketSort.ScanFrom | sports_reference/_binary_tree.py:271-275 | the inner loop's best index is the starting index or one of the positions it scanned |
| BracketSort.Select | sports_reference/_binary_tree.py:269-275 | pass i picks a position at or after i |
| BracketSort.SelectIsFirstBest | sports_reference/_binary_tree.py:269-275 | pass i picks the first position holding the minimum (even i) or maximum (odd i) of the suffix, and no other position qualifies |
| BracketSort.SwapAt | sports_reference/_binary_tree.py:277 | the tuple swap exchanges positions i and m and changes nothing else |
| BracketSort.SwapPermutes | sports_reference/_binary_tree.py:277 | a swap permutes the elements |
| BracketSort.SelectionSort | sports_reference/_binary_tree.py:264-278 | the method sorts the array in place, returns the same array, and leaves it holding `AltSort` of its old contents |
| BracketSort.AltSortPermutes | sports_reference/_binary_tree.py:264-278 | `selection_sort` keeps the length and is a permutation |
| BracketSort.AltSortAlternates | sports_reference/_binary_tree.py:264-278 | after `selection_sort`, no later element is strictly smaller than the one at an even index, nor strictly larger than the one at an odd index |
| BracketSort.Height | sports_reference/_binary_tree.py:281-299 | `height` succeeds exactly when the length is a power of two, returning h with 2^h = length, and raises ValueError otherwise, the empty list included |
| BracketSort.Pairs | sports_reference/_binary_tree.py:259 | joining adjacent groups halves their number, group k being groups 2k and 2k+1 concatenated |
| BracketSort.FlattenSingletons | sports_reference/_binary_tree.py:255 | the one-element groups, flattened, are the original list |
| BracketSort.FlattenPairs | sports_reference/_binary_tree.py:259 | joining adjacent groups keeps the elements and their order |
| BracketSort.AltSortKeepsGroups | sports_reference/_binary_tree.py:258 | sorting groups of width w keeps their number and width, and their elements up to order |
| BracketSort.RoundHalves | sports_reference/_binary_tree.py:257-259 | one round turns 2c groups of width w into c groups of width 2w holding the same elements |
| BracketSort.RoundsShape | sports_reference/_binary_tree.py:255-259 | after n of the h rounds there are 2^(h-n) groups of width 2^n, holding the original elements |
| BracketSort.FirstRoundIsElementOrder | sports_reference/_binary_tree.py:255-258 | in the first round, sorting one-element groups orders them exactly as sorting the elements would |
| BracketSort.BracketOrderPermutes | sports_reference/_binary_tree.py:249-261 | the bracket order of a list of length 2^h is a permutation of it |
| BracketSort.SortResult | sports_reference/_binary_tree.py:257-261 | after height rounds one group is left, and it is the bracket order |
| BracketSort.PlayRound | sports_reference/_binary_tree.py:257-259 | one loop iteration sorts `result` in place, leaving it holding `AltSort` of its old groups, and returns the joined pairs, the next round's groups, in a new array |
| BracketSort.Sort | sports_reference/_binary_tree.py:249-261 | `sort` raises ValueError exactly when the length is not a power of two; otherwise it returns the bracket order |
| BracketSort.SortOne | sports_reference/_binary_tree.py:249-261 | `sort([x]) == [x]` |
| BracketSort.SortFourSeeds | sports_reference/_binary_tree.py:249-261 | `sort([1, 2, 3, 4]) == [1, 4, 2, 3]` |
| Orders.LexStrictTotal | sports_reference/_binary_tree.py:271-273 | lexicographic list comparison over a strict total order is a strict total order |
| Orders.CharLessStrictTotal | sports_reference/cbb/postseason/_ncaa_bracket.py:35-46 | string characters compare by code point, a strict total order |
| NcaaBracket.KeyLess | sports_reference/cbb/postseason/_ncaa_bracket.py:35-46 | comparing `(seed, name)` raises TypeError exactly when one team is empty; a team that compares less is not equal |
| NcaaBracket.TeamTrichotomy | sports_reference/cbb/postseason/_ncaa_bracket.py:29-46 | two scraped teams compare without error and satisfy exactly one of <, ==, >; <= is < or ==, >= is > or == |
| NcaaBracket.TeamLtTransitive | sports_reference/cbb/postseason/_ncaa_bracket.py:35-37 | `<` on scraped teams is transitive |
| NcaaBracket.AbsentTeams | sports_reference/cbb/postseason/_ncaa_bracket.py:29-40 | two empty teams are equal, not less, and <= each other |
| NcaaBracket.HashAgreesWithEq | sports_reference/cbb/postseason/_ncaa_bracket.py:29-48 | equal teams hash alike |
| NcaaBracket.GameWinner | sports_reference/cbb/postseason/_ncaa_bracket.py:163-174 | a winner exists exactly when the second team slot exists and exactly one of the two teams has `winner` true (an empty `Team()` has `winner` None); it is that team, and it is one of the game's teams |
| NcaaBracket.TeamsOfGames | sports_reference/cbb/postseason/_ncaa_bracket.py:251-255 | `Round.teams` has two entries per game, game k's `a` at 2k and its `b` at 2k+1 |
| NcaaBracket.NumberRounds | sports_reference/cbb/postseason/_ncaa_bracket.py:274-276 | enumerating n round boxes from 1 gives keys exactly 1..n, round k holding box k's games under number k |
| NcaaBracket.MakeBracket | sports_reference/cbb/postseason/_ncaa_bracket.py:270-300 | the rounds are numbered consecutively from 1 and `nrounds` is the number of round boxes |
| NcaaBracket.BracketTeamsByGame | sports_reference/cbb/postseason/_ncaa_bracket.py:302-312 | in `Bracket.teams()`, round k's list has two entries per game of that round: entry 2j is game j's first team and entry 2j+1 its second slot, so the games' order is kept |
| NcaaBracket.TeamNodesByGame | sports_reference/cbb/postseason/_ncaa_bracket.py:329 | the `teams` dictionary `binary_tree` builds has, for round k, two fresh unlinked nodes per game: entry 2j wraps game j's first team and entry 2j+1 its second slot |
| NcaaBracket.SeatOne | sports_reference/cbb/postseason/_ncaa_bracket.py:333 | `node.data = …` on the node taken from the level's list sets the payload of the node at depth k, offset i, and no node at another depth or offset changes |
| NcaaBracket.SeatLevel | sports_reference/cbb/postseason/_ncaa_bracket.py:332-333 | the inner loop succeeds exactly when the row has at least 2^k entries, and then seats them left to right on depth k; no other depth changes |
| NcaaBracket.SeatLevels | sports_reference/cbb/postseason/_ncaa_bracket.py:331-333 | the outer loop succeeds exactly when every depth k finds 2^k entries in round n-k, and then every depth holds its round's entries |
| NcaaBracket.BinaryTreeOf | sports_reference/cbb/postseason/_ncaa_bracket.py:324-335 | `binary_tree` raises RecursionError with no rounds and IndexError when some round is too short; otherwise it returns a fresh tree of height nrounds-1 whose node at depth k, offset o holds a node wrapping team o of round nrounds-k |
| NcaaBracket.SeatedAt | sports_reference/cbb/postseason/_ncaa_bracket.py:331-333 | the node at depth k and offset o holds team o of round nrounds-k |
| NcaaBracket.SeatedRoot | sports_reference/cbb/postseason/_ncaa_bracket.py:328-333 | the root holds the first team of the last round |
| NcaaBracket.SeatedLeaves | sports_reference/cbb/postseason/_ncaa_bracket.py:328-333 | the leaves, left to right, hold the first round's teams in order |
| NcaaBracket.SeatedEveryNode | sports_reference/cbb/postseason/_ncaa_bracket.py:331-333 | every node of the tree holds a team: the one of its depth's round at its offset |
| NcaaBracket.SeatedLevels | sports_reference/cbb/postseason/_ncaa_bracket.py:331-333 | read through `levels(root)` as the loop walks it, entry o of depth k holds team o of round nrounds-k |
| BinaryTrees.BinaryTree.Size | sports_reference/_binary_tree.py:169-174 | `size` is `pow(2, height)`; SizeIsLeafCount proves it is the number of leaves |
| BinaryTrees.Truthy | sports_reference/_binary_tree.py:52-53 | `Node.__bool__`: a node is truthy when its payload is not None; NodeComparisons uses it to split the orderings into the error and the ordered case |
| BinaryTrees.NodeEq | sports_reference/_binary_tree.py:34-35 | `Node.__eq__` compares payloads only; NodeComparisons proves it is exactly one of the three outcomes beside < and > |
| BinaryTrees.NodeNe | sports_reference/_binary_tree.py:37-38 | `Node.__ne__`; NodeComparisons proves it is the negation of `__eq__` |
| BinaryTrees.NodeLt | sports_reference/_binary_tree.py:40-41 | `Node.__lt__` is the payloads' `<`; PayloadLess and NodeComparisons give its TypeError case and trichotomy |
| BinaryTrees.NodeGt | sports_reference/_binary_tree.py:46-47 | `Node.__gt__` is the payloads' `<` with operands swapped; NodeComparisons gives its TypeError case and trichotomy |
| BinaryTrees.NodeLe | sports_reference/_binary_tree.py:43-44 | `Node.__le__`; NodeComparisons proves it is "not >" when both payloads are present, and TypeError otherwise |
| BinaryTrees.NodeGe | sports_reference/_binary_tree.py:49-50 | `Node.__ge__`; NodeComparisons proves it is "not <" when both payloads are present, and TypeError otherwise |
| BinaryTrees.Traverse | sports_reference/_binary_tree.py:176-201 | `traverse`; TraverseAppends, TraverseShift, TraverseOfPerfect and TraverseVisitsEachOnce state what it returns |
| BinaryTrees.Levels | sports_reference/_binary_tree.py:203-223 | `levels`; LevelsOfPerfectKeys, LevelsOfPerfect, LevelsOfTree, LevelsListEachNodeOnce and LevelsChildren state what it returns |
| BracketSort.AltSort | sports_reference/_binary_tree.py:264-278 | the list `selection_sort` leaves; SelectionSort computes it in place, AltSortPermutes and AltSortAlternates state its properties |
| BracketSort.Round | sports_reference/_binary_tree.py:258-259 | one iteration of `sort`'s loop; RoundHalves states what it does to the groups |
| BracketSort.Rounds | sports_reference/_binary_tree.py:255-259 | the groups after n iterations; RoundsShape states their number, width and elements |
| BracketSort.BracketOrder | sports_reference/_binary_tree.py:249-261 | what `sort` returns; Sort computes it, BracketOrderPermutes, SortOne and SortFourSeeds state its properties |
| Orders.LexLess | sports_reference/_binary_tree.py:271-274 | Python's `<` on two lists, used when `selection_sort` compares groups; LexIrreflexive, LexTransitive, LexConnected and LexStrictTotal state its order properties |
| NcaaBracket.TeamEq | sports_reference/cbb/postseason/_ncaa_bracket.py:29-33 | `Team.__eq__` on `(seed, name)`; `__ne__` is its negation; TeamTrichotomy and AbsentTeams state its relation to the orderings |
| NcaaBracket.TeamLt | sports_reference/cbb/postseason/_ncaa_bracket.py:35-36 | `Team.__lt__`; KeyLess, TeamTrichotomy, TeamLtTransitive and AbsentTeams state its error case and order properties |
| NcaaBracket.TeamGt | sports_reference/cbb/postseason/_ncaa_bracket.py:41-42 | `Team.__gt__`; TeamTrichotomy states it is exactly the third outcome beside < and == |
| NcaaBracket.TeamLe | sports_reference/cbb/postseason/_ncaa_bracket.py:38-39 | `Team.__le__`; TeamTrichotomy and AbsentTeams state it is < or == |
| NcaaBracket.TeamGe | sports_reference/cbb/postseason/_ncaa_bracket.py:44-45 | `Team.__ge__`; TeamTrichotomy states it is > or == |
| NcaaBracket.TeamHash | sports_reference/cbb/postseason/_ncaa_bracket.py:47-48 | `Team.__hash__` hashes `(seed, name)`; HashAgreesWithEq states that equal teams hash alike |
| NcaaBracket.GameTeams | sports_reference/cbb/postseason/_ncaa_bracket.py:195-200 | `Game.teams`, the pair `(a, b)`; GameWinner states that a winner is one of them |
| NcaaBracket.RoundTeams | sports_reference/cbb/postseason/_ncaa_bracket.py:251-255 | `Round.teams`; TeamsOfGames states its length and entries |
| NcaaBracket.NRounds | sports_reference/cbb/postseason/_ncaa_bracket.py:295-300 | `nrounds`, the number of rounds; MakeBracket states it is the number of round boxes |

## Left out

- Fetching pages and reading them are not modelled: HTTP requests, the `bs4` selectors behind `Team.seed`, `name`, `href`, `points`, `boxscore` and the winner flag, and `Game.location`. They are I/O and a third-party parser; a team is given directly by its seed, name and winner flag.
- `Team.seed`: converting the seed text with `int(...)` can raise ValueError on a malformed page; the model takes the seed as an integer.
- pandas methods (`dataframe`, `Team.series`). They are wrappers over a library that is not part of this model.
- `Game.score`, the dictionary `{x: x.points for x in self.teams}`. It depends on `points`, which is read from the page and not modelled.
- `Game.__hash__` (a frozenset of the teams) and the `href`, `points` and `boxscore` fields. Nothing in the tree logic reads them.
- `sports_reference/cbb/postseason/tournament.py`. Besides fetching pages, it defines its own `Team`, `Game`, `Round` and `Bracket` classes, with their own comparisons and winner rule. Those duplicates are not modelled; only the classes of `_ncaa_bracket.py` are. The `Tournament` class, which fetches pages and builds brackets, is left out too.
- `BinaryTree.to_string`, `__repr__` and `__str__`. They format text for display.
- `Node.__copy__` and `Node.__deepcopy__`. They depend on Python's object dictionaries and memo table.
- The `parent`, `left` and `right` setters: the model sets links only inside `BinaryTrees.BuildTree`, as `build_tree` does. After construction only a node's `data` can change (`BinaryTrees.BinaryTree.SetData`); a caller that relinks nodes of a built tree is outside the model.
- Node identity and aliasing: a node is an arena position. The Python tree built by `build_tree` is shared by nobody else, so nothing is lost there.
- `traverse`'s default `order="in"` and its `traversal=None` becoming `[]`. The model passes the order and the starting list explicitly.
- In-place accumulation in `traverse` and `levels`: the Python appends to the list or dictionary the caller passed in and returns that same object, so the caller's object changes. `BinaryTrees.Traverse` and `BinaryTrees.Levels` return a new value instead, and the caller's value is untouched. The model does not capture that aliasing.
- Python dictionaries iterate in insertion order. `levels` inserts depths 0, 1, …, h in that order, so `binary_tree` visits depths in increasing order. The model keeps `levels` as a map and its loop walks the depths 0 .. h.
- BinaryTrees.PayloadLess: every ordering with a `None` payload is reported as TypeError. That is Python's behaviour when the other payload is of a built-in type. A payload class whose reflected dunder reads an attribute of the other operand raises AttributeError instead. `Node` (reading `other.data`) and `Team` (reading `other.seed`) are such classes, so `Node(Node(t)) < Node(None)` raises AttributeError.
- BinaryTrees.NodeComparisons: its TypeError case holds for built-in payloads only, for the reason just given. Payload `==` is taken as Dafny's `==`, whereas a payload class such as `Node` or `Team` raises AttributeError in `__eq__` when compared with `None`.
- `BracketSort.SelectionSort`: elements are ordered by a strict total order `lt` standing for Python's `<`, with `>` taken as `lt` reversed and equality as Dafny's `==`. Python objects whose comparisons disagree with that are outside the model.
- Python's unbounded integers need no wrap-around: `1 << height` and `pow(2, height)` are `Powers.Pow2`.
- BinaryTrees.BinaryTree.constructor: its `height` is a `nat`, so a direct `BinaryTree(h)` with `h < 0` cannot be written. In Python that call recurses without end, because `build_tree` tests only `height == 0`, and ends in RecursionError.
- `NcaaBracket.BinaryTreeOf`: with no rounds, the Python code fails only after exhausting the interpreter's recursion limit inside `BinaryTree(-1)`. The model returns `Err(RecursionError)` at once.
