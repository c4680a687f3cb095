/**
 * The perfect binary tree of `sports_reference/_binary_tree.py`.
 *
 * Python nodes are objects that point at each other (`parent`, `left`, `right`).
 * Here all nodes of a tree live in an arena, a sequence whose positions are the
 * nodes' identities, and every link is an optional arena index. `build_tree`
 * creates a node before its left subtree and that before its right subtree, so
 * the arena lists nodes in the order they were created: the subtree rooted at
 * position i with height h occupies the Count(h) = 2^(h+1) - 1 positions from
 * i on, its left child is at i + 1 and its right child at i + 1 + Count(h - 1).
 */
module BinaryTrees {
  import opened Wrappers
  import opened Powers
  import opened Orders
  import opened Layout

  /** A node: its payload (`None` until assigned) and its links, as arena indices. */
  datatype Node<T> = Node(data: Option<T>, parent: Option<nat>, left: Option<nat>, right: Option<nat>)

  type Arena<T> = seq<Node<T>>

  /** A node with the given payload and no links, as `Node(data)` creates it. */
  function Detached<T>(data: Option<T>): (n: Node<T>)
  {
    Node(data, None, None, None)
  }

  // ---------------------------------------------------------------------------
  // Comparisons: a node is compared, and tested for truth, through its payload only.

  /** `Node.__bool__`: a node is truthy when its payload is not None. */
  predicate Truthy<T>(n: Node<T>) {
    n.data.Some?
  }

  /** `Node.__eq__` and `Node.__ne__`. */
  predicate NodeEq<T(==)>(a: Node<T>, b: Node<T>) {
    a.data == b.data
  }

  predicate NodeNe<T(==)>(a: Node<T>, b: Node<T>) {
    a.data != b.data
  }

  /** Python's `x < y` on two payloads; a `None` payload cannot be ordered and raises TypeError. */
  function PayloadLess<T>(lt: (T, T) -> bool, x: Option<T>, y: Option<T>): (r: Result<bool>)
    ensures r.Err? <==> x.None? || y.None?
    ensures r.Err? ==> r.error == TypeError
  {
    if x.Some? && y.Some? then Ok(lt(x.value, y.value)) else Err(TypeError)
  }

  /** `Node.__lt__`, `__gt__`, `__le__`, `__ge__`, with `lt` the payload type's `<`. */
  function NodeLt<T>(lt: (T, T) -> bool, a: Node<T>, b: Node<T>): Result<bool> {
    PayloadLess(lt, a.data, b.data)
  }

  function NodeGt<T>(lt: (T, T) -> bool, a: Node<T>, b: Node<T>): Result<bool> {
    PayloadLess(lt, b.data, a.data)
  }

  function NodeLe<T(==)>(lt: (T, T) -> bool, a: Node<T>, b: Node<T>): Result<bool> {
    var r := PayloadLess(lt, a.data, b.data);
    if r.Ok? then Ok(r.value || a.data == b.data) else r
  }

  function NodeGe<T(==)>(lt: (T, T) -> bool, a: Node<T>, b: Node<T>): Result<bool> {
    var r := PayloadLess(lt, b.data, a.data);
    if r.Ok? then Ok(r.value || a.data == b.data) else r
  }

  predicate ExactlyOne(p: bool, q: bool, r: bool) {
    (p && !q && !r) || (!p && q && !r) || (!p && !q && r)
  }

  /**
   * Over a strict total order on payloads, two nodes whose payloads are present
   * stand in exactly one of the relations <, ==, >, and <= / >= are their unions;
   * the links play no part. With a payload missing, every ordering raises.
   */
  lemma NodeComparisons<T(!new)>(lt: (T, T) -> bool, a: Node<T>, b: Node<T>)
    requires StrictTotalOrder(lt)
    ensures Truthy(a) && Truthy(b) ==>
      && NodeLt(lt, a, b).Ok? && NodeGt(lt, a, b).Ok?
      && ExactlyOne(NodeLt(lt, a, b).value, NodeEq(a, b), NodeGt(lt, a, b).value)
      && NodeLe(lt, a, b) == Ok(!NodeGt(lt, a, b).value)
      && NodeGe(lt, a, b) == Ok(!NodeLt(lt, a, b).value)
    ensures !Truthy(a) || !Truthy(b) ==>
      NodeLt(lt, a, b) == NodeGt(lt, a, b) == NodeLe(lt, a, b) == NodeGe(lt, a, b) == Err(TypeError)
    ensures NodeNe(a, b) == !NodeEq(a, b)
  {
  }

  // ---------------------------------------------------------------------------
  // Shape

  /** Every child link of every node points to a later node of the arena. */
  ghost predicate WellFormed<T>(a: Arena<T>) {
    forall k :: 0 <= k < |a| ==> LinksForward(a, k)
  }

  ghost predicate LinksForward<T>(a: Arena<T>, k: nat)
    requires k < |a|
  {
    LinkAfter(a, k, a[k].left) && LinkAfter(a, k, a[k].right)
  }

  ghost predicate LinkAfter<T>(a: Arena<T>, k: nat, c: Option<nat>) {
    c.Some? ==> k < c.value < |a|
  }

  /** `node` is absent or a position of the arena. */
  predicate InArena<T>(a: Arena<T>, node: Option<nat>) {
    node.Some? ==> node.value < |a|
  }

  function Rank<T>(a: Arena<T>, node: Option<nat>): int {
    if node.Some? then |a| - node.value else 0
  }

  /**
   * The subtree at position i is a perfect tree of height h laid out as
   * `build_tree` creates it: a leaf when h == 0, and otherwise a node whose
   * children are perfect trees of height h - 1 at i + 1 and i + 1 + Count(h - 1)
   * that point back at it.
   */
  ghost predicate PerfectAt<T>(a: Arena<T>, i: nat, h: nat)
    decreases h
  {
    && i + Count(h) <= |a|
    && if h == 0 then a[i].left.None? && a[i].right.None?
       else
         var l, r := i + 1, i + 1 + Count(h - 1);
         && a[i].left == Some(l) && a[i].right == Some(r)
         && a[l].parent == Some(i) && a[r].parent == Some(i)
         && PerfectAt(a, l, h - 1) && PerfectAt(a, r, h - 1)
  }

  /** The two children of the root of a perfect subtree of height h > 0. */
  lemma PerfectChildren<T>(a: Arena<T>, i: nat, h: nat, l: nat, r: nat)
    requires PerfectAt(a, i, h) && h > 0 && l == i + 1 && r == i + 1 + Count(h - 1)
    ensures Count(h) == 2 * Count(h - 1) + 1
    ensures i < l < r < |a|
    ensures a[i].left == Some(l) && a[i].right == Some(r)
    ensures a[l].parent == Some(i) && a[r].parent == Some(i)
    ensures PerfectAt(a, l, h - 1) && PerfectAt(a, r, h - 1)
  {
  }

  /** Conversely, the unfolded shape of a perfect subtree of height h > 0, with children l and r, makes it perfect. */
  lemma PerfectJoin<T>(a: Arena<T>, i: nat, h: nat, l: nat, r: nat)
    requires h > 0 && l == i + 1 && r == i + 1 + Count(h - 1) && i + Count(h) <= |a|
    requires a[i].left == Some(l) && a[i].right == Some(r)
    requires a[l].parent == Some(i) && a[r].parent == Some(i)
    requires PerfectAt(a, l, h - 1) && PerfectAt(a, r, h - 1)
    ensures PerfectAt(a, i, h)
  {
  }

  /**
   * Replacing one node keeps a perfect subtree perfect when the node lies outside
   * the subtree, or keeps its links (the subtree's root may take another parent).
   */
  lemma {:induction false} PerfectReplaced<T>(a: Arena<T>, i: nat, h: nat, x: nat, n: Node<T>)
    requires PerfectAt(a, i, h) && x < |a|
    requires x < i || i + Count(h) <= x || (n.left == a[x].left && n.right == a[x].right && (x == i || n.parent == a[x].parent))
    ensures PerfectAt(a[x := n], i, h)
    decreases h
  {
    if h > 0 {
      var l, r := i + 1, i + 1 + Count(h - 1);
      PerfectChildren(a, i, h, l, r);
      PerfectReplaced(a, l, h - 1, x, n);
      PerfectReplaced(a, r, h - 1, x, n);
      PerfectJoin(a[x := n], i, h, l, r);
    }
  }

  /** Appending nodes after a perfect subtree keeps it perfect. */
  lemma {:induction false} PerfectExtended<T>(a: Arena<T>, b: Arena<T>, i: nat, h: nat)
    requires PerfectAt(a, i, h) && |a| <= |b| && b[..|a|] == a
    ensures PerfectAt(b, i, h)
    decreases h
  {
    if h > 0 {
      var l, r := i + 1, i + 1 + Count(h - 1);
      PerfectChildren(a, i, h, l, r);
      PerfectExtended(a, b, l, h - 1);
      PerfectExtended(a, b, r, h - 1);
      assert b[i] == b[..|a|][i] && b[l] == b[..|a|][l] && b[r] == b[..|a|][r];
      PerfectJoin(b, i, h, l, r);
    }
  }

  /** `p` holds `x` as its left or right child. */
  ghost predicate ChildOf<T>(a: Arena<T>, x: nat, p: nat) {
    p < |a| && (a[p].left == Some(x) || a[p].right == Some(x))
  }

  /**
   * The links of one node x of a perfect subtree: a node below the root has a
   * parent before it inside the subtree that holds it as a child, and each
   * child of x lies after x inside the subtree and points back to x.
   */
  lemma {:induction false} PerfectLinksAt<T>(a: Arena<T>, i: nat, h: nat, x: nat)
    requires PerfectAt(a, i, h) && i <= x < i + Count(h)
    ensures x != i ==> a[x].parent.Some? && i <= a[x].parent.value < x && ChildOf(a, x, a[x].parent.value)
    ensures a[x].left.Some? ==> x < a[x].left.value < i + Count(h) && a[a[x].left.value].parent == Some(x)
    ensures a[x].right.Some? ==> x < a[x].right.value < i + Count(h) && a[a[x].right.value].parent == Some(x)
    decreases h
  {
    if h > 0 {
      var l, r := i + 1, i + 1 + Count(h - 1);
      PerfectChildren(a, i, h, l, r);
      if l <= x < r {
        PerfectLinksAt(a, l, h - 1, x);
      } else if r <= x {
        PerfectLinksAt(a, r, h - 1, x);
      }
    }
  }

  /** An arena holding exactly one perfect tree rooted at 0 is well formed. */
  lemma PerfectWellFormed<T>(a: Arena<T>, h: nat)
    requires PerfectAt(a, 0, h) && |a| == Count(h)
    ensures WellFormed(a)
  {
    forall k | 0 <= k < |a|
      ensures LinksForward(a, k)
    {
      PerfectLinksAt(a, 0, h, k);
    }
  }

  /** Two successive `build_tree` calls after a fresh node keep the arena and add only empty payloads. */
  lemma GrowTwice<T>(arena: Arena<T>, g1: Arena<T>, g2: Arena<T>, g3: Arena<T>)
    requires g1 == arena + [Detached(None)]
    requires |g1| <= |g2| && g2[..|g1|] == g1 && forall k :: |g1| <= k < |g2| ==> g2[k].data.None?
    requires |g2| <= |g3| && g3[..|g2|] == g2 && forall k :: |g2| <= k < |g3| ==> g3[k].data.None?
    ensures g3[..|arena|] == arena && g3[|arena|] == Detached(None)
    ensures forall k :: |arena| <= k < |g3| ==> g3[k].data.None?
  {
    assert g3[..|arena|] == g2[..|g1|][..|arena|];
    forall k | |arena| <= k < |g3|
      ensures g3[k].data.None?
    {
      if k < |g2| {
        assert g3[k] == g2[k];
        if k < |g1| {
          assert g2[k] == g1[k];
        }
      }
    }
  }

  /** PerfectReplaced for the two subtrees of a node at once. */
  lemma PerfectReplacedPair<T>(a: Arena<T>, l: nat, r: nat, h: nat, x: nat, n: Node<T>)
    requires r == l + Count(h) && PerfectAt(a, l, h) && PerfectAt(a, r, h) && x < |a|
    requires x < l || (x == l && n.left == a[x].left && n.right == a[x].right) || (x == r && n.left == a[x].left && n.right == a[x].right)
    ensures PerfectAt(a[x := n], l, h) && PerfectAt(a[x := n], r, h)
  {
    PerfectReplaced(a, l, h, x, n);
    PerfectReplaced(a, r, h, x, n);
  }

  /**
   * Linking a fresh node to the roots of two perfect trees of height h - 1 built
   * right after it yields a perfect tree of height h.
   */
  lemma AttachShape<T>(g3: Arena<T>, g4: Arena<T>, g5: Arena<T>, grown: Arena<T>, node: nat, h: nat, left: nat, right: nat)
    requires h > 0 && left == node + 1 && right == left + Count(h - 1) && |g3| == node + Count(h)
    requires PerfectAt(g3, left, h - 1) && PerfectAt(g3, right, h - 1)
    requires g4 == g3[node := g3[node].(left := Some(left), right := Some(right))]
    requires g5 == g4[left := g4[left].(parent := Some(node))]
    requires grown == g5[right := g5[right].(parent := Some(node))]
    ensures PerfectAt(grown, node, h) && grown[node].parent == g3[node].parent
  {
    assert Count(h) == 2 * Count(h - 1) + 1;
    PerfectReplacedPair(g3, left, right, h - 1, node, g4[node]);
    PerfectReplacedPair(g4, left, right, h - 1, left, g5[left]);
    PerfectReplacedPair(g5, left, right, h - 1, right, grown[right]);
    assert grown[node] == g4[node] && grown[left] == g5[left];
    PerfectJoin(grown, node, h, left, right);
  }

  /** The same three updates change neither the nodes before the fresh one nor any payload. */
  lemma AttachFrame<T>(arena: Arena<T>, g3: Arena<T>, g4: Arena<T>, g5: Arena<T>, grown: Arena<T>, left: nat, right: nat)
    requires |arena| < left < right < |g3| && g3[..|arena|] == arena
    requires forall k :: |arena| <= k < |g3| ==> g3[k].data.None?
    requires g4 == g3[|arena| := g3[|arena|].(left := Some(left), right := Some(right))]
    requires g5 == g4[left := g4[left].(parent := Some(|arena|))]
    requires grown == g5[right := g5[right].(parent := Some(|arena|))]
    ensures |grown| == |g3| && grown[..|arena|] == arena
    ensures forall k :: |arena| <= k < |grown| ==> grown[k].data.None?
  {
    assert grown[..|arena|] == g3[..|arena|];
  }

  /**
   * `build_tree(height)`: appends a fresh perfect tree of the given height to the
   * arena and returns the position of its root. The nodes already in the arena
   * are untouched, every new payload is None, and the new root has no parent.
   */
  method BuildTree<T>(arena: Arena<T>, height: nat) returns (grown: Arena<T>, node: nat)
    ensures node == |arena| && |grown| == |arena| + Count(height)
    ensures grown[..|arena|] == arena
    ensures PerfectAt(grown, node, height)
    ensures grown[node].parent.None?
    ensures forall k :: |arena| <= k < |grown| ==> grown[k].data.None?
    decreases height
  {
    node := |arena|;
    grown := arena + [Detached(None)];
    if height == 0 {
      assert grown[..|arena|] == arena;
      return;
    }
    ghost var g1 := grown;
    var left, right;
    grown, left := BuildTree(grown, height - 1);
    ghost var g2 := grown;
    grown, right := BuildTree(grown, height - 1);
    ghost var g3 := grown;
    GrowTwice(arena, g1, g2, g3);
    PerfectExtended(g2, g3, left, height - 1);
    // `build_tree` never returns None, so both `is not None` tests succeed.
    grown := grown[node := grown[node].(left := Some(left), right := Some(right))];
    ghost var g4 := grown;
    grown := grown[left := grown[left].(parent := Some(node))];
    ghost var g5 := grown;
    grown := grown[right := grown[right].(parent := Some(node))];
    AttachShape(g3, g4, g5, grown, node, height, left, right);
    AttachFrame(arena, g3, g4, g5, grown, left, right);
  }

  /** Number of childless nodes among positions lo .. hi - 1. */
  function LeafCount<T>(a: Arena<T>, lo: nat, hi: nat): nat
    requires lo <= hi <= |a|
    decreases hi - lo
  {
    if lo == hi then 0
    else LeafCount(a, lo, hi - 1) + (if a[hi - 1].left.None? && a[hi - 1].right.None? then 1 else 0)
  }

  lemma {:induction false} LeafCountSplit<T>(a: Arena<T>, lo: nat, mid: nat, hi: nat)
    requires lo <= mid <= hi <= |a|
    ensures LeafCount(a, lo, hi) == LeafCount(a, lo, mid) + LeafCount(a, mid, hi)
    decreases hi - mid
  {
    if mid < hi {
      LeafCountSplit(a, lo, mid, hi - 1);
    }
  }

  /** A perfect tree of height h has 2^h leaves. */
  lemma {:induction false} PerfectLeaves<T>(a: Arena<T>, i: nat, h: nat)
    requires PerfectAt(a, i, h)
    ensures LeafCount(a, i, i + Count(h)) == Pow2(h)
    decreases h
  {
    if h == 0 {
      assert LeafCount(a, i, i + 1) == LeafCount(a, i, i) + 1;
    } else {
      var l, r := i + 1, i + 1 + Count(h - 1);
      PerfectChildren(a, i, h, l, r);
      PerfectLeaves(a, l, h - 1);
      PerfectLeaves(a, r, h - 1);
      LeafCountSplit(a, i, l, i + Count(h));
      LeafCountSplit(a, l, r, i + Count(h));
      assert LeafCount(a, i, l) == 0;
    }
  }

  // ---------------------------------------------------------------------------
  // Traversal

  /**
   * `traverse(node, order, traversal)`: appends the subtree's nodes to
   * `traversal` in pre-, in- or post-order; an absent node leaves it unchanged.
   */
  function Traverse<T>(a: Arena<T>, node: Option<nat>, order: Order, traversal: seq<nat>): seq<nat>
    requires WellFormed(a) && InArena(a, node)
    decreases Rank(a, node)
  {
    if node.None? then traversal
    else
      assert LinksForward(a, node.value);
      var n := a[node.value];
      var t := if order == Pre then traversal + [node.value] else traversal;
      var t := Traverse(a, n.left, order, t);
      var t := if order == In then t + [node.value] else t;
      var t := Traverse(a, n.right, order, t);
      if order == Post then t + [node.value] else t
  }

  /** What is already in the accumulator plays no part: the same nodes are appended after it. */
  lemma {:induction false} TraverseShift<T>(a: Arena<T>, node: Option<nat>, order: Order, prefix: seq<nat>, traversal: seq<nat>)
    requires WellFormed(a) && InArena(a, node)
    ensures Traverse(a, node, order, prefix + traversal) == prefix + Traverse(a, node, order, traversal)
    decreases Rank(a, node)
  {
    if node.Some? {
      var x := node.value;
      assert LinksForward(a, x);
      var n := a[x];
      var t1 := if order == Pre then traversal + [x] else traversal;
      assert (if order == Pre then (prefix + traversal) + [x] else prefix + traversal) == prefix + t1;
      TraverseShift(a, n.left, order, prefix, t1);
      var t2 := Traverse(a, n.left, order, t1);
      var t3 := if order == In then t2 + [x] else t2;
      assert (if order == In then (prefix + t2) + [x] else prefix + t2) == prefix + t3;
      TraverseShift(a, n.right, order, prefix, t3);
      var t4 := Traverse(a, n.right, order, t3);
      assert (if order == Post then (prefix + t4) + [x] else prefix + t4) == prefix + (if order == Post then t4 + [x] else t4);
    }
  }

  /**
   * The accumulator is only ever appended to: an absent node returns it
   * unchanged, and a present one appends the same nodes whatever it holds.
   */
  lemma TraverseAppends<T>(a: Arena<T>, node: Option<nat>, order: Order, traversal: seq<nat>)
    requires WellFormed(a) && InArena(a, node)
    ensures node.None? ==> Traverse(a, node, order, traversal) == traversal
    ensures Traverse(a, node, order, traversal) == traversal + Traverse(a, node, order, [])
  {
    TraverseShift(a, node, order, traversal, []);
    assert traversal + [] == traversal;
  }

  /**
   * A present node is appended before its left subtree ("pre"), between its
   * subtrees ("in") or after its right subtree ("post").
   */
  lemma TraverseVisit<T>(a: Arena<T>, x: nat, order: Order)
    requires WellFormed(a) && x < |a|
    ensures LinksForward(a, x)
    ensures Traverse(a, Some(x), order, []) ==
      Placed(order, x, Traverse(a, a[x].left, order, []), Traverse(a, a[x].right, order, []))
  {
    assert LinksForward(a, x);
    var n := a[x];
    var tl, tr := Traverse(a, n.left, order, []), Traverse(a, n.right, order, []);
    match order
    case Pre =>
      assert [] + [x] == [x];
      TraverseAppends(a, n.left, order, [x]);
      TraverseAppends(a, n.right, order, [x] + tl);
    case In =>
      TraverseAppends(a, n.right, order, tl + [x]);
    case Post =>
      TraverseAppends(a, n.right, order, tl);
  }

  /** A leaf is listed alone, whatever the order. */
  lemma TraverseOfLeaf<T>(a: Arena<T>, i: nat, order: Order)
    requires WellFormed(a) && PerfectAt(a, i, 0)
    ensures Traverse(a, Some(i), order, []) == [i]
  {
    TraverseVisit(a, i, order);
  }

  /** TraverseVisit at a node whose children are l and r. */
  lemma TraverseVisitAt<T>(a: Arena<T>, x: nat, l: nat, r: nat, order: Order)
    requires WellFormed(a) && x < |a| && a[x].left == Some(l) && a[x].right == Some(r)
    ensures l < |a| && r < |a|
    ensures Traverse(a, Some(x), order, []) == Placed(order, x, Traverse(a, Some(l), order, []), Traverse(a, Some(r), order, []))
  {
    TraverseVisit(a, x, order);
  }

  /** `traverse` on a perfect subtree lists it as OrderOf does. */
  lemma {:induction false} TraverseOfPerfect<T>(a: Arena<T>, i: nat, h: nat, order: Order)
    requires WellFormed(a) && PerfectAt(a, i, h)
    ensures Traverse(a, Some(i), order, []) == OrderOf(i, h, order)
    decreases h, 1
  {
    if h == 0 {
      TraverseOfLeaf(a, i, order);
    } else {
      TraverseOfPerfectNode(a, i, h, order);
    }
  }

  /** The inner-node case of TraverseOfPerfect: both subtrees, then the root placed between them. */
  lemma {:induction false} TraverseOfPerfectNode<T>(a: Arena<T>, i: nat, h: nat, order: Order)
    requires WellFormed(a) && PerfectAt(a, i, h) && h > 0
    ensures Traverse(a, Some(i), order, []) == OrderOf(i, h, order)
    decreases h, 0
  {
    var l, r := i + 1, i + 1 + Count(h - 1);
    PerfectChildren(a, i, h, l, r);
    TraverseOfPerfect(a, l, h - 1, order);
    TraverseOfPerfect(a, r, h - 1, order);
    TraverseOfPerfectJoin(a, i, h, l, r, order);
  }

  /** Joins the listings of the two subtrees of a perfect node. */
  lemma TraverseOfPerfectJoin<T>(a: Arena<T>, i: nat, h: nat, l: nat, r: nat, order: Order)
    requires WellFormed(a) && h > 0 && l == i + 1 && r == i + 1 + Count(h - 1) && r < |a|
    requires a[i].left == Some(l) && a[i].right == Some(r)
    requires Traverse(a, Some(l), order, []) == OrderOf(l, h - 1, order)
    requires Traverse(a, Some(r), order, []) == OrderOf(r, h - 1, order)
    ensures Traverse(a, Some(i), order, []) == OrderOf(i, h, order)
  {
    TraverseVisitAt(a, i, l, r, order);
    PlacedListings(order, i, h, Traverse(a, Some(i), order, []), Traverse(a, Some(l), order, []), Traverse(a, Some(r), order, []));
  }

  /** A node placed between the listings of its two perfect subtrees is the listing of its own subtree. */
  lemma PlacedListings(order: Order, i: nat, h: nat, t: seq<nat>, tl: seq<nat>, tr: seq<nat>)
    requires h > 0 && t == Placed(order, i, tl, tr)
    requires tl == OrderOf(i + 1, h - 1, order) && tr == OrderOf(i + 1 + Count(h - 1), h - 1, order)
    ensures t == OrderOf(i, h, order)
  {
  }

  // ---------------------------------------------------------------------------
  // Levels

  function Get(levels: map<nat, seq<nat>>, k: nat): seq<nat> {
    if k in levels then levels[k] else []
  }

  /**
   * `levels(node, nlevel, levels)`: appends each node of the subtree to the list
   * of its depth (the start node at `nlevel`), visiting a node, then its left
   * subtree, then its right subtree; an absent node leaves the mapping unchanged.
   */
  function Levels<T>(a: Arena<T>, node: Option<nat>, nlevel: nat, levels: map<nat, seq<nat>>): map<nat, seq<nat>>
    requires WellFormed(a) && InArena(a, node)
    decreases Rank(a, node)
  {
    if node.None? then levels
    else
      assert LinksForward(a, node.value);
      var here := levels[nlevel := Get(levels, nlevel) + [node.value]];
      var afterLeft := Levels(a, a[node.value].left, nlevel + 1, here);
      Levels(a, a[node.value].right, nlevel + 1, afterLeft)
  }

  lemma GetAppend(m: map<nat, seq<nat>>, d: nat, i: nat, k: nat)
    ensures Get(m[d := Get(m, d) + [i]], k) == Get(m, k) + (if k == d then [i] else [])
  {
  }

  /** Prepending at each of three steps is prepending their concatenation once. */
  lemma ConcatChain<U>(x: seq<U>, y: seq<U>, z: seq<U>, g: seq<U>, p: seq<U>, q: seq<U>, r: seq<U>, s: seq<U>)
    requires x == y + r && y == z + q && z == g + p && s == p + q + r
    ensures x == g + s
  {
  }

  /** One step of `levels` at a node with children l and r. */
  lemma LevelsStep<T>(a: Arena<T>, i: nat, l: nat, r: nat, d: nat, m: map<nat, seq<nat>>)
    requires WellFormed(a) && i < |a| && a[i].left == Some(l) && a[i].right == Some(r)
    ensures l < |a| && r < |a|
    ensures Levels(a, Some(i), d, m) == Levels(a, Some(r), d + 1, Levels(a, Some(l), d + 1, m[d := Get(m, d) + [i]]))
  {
    assert LinksForward(a, i);
  }

  /** `levels` at a leaf appends the leaf to its depth's list. */
  lemma LevelsLeaf<T>(a: Arena<T>, i: nat, d: nat, m: map<nat, seq<nat>>)
    requires WellFormed(a) && i < |a| && a[i].left.None? && a[i].right.None?
    ensures Levels(a, Some(i), d, m) == m[d := Get(m, d) + [i]]
  {
  }

  lemma {:induction false} LevelsOfPerfectKeys<T>(a: Arena<T>, i: nat, h: nat, d: nat, m: map<nat, seq<nat>>, k: nat)
    requires WellFormed(a) && PerfectAt(a, i, h)
    ensures k in Levels(a, Some(i), d, m) <==> k in m || d <= k <= d + h
    decreases h
  {
    var here := m[d := Get(m, d) + [i]];
    if h == 0 {
      LevelsLeaf(a, i, d, m);
    } else {
      var l, rt := i + 1, i + 1 + Count(h - 1);
      LevelsStep(a, i, l, rt, d, m);
      LevelsOfPerfectKeys(a, l, h - 1, d + 1, here, k);
      LevelsOfPerfectKeys(a, rt, h - 1, d + 1, Levels(a, Some(l), d + 1, here), k);
    }
  }

  /** The base case of LevelsOfPerfect. */
  lemma LevelsOfLeaf<T>(a: Arena<T>, i: nat, d: nat, m: map<nat, seq<nat>>, k: nat)
    requires WellFormed(a) && PerfectAt(a, i, 0)
    ensures Get(Levels(a, Some(i), d, m), k) == Get(m, k) + LevelSegment(i, 0, d, k)
  {
    LevelsLeaf(a, i, d, m);
    GetAppend(m, d, i, k);
  }

  /** The inductive step of LevelsOfPerfect, given what the two subtrees add to depth k. */
  lemma LevelsOfPerfectStep<T>(a: Arena<T>, i: nat, l: nat, r: nat, d: nat, m: map<nat, seq<nat>>, k: nat,
                               here: map<nat, seq<nat>>, afterLeft: map<nat, seq<nat>>, res: map<nat, seq<nat>>,
                               sl: seq<nat>, sr: seq<nat>, s: seq<nat>)
    requires WellFormed(a) && i < |a| && a[i].left == Some(l) && a[i].right == Some(r)
    requires l < |a| && r < |a|
    requires here == m[d := Get(m, d) + [i]]
    requires afterLeft == Levels(a, Some(l), d + 1, here)
    requires res == Levels(a, Some(r), d + 1, afterLeft)
    requires Get(afterLeft, k) == Get(here, k) + sl
    requires Get(res, k) == Get(afterLeft, k) + sr
    requires s == (if k == d then [i] else []) + sl + sr
    ensures Get(Levels(a, Some(i), d, m), k) == Get(m, k) + s
  {
    LevelsStep(a, i, l, r, d, m);
    GetAppend(m, d, i, k);
    ConcatChain(Get(res, k), Get(afterLeft, k), Get(here, k), Get(m, k),
      if k == d then [i] else [], sl, sr, s);
  }

  /**
   * `levels` started at a perfect subtree at depth d appends to the list of
   * each depth k the subtree's segment of that depth.
   */
  lemma {:induction false} LevelsOfPerfect<T>(a: Arena<T>, i: nat, h: nat, d: nat, m: map<nat, seq<nat>>, k: nat)
    requires WellFormed(a) && PerfectAt(a, i, h)
    ensures Get(Levels(a, Some(i), d, m), k) == Get(m, k) + LevelSegment(i, h, d, k)
    decreases h, 1
  {
    if h == 0 {
      LevelsOfLeaf(a, i, d, m, k);
    } else {
      LevelsOfPerfectNode(a, i, h, d, m, k);
    }
  }

  /** The case of LevelsOfPerfect at a node with two children. */
  lemma {:induction false} LevelsOfPerfectNode<T>(a: Arena<T>, i: nat, h: nat, d: nat, m: map<nat, seq<nat>>, k: nat)
    requires WellFormed(a) && PerfectAt(a, i, h) && h > 0
    ensures Get(Levels(a, Some(i), d, m), k) == Get(m, k) + LevelSegment(i, h, d, k)
    decreases h, 0
  {
    var l, r := i + 1, i + 1 + Count(h - 1);
    PerfectChildren(a, i, h, l, r);
    var here := m[d := Get(m, d) + [i]];
    LevelsOfPerfect(a, l, h - 1, d + 1, here, k);
    var afterLeft := Levels(a, Some(l), d + 1, here);
    LevelsOfPerfect(a, r, h - 1, d + 1, afterLeft, k);
    LevelsOfPerfectJoin(a, i, h, l, r, d, m, k, here, afterLeft);
  }

  /** LevelsOfPerfect at a node, given it for both subtrees. */
  lemma LevelsOfPerfectJoin<T>(a: Arena<T>, i: nat, h: nat, l: nat, r: nat, d: nat, m: map<nat, seq<nat>>, k: nat,
                               here: map<nat, seq<nat>>, afterLeft: map<nat, seq<nat>>)
    requires WellFormed(a) && h > 0 && l == i + 1 && r == i + 1 + Count(h - 1)
    requires i < |a| && l < |a| && r < |a| && a[i].left == Some(l) && a[i].right == Some(r)
    requires here == m[d := Get(m, d) + [i]] && afterLeft == Levels(a, Some(l), d + 1, here)
    requires Get(Levels(a, Some(l), d + 1, here), k) == Get(here, k) + LevelSegment(l, h - 1, d + 1, k)
    requires Get(Levels(a, Some(r), d + 1, afterLeft), k) == Get(afterLeft, k) + LevelSegment(r, h - 1, d + 1, k)
    ensures Get(Levels(a, Some(i), d, m), k) == Get(m, k) + LevelSegment(i, h, d, k)
  {
    LevelSegmentSplit(i, h, d, k, l, r);
    LevelsOfPerfectStep(a, i, l, r, d, m, k, here, afterLeft, Levels(a, Some(r), d + 1, afterLeft),
      LevelSegment(l, h - 1, d + 1, k), LevelSegment(r, h - 1, d + 1, k), LevelSegment(i, h, d, k));
  }

  /** The node at depth k, offset o roots a perfect subtree of height m = h - k. */
  lemma {:induction false} NodeAtSubtree<T>(a: Arena<T>, i: nat, h: nat, k: nat, o: nat, m: nat)
    requires PerfectAt(a, i, h) && k <= h && o < Pow2(k) && m == h - k
    ensures PerfectAt(a, NodeAt(i, h, k, o), m)
    decreases k, 1
  {
    if k > 0 {
      if o < Pow2(k - 1) {
        NodeAtSubtreeInLeft(a, i, h, k, o, m);
      } else {
        NodeAtSubtreeInRight(a, i, h, k, o, m);
      }
    }
  }

  /** The case of NodeAtSubtree in the left subtree ... */
  lemma {:induction false} NodeAtSubtreeInLeft<T>(a: Arena<T>, i: nat, h: nat, k: nat, o: nat, m: nat)
    requires PerfectAt(a, i, h) && 0 < k <= h && o < Pow2(k - 1) && m == h - k
    ensures PerfectAt(a, NodeAt(i, h, k, o), m)
    decreases k, 0
  {
    var l, r := i + 1, i + 1 + Count(h - 1);
    PerfectChildren(a, i, h, l, r);
    NodeAtSubtree(a, l, h - 1, k - 1, o, m);
    NodeAtInLeft(i, h, k, o, l);
  }

  /** ... and in the right one. */
  lemma {:induction false} NodeAtSubtreeInRight<T>(a: Arena<T>, i: nat, h: nat, k: nat, o: nat, m: nat)
    requires PerfectAt(a, i, h) && 0 < k <= h && Pow2(k - 1) <= o < Pow2(k) && m == h - k
    ensures PerfectAt(a, NodeAt(i, h, k, o), m)
    decreases k, 0
  {
    var l, r, p := i + 1, i + 1 + Count(h - 1), o - Pow2(k - 1);
    PerfectChildren(a, i, h, l, r);
    NodeAtSubtree(a, r, h - 1, k - 1, p, m);
    NodeAtInRight(i, h, k, o, r, p);
  }

  /**
   * Below depth h each node of a perfect subtree has as children the nodes at
   * offsets 2o and 2o + 1 of the next depth, so depth k + 1 lists the children
   * of depth k from left to right.
   */
  lemma NodeAtChildren<T>(a: Arena<T>, i: nat, h: nat, k: nat, o: nat)
    requires PerfectAt(a, i, h) && k < h && o < Pow2(k)
    ensures 2 * o + 1 < Pow2(k + 1)
    ensures a[NodeAt(i, h, k, o)].left == Some(NodeAt(i, h, k + 1, 2 * o))
    ensures a[NodeAt(i, h, k, o)].right == Some(NodeAt(i, h, k + 1, 2 * o + 1))
  {
    var x, m, j := NodeAt(i, h, k, o), h - k, k + 1;
    NodeAtSubtree(a, i, h, k, o, m);
    NodeAtNext(i, h, k, o, j);
    assert m - 1 == h - j;
    PerfectChildren(a, x, m, x + 1, x + 1 + Count(m - 1));
  }

  /** The nodes of depth h are the leaves. */
  lemma NodeAtLeaf<T>(a: Arena<T>, i: nat, h: nat, o: nat)
    requires PerfectAt(a, i, h) && o < Pow2(h)
    ensures a[NodeAt(i, h, h, o)].left.None? && a[NodeAt(i, h, h, o)].right.None?
  {
    NodeAtSubtree(a, i, h, h, o, 0);
  }

  // ---------------------------------------------------------------------------
  // The tree object

  /** `BinaryTree(height)`: a perfect tree of fixed height, its nodes held in an arena. */
  class BinaryTree<T> {
    const height: nat
    const root: nat
    var nodes: Arena<T>

    ghost predicate Valid()
      reads this
    {
      && root == 0
      && |nodes| == Count(height)
      && PerfectAt(nodes, root, height)
      && nodes[root].parent.None?
    }

    constructor (height: nat)
      ensures Valid() && this.height == height
      ensures forall k :: 0 <= k < |nodes| ==> nodes[k].data.None?
    {
      this.height := height;
      var arena, r := BuildTree([], height);
      root := r;
      nodes := arena;
    }

    /** `size`: the number of leaves, 2^height. */
    function Size(): nat
      reads this
    {
      Pow2(height)
    }

    /** `node.data = value` for the node at position x; the links stay as they are. */
    method SetData(x: nat, value: Option<T>)
      requires Valid() && x < |nodes|
      modifies this
      ensures Valid()
      ensures nodes == old(nodes)[x := old(nodes)[x].(data := value)]
    {
      ghost var before := nodes;
      nodes := nodes[x := nodes[x].(data := value)];
      PerfectReplaced(before, root, height, x, before[x].(data := value));
    }
  }

  /** A tree of height h has 2^(h+1) - 1 nodes, of which 2^h = `size` are leaves. */
  lemma SizeIsLeafCount<T>(t: BinaryTree<T>)
    requires t.Valid()
    ensures |t.nodes| == Pow2(t.height + 1) - 1
    ensures LeafCount(t.nodes, 0, |t.nodes|) == t.Size()
  {
    CountIsPow2(t.height);
    PerfectLeaves(t.nodes, 0, t.height);
  }

  /** The root has no parent; every other node's parent holds it as a child, and every child points back. */
  lemma TreeParentLinks<T>(t: BinaryTree<T>, x: nat)
    requires t.Valid() && x < |t.nodes|
    ensures x == t.root <==> t.nodes[x].parent.None?
    ensures x != t.root ==> ChildOf(t.nodes, x, t.nodes[x].parent.value)
    ensures t.nodes[x].left.Some? ==> t.nodes[x].left.value < |t.nodes| && t.nodes[t.nodes[x].left.value].parent == Some(x)
    ensures t.nodes[x].right.Some? ==> t.nodes[x].right.value < |t.nodes| && t.nodes[t.nodes[x].right.value].parent == Some(x)
  {
    PerfectLinksAt(t.nodes, 0, t.height, x);
  }

  /** `traverse(root, order)` lists every node of the tree exactly once, in each of the three orders. */
  lemma TraverseVisitsEachOnce<T>(t: BinaryTree<T>, order: Order)
    requires t.Valid()
    ensures WellFormed(t.nodes)
    ensures Traverse(t.nodes, Some(t.root), order, []) == OrderOf(0, t.height, order)
    ensures |Traverse(t.nodes, Some(t.root), order, [])| == Pow2(t.height + 1) - 1
    ensures forall x: nat :: multiset(Traverse(t.nodes, Some(t.root), order, []))[x] == if x < |t.nodes| then 1 else 0
  {
    PerfectWellFormed(t.nodes, t.height);
    CountIsPow2(t.height);
    TraverseOfPerfect(t.nodes, 0, t.height, order);
    OrderOfLength(0, t.height, order);
    forall x: nat ensures multiset(Traverse(t.nodes, Some(t.root), order, []))[x] == if x < |t.nodes| then 1 else 0 {
      OrderOfOccurrences(0, t.height, order, x);
      OccurrencesAreMultiplicity(OrderOf(0, t.height, order), x);
    }
  }

  /** `traverse(root, "pre")` lists the nodes in the order `build_tree` created them. */
  lemma PreOrderIsCreationOrder<T>(t: BinaryTree<T>)
    requires t.Valid()
    ensures WellFormed(t.nodes)
    ensures Traverse(t.nodes, Some(t.root), Pre, []) == Range(0, |t.nodes|)
  {
    PerfectWellFormed(t.nodes, t.height);
    TraverseOfPerfect(t.nodes, 0, t.height, Pre);
    PreOrderIsRange(0, t.height, |t.nodes|);
  }

  /** Depth k of `levels` started at the root of a perfect tree at position 0: present exactly when k <= h, and LevelNodes(0, h, k). */
  lemma LevelOfPerfect<T>(a: Arena<T>, h: nat, k: nat)
    requires WellFormed(a) && PerfectAt(a, 0, h)
    ensures var r := Levels(a, Some(0), 0, map[]);
      && (k in r <==> k <= h)
      && (k <= h ==> r[k] == LevelNodes(0, h, k) && |r[k]| == Pow2(k))
  {
    var r := Levels(a, Some(0), 0, map[]);
    LevelsOfPerfectKeys(a, 0, h, 0, map[], k);
    if k <= h {
      LevelsOfPerfect(a, 0, h, 0, map[], k);
      LevelSegmentIsLevel(0, h, 0, k, k);
      LevelNodesLength(0, h, k);
      assert Get(r, k) == r[k];
      assert Get(map[], k) + LevelSegment(0, h, 0, k) == LevelSegment(0, h, 0, k);
    }
  }

  /**
   * `levels(root)` has keys exactly 0 .. height; depth k holds the 2^k nodes
   * LevelNodes(0, height, k), the root alone at depth 0.
   */
  lemma LevelsOfTree<T>(t: BinaryTree<T>)
    requires t.Valid()
    ensures WellFormed(t.nodes)
    ensures var r := Levels(t.nodes, Some(t.root), 0, map[]);
      && (forall k: nat :: k in r <==> k <= t.height)
      && r[0] == [t.root]
      && forall k :: k in r ==> r[k] == LevelNodes(0, t.height, k) && |r[k]| == Pow2(k)
  {
    PerfectWellFormed(t.nodes, t.height);
    forall k: nat {
      LevelOfPerfect(t.nodes, t.height, k);
    }
    assert LevelNodes(0, t.height, 0) == [t.root];
  }

  /**
   * Every node of the tree is listed by `levels(root)` exactly once: at its own
   * depth and offset, and nowhere else.
   */
  lemma LevelsListEachNodeOnce<T>(t: BinaryTree<T>, x: nat, k: nat, o: nat)
    requires t.Valid() && x < |t.nodes|
    ensures WellFormed(t.nodes)
    ensures var r := Levels(t.nodes, Some(t.root), 0, map[]);
      && Position(0, t.height, x).0 in r
      && Position(0, t.height, x).1 < |r[Position(0, t.height, x).0]|
      && r[Position(0, t.height, x).0][Position(0, t.height, x).1] == x
      && (k in r && o < |r[k]| && r[k][o] == x ==> (k, o) == Position(0, t.height, x))
  {
    PerfectWellFormed(t.nodes, t.height);
    var (d, p) := Position(0, t.height, x);
    LevelOfPerfect(t.nodes, t.height, d);
    LevelOfPerfect(t.nodes, t.height, k);
    NodeAtPosition(0, t.height, x);
    LevelNodesAt(0, t.height, d, p);
    if k <= t.height && o < Pow2(k) {
      LevelNodesAt(0, t.height, k, o);
      PositionOfNodeAt(0, t.height, k, o);
    }
  }

  /** Depth k + 1 of `levels(root)` lists the children of depth k, from left to right; depth `height` holds the leaves. */
  lemma LevelsChildren<T>(t: BinaryTree<T>, k: nat, o: nat)
    requires t.Valid() && k <= t.height && o < Pow2(k)
    ensures WellFormed(t.nodes)
    ensures var r := Levels(t.nodes, Some(t.root), 0, map[]);
      && k in r && o < |r[k]| && r[k][o] < |t.nodes|
      && (k < t.height ==> (k + 1 in r && 2 * o + 1 < |r[k + 1]| && t.nodes[r[k][o]].left == Some(r[k + 1][2 * o]) && t.nodes[r[k][o]].right == Some(r[k + 1][2 * o + 1])))
      && (k == t.height ==> t.nodes[r[k][o]].left.None? && t.nodes[r[k][o]].right.None?)
  {
    PerfectWellFormed(t.nodes, t.height);
    LevelOfPerfect(t.nodes, t.height, k);
    LevelNodesAt(0, t.height, k, o);
    if k < t.height {
      LevelOfPerfect(t.nodes, t.height, k + 1);
      NodeAtChildren(t.nodes, 0, t.height, k, o);
      LevelNodesAt(0, t.height, k + 1, 2 * o);
      LevelNodesAt(0, t.height, k + 1, 2 * o + 1);
    } else {
      NodeAtLeaf(t.nodes, 0, t.height, o);
    }
  }

  /** `BinaryTree(2)`: the four grandchildren of the root exist and are leaves. */
  lemma HeightTwoShape<T>(t: BinaryTree<T>)
    requires t.Valid() && t.height == 2
    ensures |t.nodes| == 7
    ensures t.nodes[0].left == Some(1) && t.nodes[0].right == Some(4)
    ensures t.nodes[1].left == Some(2) && t.nodes[1].right == Some(3)
    ensures t.nodes[4].left == Some(5) && t.nodes[4].right == Some(6)
    ensures forall x :: x in {2, 3, 5, 6} ==> t.nodes[x].left.None? && t.nodes[x].right.None?
  {
    assert Pow2(2) == 4 && Pow2(1) == 2;
    assert PerfectAt(t.nodes, 1, 1) && PerfectAt(t.nodes, 4, 1);
  }
}
