/**
 * The layout of a perfect binary tree whose nodes are numbered in the order
 * `build_tree` in `sports_reference/_binary_tree.py` creates them: a node, then
 * its left subtree, then its right subtree. The subtree rooted at position i
 * with height h occupies the Count(h) positions from i on; its left child is at
 * i + 1 and its right child at i + 1 + Count(h - 1). Everything here is about
 * positions alone; BinaryTrees ties it to the links of an arena.
 */
module Layout {
  import opened Powers

  /** Traversal order of `traverse`: "pre", "in" (Python's default) or "post". */
  datatype Order = Pre | In | Post

  /** Positions lo .. hi - 1 in increasing order. */
  function Range(lo: nat, hi: nat): (r: seq<nat>)
    requires lo <= hi
  {
    seq(hi - lo, k requires 0 <= k < hi - lo => lo + k)
  }

  lemma RangeSplit(lo: nat, mid: nat, hi: nat)
    requires lo <= mid <= hi
    ensures Range(lo, mid) + Range(mid, hi) == Range(lo, hi)
  {
    assert forall k :: 0 <= k < hi - lo ==> (Range(lo, mid) + Range(mid, hi))[k] == Range(lo, hi)[k];
  }

  /** A node placed before ("pre"), between ("in") or after ("post") the listings of its two subtrees. */
  function Placed(order: Order, x: nat, left: seq<nat>, right: seq<nat>): seq<nat> {
    match order
    case Pre => [x] + left + right
    case In => left + [x] + right
    case Post => left + right + [x]
  }

  /**
   * The listing of the perfect subtree at position i with height h in the given
   * order, computed from the layout alone.
   */
  function OrderOf(i: nat, h: nat, order: Order): seq<nat>
    decreases h
  {
    if h == 0 then [i]
    else Placed(order, i, OrderOf(i + 1, h - 1, order), OrderOf(i + 1 + Count(h - 1), h - 1, order))
  }

  /** In pre-order the subtree at i .. e - 1 is listed in the order `build_tree` created its nodes. */
  lemma {:induction false} PreOrderIsRange(i: nat, h: nat, e: nat)
    requires e == i + Count(h)
    ensures OrderOf(i, h, Pre) == Range(i, e)
    decreases h
  {
    if h == 0 {
      assert Range(i, i + 1) == [i];
    } else {
      var r := i + 1 + Count(h - 1);
      PreOrderIsRange(i + 1, h - 1, r);
      PreOrderIsRange(r, h - 1, e);
      RangeSplit(i + 1, r, e);
      RangeSplit(i, i + 1, e);
      assert Range(i, i + 1) == [i];
    }
  }

  /** A perfect subtree of height h is listed in Count(h) entries, whatever the order. */
  lemma {:induction false} OrderOfLength(i: nat, h: nat, order: Order)
    ensures |OrderOf(i, h, order)| == Count(h)
    decreases h
  {
    if h > 0 {
      OrderOfLength(i + 1, h - 1, order);
      OrderOfLength(i + 1 + Count(h - 1), h - 1, order);
    }
  }

  /** Number of occurrences of x in s, counted from the back. */
  function Occurrences(s: seq<nat>, x: nat): nat {
    if s == [] then 0 else Occurrences(s[..|s| - 1], x) + (if s[|s| - 1] == x then 1 else 0)
  }

  lemma {:induction false} OccurrencesAppend(s: seq<nat>, t: seq<nat>, x: nat)
    ensures Occurrences(s + t, x) == Occurrences(s, x) + Occurrences(t, x)
    decreases |t|
  {
    if t != [] {
      assert (s + t)[..|s + t| - 1] == s + t[..|t| - 1];
      OccurrencesAppend(s, t[..|t| - 1], x);
    } else {
      assert s + t == s;
    }
  }

  /** Occurrences is the multiplicity of the sequence's multiset. */
  lemma {:induction false} OccurrencesAreMultiplicity(s: seq<nat>, x: nat)
    ensures Occurrences(s, x) == multiset(s)[x]
    decreases |s|
  {
    if s != [] {
      OccurrencesAreMultiplicity(s[..|s| - 1], x);
      assert s == s[..|s| - 1] + [s[|s| - 1]];
    }
  }

  /** Wherever the node is placed, it occurs once besides the occurrences in the two subtree listings. */
  lemma OccurrencesPlaced(order: Order, y: nat, left: seq<nat>, right: seq<nat>, x: nat)
    ensures Occurrences(Placed(order, y, left, right), x) ==
      (if x == y then 1 else 0) + Occurrences(left, x) + Occurrences(right, x)
  {
    assert Occurrences([y], x) == if x == y then 1 else 0 by {
      assert [y][..0] == [];
    }
    match order
    case Pre =>
      OccurrencesAppend([y], left, x);
      OccurrencesAppend([y] + left, right, x);
    case In =>
      OccurrencesAppend(left, [y], x);
      OccurrencesAppend(left + [y], right, x);
    case Post =>
      OccurrencesAppend(left, right, x);
      OccurrencesAppend(left + right, [y], x);
  }

  /** 1 when x is among the n positions from lo on, 0 otherwise. */
  function Indicator(lo: nat, n: nat, x: nat): nat {
    if lo <= x < lo + n then 1 else 0
  }

  /** A block of 2c + 1 positions is its first position followed by two blocks of c. */
  lemma IndicatorSplit(i: nat, c: nat, n: nat, x: nat, t: nat, u: nat, v: nat)
    requires n == 2 * c + 1 && t == (if x == i then 1 else 0) + u + v
    requires u == Indicator(i + 1, c, x) && v == Indicator(i + 1 + c, c, x)
    ensures t == Indicator(i, n, x)
  {
  }

  lemma OrderOfLeafOccurrences(i: nat, order: Order, x: nat)
    ensures Occurrences(OrderOf(i, 0, order), x) == Indicator(i, Count(0), x)
  {
    assert OrderOf(i, 0, order) == [i];
    assert [i][..0] == [];
  }

  /** In every order each node of the subtree at i .. i + Count(h) - 1 is listed exactly once, and no other position is. */
  lemma {:induction false} OrderOfOccurrences(i: nat, h: nat, order: Order, x: nat)
    ensures Occurrences(OrderOf(i, h, order), x) == Indicator(i, Count(h), x)
    decreases h
  {
    if h == 0 {
      OrderOfLeafOccurrences(i, order, x);
    } else {
      OrderOfOccurrences(i + 1, h - 1, order, x);
      OrderOfOccurrences(i + 1 + Count(h - 1), h - 1, order, x);
      OccurrencesPlaced(order, i, OrderOf(i + 1, h - 1, order), OrderOf(i + 1 + Count(h - 1), h - 1, order), x);
      IndicatorSplit(i, Count(h - 1), Count(h), x, Occurrences(OrderOf(i, h, order), x),
        Occurrences(OrderOf(i + 1, h - 1, order), x), Occurrences(OrderOf(i + 1 + Count(h - 1), h - 1, order), x));
    }
  }

  // ---------------------------------------------------------------------------
  // Depths and offsets

  /**
   * The nodes at depth k of the perfect subtree at position i with height h,
   * from left to right: the root alone at depth 0, and below it the left
   * subtree's nodes of that depth followed by the right subtree's.
   */
  function LevelNodes(i: nat, h: nat, k: nat): seq<nat>
    requires k <= h
    decreases k
  {
    if k == 0 then [i]
    else LevelNodes(i + 1, h - 1, k - 1) + LevelNodes(i + 1 + Count(h - 1), h - 1, k - 1)
  }

  /** Depth k of a perfect subtree holds 2^k nodes. */
  lemma {:induction false} LevelNodesLength(i: nat, h: nat, k: nat)
    requires k <= h
    ensures |LevelNodes(i, h, k)| == Pow2(k)
    decreases k
  {
    if k > 0 {
      LevelNodesLength(i + 1, h - 1, k - 1);
      LevelNodesLength(i + 1 + Count(h - 1), h - 1, k - 1);
    }
  }

  /** What a perfect subtree at i of height h, started at depth d, adds to depth k. */
  function LevelSegment(i: nat, h: nat, d: nat, k: nat): seq<nat>
    decreases h
  {
    if k < d || d + h < k then []
    else if k == d then [i]
    else LevelSegment(i + 1, h - 1, d + 1, k) + LevelSegment(i + 1 + Count(h - 1), h - 1, d + 1, k)
  }

  /** Started at depth d, the subtree adds to depth k = d + j its j-th level. */
  lemma {:induction false} LevelSegmentIsLevel(i: nat, h: nat, d: nat, k: nat, j: nat)
    requires k == d + j && j <= h
    ensures LevelSegment(i, h, d, k) == LevelNodes(i, h, j)
    decreases h
  {
    if j > 0 {
      var l, r := i + 1, i + 1 + Count(h - 1);
      LevelSegmentIsLevel(l, h - 1, d + 1, k, j - 1);
      LevelSegmentIsLevel(r, h - 1, d + 1, k, j - 1);
      LevelSegmentStep(i, h, d, k, l, r, j);
    }
  }

  /** Below its first depth a segment and a level both split into the two subtrees' ones. */
  lemma LevelSegmentStep(i: nat, h: nat, d: nat, k: nat, l: nat, r: nat, j: nat)
    requires 0 < j <= h && k == d + j && l == i + 1 && r == i + 1 + Count(h - 1)
    ensures LevelSegment(i, h, d, k) == LevelSegment(l, h - 1, d + 1, k) + LevelSegment(r, h - 1, d + 1, k)
    ensures LevelNodes(i, h, j) == LevelNodes(l, h - 1, j - 1) + LevelNodes(r, h - 1, j - 1)
  {
  }

  /** Below a root at depth d, with children l and r, depth k gets the root (when k = d) and then the two subtrees' segments. */
  lemma LevelSegmentSplit(i: nat, h: nat, d: nat, k: nat, l: nat, r: nat)
    requires h > 0 && l == i + 1 && r == i + 1 + Count(h - 1)
    ensures LevelSegment(i, h, d, k) == (if k == d then [i] else []) + LevelSegment(l, h - 1, d + 1, k) + LevelSegment(r, h - 1, d + 1, k)
  {
  }

  /**
   * The node at offset o (counted from the left) of depth k of the perfect
   * subtree at position i with height h: offsets below 2^(k-1) lie in the
   * left subtree, the others in the right one.
   */
  function NodeAt(i: nat, h: nat, k: nat, o: nat): (x: nat)
    requires k <= h && o < Pow2(k)
    ensures i <= x < i + Count(h)
    decreases k
  {
    if k == 0 then i
    else if o < Pow2(k - 1) then NodeAt(i + 1, h - 1, k - 1, o)
    else NodeAt(i + 1 + Count(h - 1), h - 1, k - 1, o - Pow2(k - 1))
  }

  /** Offsets below 2^(k-1) lie in the left subtree, at l ... */
  lemma NodeAtInLeft(i: nat, h: nat, k: nat, o: nat, l: nat)
    requires 0 < k <= h && o < Pow2(k - 1) && l == i + 1
    ensures NodeAt(i, h, k, o) == NodeAt(l, h - 1, k - 1, o)
  {
  }

  /** ... the others in the right one, at r, with offset p = o - 2^(k-1). */
  lemma NodeAtInRight(i: nat, h: nat, k: nat, o: nat, r: nat, p: nat)
    requires 0 < k <= h && Pow2(k - 1) <= o < Pow2(k) && r == i + 1 + Count(h - 1) && p == o - Pow2(k - 1)
    ensures NodeAt(i, h, k, o) == NodeAt(r, h - 1, k - 1, p)
  {
  }

  /** Entry o of LevelNodes(i, h, k) is NodeAt(i, h, k, o). */
  lemma {:induction false} LevelNodesAt(i: nat, h: nat, k: nat, o: nat)
    requires k <= h && o < Pow2(k)
    ensures |LevelNodes(i, h, k)| == Pow2(k)
    ensures LevelNodes(i, h, k)[o] == NodeAt(i, h, k, o)
    decreases k
  {
    LevelNodesLength(i, h, k);
    if k > 0 {
      var half := Pow2(k - 1);
      var l, r := i + 1, i + 1 + Count(h - 1);
      assert LevelNodes(i, h, k) == LevelNodes(l, h - 1, k - 1) + LevelNodes(r, h - 1, k - 1);
      if o < half {
        LevelNodesAt(l, h - 1, k - 1, o);
      } else {
        LevelNodesAt(r, h - 1, k - 1, o - half);
      }
    }
  }

  /**
   * Offsets 2o and 2o + 1 of depth j = k + 1 are the positions of the two
   * children of the node at offset o of depth k, whose subtree has height h - k.
   */
  lemma {:induction false} NodeAtNext(i: nat, h: nat, k: nat, o: nat, j: nat)
    requires j == k + 1 && k < h && o < Pow2(k)
    ensures 2 * o + 1 < Pow2(j)
    ensures NodeAt(i, h, j, 2 * o) == NodeAt(i, h, k, o) + 1
    ensures NodeAt(i, h, j, 2 * o + 1) == NodeAt(i, h, k, o) + 1 + Count(h - j)
    decreases k, 1
  {
    Pow2Next(k, j);
    if k == 0 {
      assert NodeAt(i, h, 1, 0) == NodeAt(i + 1, h - 1, 0, 0);
      assert NodeAt(i, h, 1, 1) == NodeAt(i + 1 + Count(h - 1), h - 1, 0, 0);
    } else if o < Pow2(k - 1) {
      NodeAtNextInLeft(i, h, k, o, j);
    } else {
      NodeAtNextInRight(i, h, k, o, j);
    }
  }

  /** The case of NodeAtNext in the left subtree ... */
  lemma {:induction false} NodeAtNextInLeft(i: nat, h: nat, k: nat, o: nat, j: nat)
    requires j == k + 1 && 0 < k < h && o < Pow2(k - 1)
    ensures NodeAt(i, h, j, 2 * o) == NodeAt(i, h, k, o) + 1
    ensures NodeAt(i, h, j, 2 * o + 1) == NodeAt(i, h, k, o) + 1 + Count(h - j)
    decreases k, 0
  {
    NodeAtNext(i + 1, h - 1, k - 1, o, k);
    NodeAtNextLeft(i, h, k, o, j, i + 1);
  }

  /** ... and in the right one. */
  lemma {:induction false} NodeAtNextInRight(i: nat, h: nat, k: nat, o: nat, j: nat)
    requires j == k + 1 && 0 < k < h && Pow2(k - 1) <= o < Pow2(k)
    ensures NodeAt(i, h, j, 2 * o) == NodeAt(i, h, k, o) + 1
    ensures NodeAt(i, h, j, 2 * o + 1) == NodeAt(i, h, k, o) + 1 + Count(h - j)
    decreases k, 0
  {
    var r, p := i + 1 + Count(h - 1), o - Pow2(k - 1);
    NodeAtNext(r, h - 1, k - 1, p, k);
    NodeAtNextRight(i, h, k, o, j, r, p);
  }

  /** The step of NodeAtNext into the left subtree at l ... */
  lemma NodeAtNextLeft(i: nat, h: nat, k: nat, o: nat, j: nat, l: nat)
    requires 0 < k < h && j == k + 1 && o < Pow2(k - 1) && l == i + 1
    requires NodeAt(l, h - 1, k, 2 * o) == NodeAt(l, h - 1, k - 1, o) + 1
    requires NodeAt(l, h - 1, k, 2 * o + 1) == NodeAt(l, h - 1, k - 1, o) + 1 + Count(h - 1 - k)
    ensures NodeAt(i, h, j, 2 * o) == NodeAt(i, h, k, o) + 1
    ensures NodeAt(i, h, j, 2 * o + 1) == NodeAt(i, h, k, o) + 1 + Count(h - j)
  {
    assert NodeAt(i, h, k, o) == NodeAt(l, h - 1, k - 1, o);
    assert NodeAt(i, h, j, 2 * o) == NodeAt(l, h - 1, k, 2 * o);
    assert NodeAt(i, h, j, 2 * o + 1) == NodeAt(l, h - 1, k, 2 * o + 1);
  }

  /** ... and into the right subtree at r, at offset p = o - 2^(k-1). */
  lemma NodeAtNextRight(i: nat, h: nat, k: nat, o: nat, j: nat, r: nat, p: nat)
    requires 0 < k < h && j == k + 1 && Pow2(k - 1) <= o < Pow2(k) && r == i + 1 + Count(h - 1) && p == o - Pow2(k - 1)
    requires 2 * p + 1 < Pow2(k)
    requires NodeAt(r, h - 1, k, 2 * p) == NodeAt(r, h - 1, k - 1, p) + 1
    requires NodeAt(r, h - 1, k, 2 * p + 1) == NodeAt(r, h - 1, k - 1, p) + 1 + Count(h - 1 - k)
    ensures NodeAt(i, h, j, 2 * o) == NodeAt(i, h, k, o) + 1
    ensures NodeAt(i, h, j, 2 * o + 1) == NodeAt(i, h, k, o) + 1 + Count(h - j)
  {
    Pow2Next(k, j);
    assert NodeAt(i, h, k, o) == NodeAt(r, h - 1, k - 1, p);
    assert NodeAt(i, h, j, 2 * o) == NodeAt(r, h - 1, k, 2 * p);
    assert NodeAt(i, h, j, 2 * o + 1) == NodeAt(r, h - 1, k, 2 * p + 1);
  }

  /** Depth and left-to-right offset of position x inside the perfect subtree at i of height h. */
  function Position(i: nat, h: nat, x: nat): (p: (nat, nat))
    requires i <= x < i + Count(h)
    ensures p.0 <= h && p.1 < Pow2(p.0)
    decreases h
  {
    if x == i || h == 0 then (0, 0)
    else if x < i + 1 + Count(h - 1) then
      var (d, o) := Position(i + 1, h - 1, x);
      (d + 1, o)
    else
      var (d, o) := Position(i + 1 + Count(h - 1), h - 1, x);
      (d + 1, Pow2(d) + o)
  }

  /** One level of Position inside the left subtree ... */
  lemma PositionLeft(i: nat, h: nat, x: nat, k: nat, o: nat)
    requires h > 0 && k > 0 && i < x < i + 1 + Count(h - 1)
    requires Position(i + 1, h - 1, x) == (k - 1, o)
    ensures Position(i, h, x) == (k, o)
  {
  }

  /** ... and inside the right subtree. */
  lemma PositionRight(i: nat, h: nat, x: nat, k: nat, o: nat)
    requires h > 0 && k > 0 && i + 1 + Count(h - 1) <= x < i + Count(h) && Pow2(k - 1) <= o
    requires Position(i + 1 + Count(h - 1), h - 1, x) == (k - 1, o - Pow2(k - 1))
    ensures Position(i, h, x) == (k, o)
  {
  }

  /** The node at offset o of depth k sits at depth k and offset o ... */
  lemma {:induction false} PositionOfNodeAt(i: nat, h: nat, k: nat, o: nat)
    requires k <= h && o < Pow2(k)
    ensures Position(i, h, NodeAt(i, h, k, o)) == (k, o)
    decreases k, 1
  {
    if k == 0 {
      assert NodeAt(i, h, k, o) == i;
    } else if o < Pow2(k - 1) {
      PositionOfNodeAtInLeft(i, h, k, o);
    } else {
      PositionOfNodeAtInRight(i, h, k, o);
    }
  }

  /** The case of PositionOfNodeAt in the left subtree ... */
  lemma {:induction false} PositionOfNodeAtInLeft(i: nat, h: nat, k: nat, o: nat)
    requires 0 < k <= h && o < Pow2(k - 1)
    ensures Position(i, h, NodeAt(i, h, k, o)) == (k, o)
    decreases k, 0
  {
    var l := i + 1;
    PositionOfNodeAt(l, h - 1, k - 1, o);
    PositionOfNodeAtLeft(i, h, k, o, l);
  }

  /** ... and in the right one. */
  lemma {:induction false} PositionOfNodeAtInRight(i: nat, h: nat, k: nat, o: nat)
    requires 0 < k <= h && Pow2(k - 1) <= o < Pow2(k)
    ensures Position(i, h, NodeAt(i, h, k, o)) == (k, o)
    decreases k, 0
  {
    var r, p := i + 1 + Count(h - 1), o - Pow2(k - 1);
    PositionOfNodeAt(r, h - 1, k - 1, p);
    PositionOfNodeAtRight(i, h, k, o, r, p);
  }

  /** The step of PositionOfNodeAt into the left subtree at l ... */
  lemma PositionOfNodeAtLeft(i: nat, h: nat, k: nat, o: nat, l: nat)
    requires 0 < k <= h && o < Pow2(k - 1) && l == i + 1
    requires Position(l, h - 1, NodeAt(l, h - 1, k - 1, o)) == (k - 1, o)
    ensures Position(i, h, NodeAt(i, h, k, o)) == (k, o)
  {
    var x := NodeAt(l, h - 1, k - 1, o);
    assert NodeAt(i, h, k, o) == x;
    PositionLeft(i, h, x, k, o);
  }

  /** ... and into the right subtree at r, at offset p = o - 2^(k-1). */
  lemma PositionOfNodeAtRight(i: nat, h: nat, k: nat, o: nat, r: nat, p: nat)
    requires 0 < k <= h && Pow2(k - 1) <= o < Pow2(k) && r == i + 1 + Count(h - 1) && p == o - Pow2(k - 1)
    requires Position(r, h - 1, NodeAt(r, h - 1, k - 1, p)) == (k - 1, p)
    ensures Position(i, h, NodeAt(i, h, k, o)) == (k, o)
  {
    var x := NodeAt(r, h - 1, k - 1, p);
    assert NodeAt(i, h, k, o) == x;
    PositionRight(i, h, x, k, o);
  }

  /** ... and every node of the subtree is the node at its own depth and offset. */
  lemma {:induction false} NodeAtPosition(i: nat, h: nat, x: nat)
    requires i <= x < i + Count(h)
    ensures NodeAt(i, h, Position(i, h, x).0, Position(i, h, x).1) == x
    decreases h, 1
  {
    if x != i && h > 0 {
      if x < i + 1 + Count(h - 1) {
        NodeAtPositionInLeft(i, h, x);
      } else {
        NodeAtPositionInRight(i, h, x);
      }
    }
  }

  /** The case of NodeAtPosition in the left subtree ... */
  lemma {:induction false} NodeAtPositionInLeft(i: nat, h: nat, x: nat)
    requires h > 0 && i < x < i + 1 + Count(h - 1)
    ensures NodeAt(i, h, Position(i, h, x).0, Position(i, h, x).1) == x
    decreases h, 0
  {
    var l := i + 1;
    NodeAtPosition(l, h - 1, x);
    NodeAtPositionLeft(i, h, x, l, Position(l, h - 1, x).0, Position(l, h - 1, x).1);
  }

  /** ... and in the right one. */
  lemma {:induction false} NodeAtPositionInRight(i: nat, h: nat, x: nat)
    requires h > 0 && i + 1 + Count(h - 1) <= x < i + Count(h)
    ensures NodeAt(i, h, Position(i, h, x).0, Position(i, h, x).1) == x
    decreases h, 0
  {
    var r := i + 1 + Count(h - 1);
    NodeAtPosition(r, h - 1, x);
    NodeAtPositionRight(i, h, x, r, Position(r, h - 1, x).0, Position(r, h - 1, x).1);
  }

  /** The step of NodeAtPosition into the left subtree at l, where x has depth k and offset o ... */
  lemma NodeAtPositionLeft(i: nat, h: nat, x: nat, l: nat, k: nat, o: nat)
    requires h > 0 && l == i + 1 && i < x < l + Count(h - 1)
    requires Position(l, h - 1, x) == (k, o) && k <= h - 1 && o < Pow2(k) && NodeAt(l, h - 1, k, o) == x
    ensures NodeAt(i, h, Position(i, h, x).0, Position(i, h, x).1) == x
  {
    PositionLeft(i, h, x, k + 1, o);
    assert NodeAt(i, h, k + 1, o) == NodeAt(l, h - 1, k, o);
  }

  /** ... and into the right subtree at r, where x has depth k and offset p. */
  lemma NodeAtPositionRight(i: nat, h: nat, x: nat, r: nat, k: nat, p: nat)
    requires h > 0 && r == i + 1 + Count(h - 1) && r <= x < i + Count(h)
    requires Position(r, h - 1, x) == (k, p) && k <= h - 1 && p < Pow2(k) && NodeAt(r, h - 1, k, p) == x
    ensures NodeAt(i, h, Position(i, h, x).0, Position(i, h, x).1) == x
  {
    Pow2Next(k, k + 1);
    PositionRight(i, h, x, k + 1, Pow2(k) + p);
    assert NodeAt(i, h, k + 1, Pow2(k) + p) == NodeAt(r, h - 1, k, p);
  }

  /** Distinct depth-offset pairs name distinct nodes. */
  lemma NodeAtInjective(i: nat, h: nat, k: nat, o: nat, k': nat, o': nat)
    requires k <= h && o < Pow2(k) && k' <= h && o' < Pow2(k')
    requires NodeAt(i, h, k, o) == NodeAt(i, h, k', o')
    ensures k == k' && o == o'
  {
    PositionOfNodeAt(i, h, k, o);
    PositionOfNodeAt(i, h, k', o');
  }
}
