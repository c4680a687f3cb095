/**
 * `BracketSort` of `sports_reference/_binary_tree.py`: a selection sort whose
 * comparison alternates with the index's parity, and a sort that repeatedly
 * selection-sorts groups of elements and joins adjacent groups.
 *
 * Elements are compared with a strict order `lt`, Python's `<` on them; `>` is
 * taken to be `<` with its operands swapped. Groups are Python lists, which
 * compare lexicographically (Orders.LexLess).
 */
module BracketSort {
  import opened Wrappers
  import opened Powers
  import opened Orders

  // ---------------------------------------------------------------------------
  // One pass of selection_sort

  /** The comparison selection_sort uses at index i: `<` at an even index, `>` at an odd one. */
  predicate Better<E>(lt: (E, E) -> bool, i: nat, x: E, y: E) {
    if i % 2 == 0 then lt(x, y) else lt(y, x)
  }

  /**
   * The inner loop of pass i from position j on, where `index` is the best
   * position seen so far: a later value replaces it only when strictly better.
   */
  function ScanFrom<E>(lt: (E, E) -> bool, s: seq<E>, i: nat, j: nat, index: nat): (r: nat)
    requires index < |s| && j <= |s|
    ensures r == index || j <= r < |s|
    decreases |s| - j
  {
    if j == |s| then index
    else ScanFrom(lt, s, i, j + 1, if Better(lt, i, s[j], s[index]) then j else index)
  }

  /** The position pass i swaps into index i. The scan starts at i with no candidate, so i is taken first. */
  function Select<E>(lt: (E, E) -> bool, s: seq<E>, i: nat): (m: nat)
    requires i < |s|
    ensures i <= m < |s|
  {
    ScanFrom(lt, s, i, i + 1, i)
  }

  /**
   * m is the first position of i .. e - 1 holding a best value of s[i..e]: no
   * value there is better than s[m], and s[m] is better than every value before it.
   */
  ghost predicate FirstBest<E>(lt: (E, E) -> bool, s: seq<E>, i: nat, e: nat, m: nat) {
    && i <= m < e <= |s|
    && (forall j :: i <= j < e ==> !Better(lt, i, s[j], s[m]))
    && (forall j :: i <= j < m ==> Better(lt, i, s[m], s[j]))
  }

  /** A range has at most one first best position. */
  lemma FirstBestUnique<E>(lt: (E, E) -> bool, s: seq<E>, i: nat, e: nat, m: nat, n: nat)
    requires FirstBest(lt, s, i, e, m) && FirstBest(lt, s, i, e, n)
    ensures m == n
  {
    assert !Better(lt, i, s[n], s[m]) && !Better(lt, i, s[m], s[n]);
  }

  lemma {:induction false} ScanFromFindsFirstBest<E(!new)>(lt: (E, E) -> bool, s: seq<E>, i: nat, j: nat, index: nat)
    requires StrictTotalOrder(lt) && FirstBest(lt, s, i, j, index)
    ensures FirstBest(lt, s, i, |s|, ScanFrom(lt, s, i, j, index))
    decreases |s| - j
  {
    if j < |s| {
      var next := if Better(lt, i, s[j], s[index]) then j else index;
      assert FirstBest(lt, s, i, j + 1, next) by {
        if next == j {
          forall k | i <= k < j ensures Better(lt, i, s[j], s[k]) && !Better(lt, i, s[k], s[j]) {
            if k != index {
              assert Better(lt, i, s[index], s[k]) || !Better(lt, i, s[k], s[index]);
            }
          }
        }
      }
      ScanFromFindsFirstBest(lt, s, i, j + 1, next);
    }
  }

  /**
   * Pass i selects the first best value of s[i..]: the smallest at an even i,
   * the largest at an odd i, the earliest of equals since the comparisons are
   * strict; and no other position has that property.
   */
  lemma SelectIsFirstBest<E(!new)>(lt: (E, E) -> bool, s: seq<E>, i: nat)
    requires StrictTotalOrder(lt) && i < |s|
    ensures FirstBest(lt, s, i, |s|, Select(lt, s, i))
    ensures forall m :: FirstBest(lt, s, i, |s|, m) ==> m == Select(lt, s, i)
  {
    assert FirstBest(lt, s, i, i + 1, i);
    ScanFromFindsFirstBest(lt, s, i, i + 1, i);
    forall m | FirstBest(lt, s, i, |s|, m) ensures m == Select(lt, s, i) {
      FirstBestUnique(lt, s, i, |s|, m, Select(lt, s, i));
    }
  }

  /** `array[i], array[index] = array[index], array[i]`. */
  function SwapAt<E>(s: seq<E>, i: nat, m: nat): (r: seq<E>)
    requires i < |s| && m < |s|
    ensures |r| == |s| && r[i] == s[m] && r[m] == s[i]
    ensures forall k :: 0 <= k < |s| && k != i && k != m ==> r[k] == s[k]
  {
    s[i := s[m]][m := s[i]]
  }

  /** A swap keeps the elements. */
  lemma SwapPermutes<E>(s: seq<E>, i: nat, m: nat)
    requires i < |s| && m < |s|
    ensures multiset(SwapAt(s, i, m)) == multiset(s)
  {
  }

  // ---------------------------------------------------------------------------
  // selection_sort

  /** The passes of selection_sort from index i on. */
  function AltSortFrom<E>(lt: (E, E) -> bool, s: seq<E>, i: nat): seq<E>
    decreases |s| - i
  {
    if i >= |s| then s else AltSortFrom(lt, SwapAt(s, i, Select(lt, s, i)), i + 1)
  }

  /** What `selection_sort` leaves in the list. */
  function AltSort<E>(lt: (E, E) -> bool, s: seq<E>): seq<E> {
    AltSortFrom(lt, s, 0)
  }

  /** `selection_sort(array)`: sorts the array in place and returns that same array. */
  method SelectionSort<E>(a: array<E>, lt: (E, E) -> bool) returns (r: array<E>)
    modifies a
    ensures r == a && a[..] == AltSort(lt, old(a[..]))
  {
    var i := 0;
    while i < a.Length
      invariant 0 <= i <= a.Length
      invariant AltSortFrom(lt, a[..], i) == AltSort(lt, old(a[..]))
    {
      ghost var s := a[..];
      // the inner loop's first step, at j == i, finds no candidate and takes i
      var index := i;
      var j := i + 1;
      while j < a.Length
        invariant i < j <= a.Length && i <= index < j
        invariant a[..] == s
        invariant ScanFrom(lt, s, i, j, index) == Select(lt, s, i)
      {
        if Better(lt, i, a[j], a[index]) {
          index := j;
        }
        j := j + 1;
      }
      var t := a[i];
      a[i] := a[index];
      a[index] := t;
      assert a[..] == SwapAt(s, i, index);
      i := i + 1;
    }
    r := a;
  }

  lemma {:induction false} AltSortFromPermutes<E>(lt: (E, E) -> bool, s: seq<E>, i: nat)
    ensures |AltSortFrom(lt, s, i)| == |s|
    ensures multiset(AltSortFrom(lt, s, i)) == multiset(s)
    decreases |s| - i
  {
    if i < |s| {
      var m := Select(lt, s, i);
      SwapPermutes(s, i, m);
      AltSortFromPermutes(lt, SwapAt(s, i, m), i + 1);
    }
  }

  /** selection_sort only rearranges the list. */
  lemma AltSortPermutes<E>(lt: (E, E) -> bool, s: seq<E>)
    ensures |AltSort(lt, s)| == |s|
    ensures multiset(AltSort(lt, s)) == multiset(s)
  {
    AltSortFromPermutes(lt, s, 0);
  }

  /** Every index k < i holds a best value of s[k..] under the comparison of index k. */
  ghost predicate AlternatingUpTo<E>(lt: (E, E) -> bool, s: seq<E>, i: nat) {
    forall k, j :: 0 <= k < i && k < j < |s| ==> !Better(lt, k, s[j], s[k])
  }

  /**
   * Each even index holds a value no greater than any after it, and each odd
   * index one no smaller than any after it.
   */
  ghost predicate Alternating<E>(lt: (E, E) -> bool, s: seq<E>) {
    AlternatingUpTo(lt, s, |s|)
  }

  /** Pass i fixes index i and keeps what the earlier passes established. */
  lemma AlternatingStep<E(!new)>(lt: (E, E) -> bool, s: seq<E>, i: nat)
    requires StrictTotalOrder(lt) && i < |s| && AlternatingUpTo(lt, s, i)
    ensures AlternatingUpTo(lt, SwapAt(s, i, Select(lt, s, i)), i + 1)
  {
    var m := Select(lt, s, i);
    var t := SwapAt(s, i, m);
    SelectIsFirstBest(lt, s, i);
    forall k, j | 0 <= k < i + 1 && k < j < |t| ensures !Better(lt, k, t[j], t[k]) {
      var j' := if j == i then m else if j == m then i else j;
      assert t[j] == s[j'] && k <= j' && (k < i ==> k < j');
    }
  }

  lemma {:induction false} AltSortFromAlternates<E(!new)>(lt: (E, E) -> bool, s: seq<E>, i: nat)
    requires StrictTotalOrder(lt) && AlternatingUpTo(lt, s, i)
    ensures Alternating(lt, AltSortFrom(lt, s, i))
    decreases |s| - i
  {
    if i < |s| {
      AlternatingStep(lt, s, i);
      AltSortFromAlternates(lt, SwapAt(s, i, Select(lt, s, i)), i + 1);
    } else {
      assert AlternatingUpTo(lt, s, |s|);
    }
  }

  /** After selection_sort the list alternates between minima and maxima of what remains. */
  lemma AltSortAlternates<E(!new)>(lt: (E, E) -> bool, s: seq<E>)
    requires StrictTotalOrder(lt)
    ensures Alternating(lt, AltSort(lt, s))
  {
    AltSortFromAlternates(lt, s, 0);
  }

  // ---------------------------------------------------------------------------
  // height

  /** `height(array)`: the h with `1 << h == len(array)`, or ValueError. */
  method Height<E>(items: seq<E>) returns (r: Result<nat>)
    ensures r.Ok? <==> IsPowerOfTwo(|items|)
    ensures r.Ok? ==> Pow2(r.value) == |items|
    ensures r.Err? ==> r.error == ValueError
  {
    if |items| == 0 {
      assert forall h: nat :: Pow2(h) != 0;
      return Err(ValueError);
    }
    var height: nat := 0;
    while true
      invariant forall h: nat :: h < height ==> Pow2(h) < |items|
      decreases |items| - Pow2(height)
    {
      if Pow2(height) == |items| {
        return Ok(height);
      }
      if Pow2(height) > |items| {
        forall h: nat ensures Pow2(h) != |items| {
          if height < h {
            Pow2Monotone(height, h);
          }
        }
        return Err(ValueError);
      }
      height := height + 1;
    }
  }

  // ---------------------------------------------------------------------------
  // sort

  /** The concatenation of a list of groups. */
  function Flatten<T>(g: seq<seq<T>>): seq<T> {
    if |g| == 0 then [] else g[0] + Flatten(g[1..])
  }

  /** `[[x] for x in array]`. */
  function Singletons<T>(s: seq<T>): seq<seq<T>> {
    seq(|s|, k requires 0 <= k < |s| => [s[k]])
  }

  /** `[[*a, *b] for a, b in zip(inorder[::2], inorder[1::2])]`: adjacent groups joined in order; an odd last group is dropped. */
  function Pairs<T>(g: seq<seq<T>>): (p: seq<seq<T>>)
    ensures |p| == |g| / 2
    ensures forall k :: 0 <= k < |p| ==> p[k] == g[2 * k] + g[2 * k + 1]
    decreases |g|
  {
    if |g| < 2 then [] else [g[0] + g[1]] + Pairs(g[2..])
  }

  /** One iteration of sort's loop: selection_sort the groups, then join adjacent pairs. */
  function Round<T(==)>(lt: (T, T) -> bool, g: seq<seq<T>>): seq<seq<T>> {
    Pairs(AltSort(LexOrder(lt), g))
  }

  /** The groups after n iterations of sort's loop. */
  function Rounds<T(==)>(lt: (T, T) -> bool, g: seq<seq<T>>, n: nat): seq<seq<T>>
    decreases n
  {
    if n == 0 then g else Round(lt, Rounds(lt, g, n - 1))
  }

  /** Every group has w elements. */
  ghost predicate GroupsOfSize<T>(g: seq<seq<T>>, w: nat) {
    forall x :: x in g ==> |x| == w
  }

  lemma {:induction false} FlattenAppend<T>(a: seq<seq<T>>, b: seq<seq<T>>)
    ensures Flatten(a + b) == Flatten(a) + Flatten(b)
    decreases |a|
  {
    if |a| > 0 {
      assert (a + b)[1..] == a[1..] + b;
      FlattenAppend(a[1..], b);
    } else {
      assert a + b == b;
    }
  }

  lemma FlattenAround<T>(a: seq<seq<T>>, x: seq<T>, b: seq<seq<T>>)
    ensures Flatten(a + [x] + b) == Flatten(a) + x + Flatten(b)
  {
    assert a + [x] + b == a + ([x] + b);
    FlattenAppend(a, [x] + b);
    assert ([x] + b)[1..] == b;
  }

  /** A sequence as the pieces around its positions i < m. */
  lemma Pieces<E>(g: seq<E>, i: nat, m: nat)
    requires i < m < |g|
    ensures g == g[..i] + [g[i]] + (g[i + 1..m] + [g[m]] + g[m + 1..])
  {
    assert g[m..] == [g[m]] + g[m + 1..];
    assert g[i + 1..] == g[i + 1..m] + g[m..];
    assert g[i..] == [g[i]] + g[i + 1..];
    assert g == g[..i] + g[i..];
  }

  /** The groups of g, and of g with positions i < m swapped, as the pieces around i and m. */
  lemma SwapPieces<T>(g: seq<seq<T>>, i: nat, m: nat)
    requires i < m < |g|
    ensures g == g[..i] + [g[i]] + (g[i + 1..m] + [g[m]] + g[m + 1..])
    ensures SwapAt(g, i, m) == g[..i] + [g[m]] + (g[i + 1..m] + [g[i]] + g[m + 1..])
  {
    var t := SwapAt(g, i, m);
    Pieces(g, i, m);
    Pieces(t, i, m);
    assert t[..i] == g[..i] && t[i + 1..m] == g[i + 1..m] && t[m + 1..] == g[m + 1..];
  }

  /** Swapping two groups keeps the elements. */
  lemma FlattenSwap<T>(g: seq<seq<T>>, i: nat, m: nat)
    requires i <= m < |g|
    ensures multiset(Flatten(SwapAt(g, i, m))) == multiset(Flatten(g))
  {
    if i < m {
      var a, x, b, y, c := g[..i], g[i], g[i + 1..m], g[m], g[m + 1..];
      SwapPieces(g, i, m);
      FlattenAround(a, x, b + [y] + c);
      FlattenAround(a, y, b + [x] + c);
      FlattenAround(b, y, c);
      FlattenAround(b, x, c);
    } else {
      assert SwapAt(g, i, m) == g;
    }
  }

  lemma {:induction false} FlattenAltSortFrom<T>(lt: (seq<T>, seq<T>) -> bool, g: seq<seq<T>>, i: nat)
    ensures multiset(Flatten(AltSortFrom(lt, g, i))) == multiset(Flatten(g))
    decreases |g| - i
  {
    if i < |g| {
      FlattenSwap(g, i, Select(lt, g, i));
      FlattenAltSortFrom(lt, SwapAt(g, i, Select(lt, g, i)), i + 1);
    }
  }

  lemma {:induction false} FlattenPairs<T>(g: seq<seq<T>>)
    requires |g| % 2 == 0
    ensures Flatten(Pairs(g)) == Flatten(g)
    decreases |g|
  {
    if |g| >= 2 {
      FlattenPairs(g[2..]);
      assert g[1..][1..] == g[2..];
      assert Pairs(g)[1..] == Pairs(g[2..]);
    }
  }

  lemma {:induction false} FlattenSingletons<T>(s: seq<T>)
    ensures Flatten(Singletons(s)) == s
    decreases |s|
  {
    if |s| > 0 {
      assert Singletons(s)[1..] == Singletons(s[1..]);
      FlattenSingletons(s[1..]);
    }
  }

  /** selection_sort on groups keeps their sizes and their elements. */
  lemma AltSortKeepsGroups<T>(lt: (seq<T>, seq<T>) -> bool, g: seq<seq<T>>, w: nat)
    requires GroupsOfSize(g, w)
    ensures |AltSort(lt, g)| == |g| && GroupsOfSize(AltSort(lt, g), w)
    ensures multiset(Flatten(AltSort(lt, g))) == multiset(Flatten(g))
  {
    var sorted := AltSort(lt, g);
    AltSortPermutes(lt, g);
    forall x | x in sorted ensures |x| == w {
      assert x in multiset(sorted);
    }
    FlattenAltSortFrom(lt, g, 0);
  }

  /** Joining pairs of groups of w elements gives groups of 2w elements, and keeps the elements. */
  lemma PairsOfGroups<T>(g: seq<seq<T>>, w: nat)
    requires GroupsOfSize(g, w) && |g| % 2 == 0
    ensures GroupsOfSize(Pairs(g), 2 * w)
    ensures Flatten(Pairs(g)) == Flatten(g)
  {
    var p := Pairs(g);
    forall x | x in p ensures |x| == 2 * w {
      var k :| 0 <= k < |p| && p[k] == x;
      assert g[2 * k] in g && g[2 * k + 1] in g;
    }
    FlattenPairs(g);
  }

  /**
   * A round halves the number of groups, doubles their size, and keeps the
   * elements: the groups are only reordered, then joined two by two.
   */
  lemma RoundHalves<T>(lt: (T, T) -> bool, g: seq<seq<T>>, w: nat, c: nat)
    requires |g| == 2 * c && GroupsOfSize(g, w)
    ensures |Round(lt, g)| == c && GroupsOfSize(Round(lt, g), 2 * w)
    ensures multiset(Flatten(Round(lt, g))) == multiset(Flatten(g))
  {
    AltSortKeepsGroups(LexOrder(lt), g, w);
    PairsOfGroups(AltSort(LexOrder(lt), g), w);
  }

  /**
   * Starting from 2^h groups of one element, n <= h rounds leave 2^(h-n)
   * groups of 2^n elements, holding the elements started with.
   */
  lemma {:induction false} RoundsShape<T>(lt: (T, T) -> bool, g: seq<seq<T>>, h: nat, n: nat)
    requires |g| == Pow2(h) && GroupsOfSize(g, 1) && n <= h
    ensures |Rounds(lt, g, n)| == Pow2(h - n) && GroupsOfSize(Rounds(lt, g, n), Pow2(n))
    ensures multiset(Flatten(Rounds(lt, g, n))) == multiset(Flatten(g))
    decreases n
  {
    if n > 0 {
      var before := n - 1;
      RoundsShape(lt, g, h, before);
      RoundsStep(lt, Rounds(lt, g, before), h, before, n);
    }
  }

  /** One more round on groups shaped as RoundsShape states. */
  lemma RoundsStep<T>(lt: (T, T) -> bool, prev: seq<seq<T>>, h: nat, before: nat, n: nat)
    requires n == before + 1 && n <= h
    requires |prev| == Pow2(h - before) && GroupsOfSize(prev, Pow2(before))
    ensures |Round(lt, prev)| == Pow2(h - n) && GroupsOfSize(Round(lt, prev), Pow2(n))
    ensures multiset(Flatten(Round(lt, prev))) == multiset(Flatten(prev))
  {
    Pow2Next(h - n, h - before);
    Pow2Next(before, n);
    RoundHalves(lt, prev, Pow2(before), Pow2(h - n));
  }

  /** In the first round every group is a single element, and groups compare as their elements do. */
  lemma SingletonLess<T(!new)>(lt: (T, T) -> bool, x: T, y: T)
    requires StrictTotalOrder(lt)
    ensures LexLess(lt, [x], [y]) <==> lt(x, y)
  {
    assert [x][1..] == [] && [y][1..] == [];
  }

  lemma {:induction false} ScanSingletons<T(!new)>(lt: (T, T) -> bool, s: seq<T>, i: nat, j: nat, index: nat)
    requires StrictTotalOrder(lt) && index < |s| && j <= |s|
    ensures ScanFrom(LexOrder(lt), Singletons(s), i, j, index) == ScanFrom(lt, s, i, j, index)
    decreases |s| - j
  {
    if j < |s| {
      SingletonLess(lt, s[j], s[index]);
      SingletonLess(lt, s[index], s[j]);
      var next := if Better(lt, i, s[j], s[index]) then j else index;
      ScanSingletons(lt, s, i, j + 1, next);
    }
  }

  lemma {:induction false} AltSortSingletons<T(!new)>(lt: (T, T) -> bool, s: seq<T>, i: nat)
    requires StrictTotalOrder(lt)
    ensures AltSortFrom(LexOrder(lt), Singletons(s), i) == Singletons(AltSortFrom(lt, s, i))
    decreases |s| - i
  {
    if i < |s| {
      var m := Select(lt, s, i);
      ScanSingletons(lt, s, i, i + 1, i);
      assert SwapAt(Singletons(s), i, m) == Singletons(SwapAt(s, i, m));
      AltSortSingletons(lt, SwapAt(s, i, m), i + 1);
    }
  }

  /** The first round's selection_sort orders the one-element groups exactly as selection_sort orders the elements. */
  lemma FirstRoundIsElementOrder<T(!new)>(lt: (T, T) -> bool, s: seq<T>)
    requires StrictTotalOrder(lt)
    ensures AltSort(LexOrder(lt), Singletons(s)) == Singletons(AltSort(lt, s))
  {
    AltSortSingletons(lt, s, 0);
  }

  /** What `sort` returns for a list of length 2^h: the only group left after h rounds. */
  function BracketOrder<T(==)>(lt: (T, T) -> bool, s: seq<T>, h: nat): seq<T>
    requires |s| == Pow2(h)
  {
    RoundsShape(lt, Singletons(s), h, h);
    Rounds(lt, Singletons(s), h)[0]
  }

  /** `sort` returns a rearrangement of its argument. */
  lemma BracketOrderPermutes<T>(lt: (T, T) -> bool, s: seq<T>, h: nat)
    requires |s| == Pow2(h)
    ensures |BracketOrder(lt, s, h)| == |s|
    ensures multiset(BracketOrder(lt, s, h)) == multiset(s)
  {
    var g := Singletons(s);
    RoundsShape(lt, g, h, h);
    var last := Rounds(lt, g, h);
    assert last == [last[0]];
    assert Flatten(last) == last[0] + [];
    FlattenSingletons(s);
  }

  /** After h rounds on the 2^h singletons of s, one group is left: the bracket order of s. */
  lemma SortResult<T>(lt: (T, T) -> bool, s: seq<T>, h: nat, last: seq<seq<T>>)
    requires Pow2(h) == |s| && last == Rounds(lt, Singletons(s), h)
    ensures |last| == 1
    ensures forall e: nat :: Pow2(e) == |s| ==> last[0] == BracketOrder(lt, s, e)
  {
    RoundsShape(lt, Singletons(s), h, h);
    forall e: nat | Pow2(e) == |s| ensures e == h {
      Pow2Injective(e, h);
    }
  }

  /** The body of sort's loop: selection_sort the list of groups in place, then build the list of joined pairs. */
  method PlayRound<T(==)>(lt: (T, T) -> bool, result: array<seq<T>>) returns (next: array<seq<T>>)
    modifies result
    ensures result[..] == AltSort(LexOrder(lt), old(result[..]))
    ensures fresh(next) && next[..] == Round(lt, old(result[..]))
  {
    var inorder := SelectionSort(result, LexOrder(lt));
    var joined := Pairs(inorder[..]);
    next := new seq<T>[|joined|](k requires 0 <= k < |joined| => joined[k]);
    assert next[..] == joined;
  }

  /** `sort(array)`: the bracket order of a list whose length is a power of two, or ValueError. */
  method Sort<T(==)>(lt: (T, T) -> bool, items: seq<T>) returns (r: Result<seq<T>>)
    ensures r.Ok? <==> IsPowerOfTwo(|items|)
    ensures r.Err? ==> r.error == ValueError
    ensures forall h: nat :: Pow2(h) == |items| ==> r == Ok(BracketOrder(lt, items, h))
  {
    var height := Height(items);
    if height.Err? {
      return Err(height.error);
    }
    var result := new seq<T>[|items|](k requires 0 <= k < |items| => [items[k]]);
    ghost var groups := Singletons(items);
    var n := 0;
    while n < height.value
      invariant n <= height.value && fresh(result)
      invariant result[..] == Rounds(lt, groups, n)
    {
      result := PlayRound(lt, result);
      n := n + 1;
    }
    SortResult(lt, items, height.value, result[..]);
    r := Ok(result[0]);
  }

  /** `sort([x]) == [x]`: no rounds are played on a single element. */
  lemma SortOne<T>(lt: (T, T) -> bool, x: T)
    ensures BracketOrder(lt, [x], 0) == [x]
  {
    assert Singletons([x]) == [[x]];
  }

  /** The integers under Python's `<`. */
  function IntLess(): (int, int) -> bool {
    (x: int, y: int) => x < y
  }

  /** Seeds 1 to 4 in bracket order: 1 meets 4 and 2 meets 3. */
  lemma SortFourSeeds()
    ensures BracketOrder(IntLess(), [1, 2, 3, 4], 2) == [1, 4, 2, 3]
  {
  }
}
