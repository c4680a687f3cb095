/** Powers of two, as computed by `pow(2, h)` and `1 << h` on Python's unbounded integers. */
module Powers {

  function Pow2(n: nat): (r: nat)
    ensures r >= 1
  {
    if n == 0 then 1 else 2 * Pow2(n - 1)
  }

  /** One more factor of two. */
  lemma Pow2Next(k: nat, j: nat)
    requires j == k + 1
    ensures Pow2(j) == 2 * Pow2(k)
  {
  }

  ghost predicate IsPowerOfTwo(n: nat) {
    exists h: nat :: Pow2(h) == n
  }

  /** Number of nodes of a perfect binary tree of height h: a root and two subtrees of height h - 1. */
  function Count(h: nat): (r: nat)
    ensures r >= 1
  {
    if h == 0 then 1 else 2 * Count(h - 1) + 1
  }

  /** A perfect tree of height h has 2^(h+1) - 1 nodes. */
  lemma {:induction false} CountIsPow2(h: nat)
    ensures Count(h) == Pow2(h + 1) - 1
  {
    if h > 0 {
      CountIsPow2(h - 1);
    }
  }

  lemma {:induction false} Pow2Monotone(a: nat, b: nat)
    requires a < b
    ensures Pow2(a) < Pow2(b)
    decreases b
  {
    if a < b - 1 {
      Pow2Monotone(a, b - 1);
    }
  }

  lemma {:induction false} Pow2Injective(a: nat, b: nat)
    requires Pow2(a) == Pow2(b)
    ensures a == b
  {
    if a < b {
      Pow2Monotone(a, b);
    } else if b < a {
      Pow2Monotone(b, a);
    }
  }
}
