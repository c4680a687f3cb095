/** Strict total orders, and Python's lexicographic order on lists and strings. */
module Orders {

  /** `lt` is a strict total order: irreflexive, transitive, and any two distinct values are comparable. */
  ghost predicate StrictTotalOrder<T(!new)>(lt: (T, T) -> bool) {
    && (forall x :: !lt(x, x))
    && (forall x, y, z :: lt(x, y) && lt(y, z) ==> lt(x, z))
    && (forall x, y :: x != y ==> lt(x, y) || lt(y, x))
  }

  /**
   * Python's `a < b` on two lists: the first index where they differ decides,
   * and when one is a prefix of the other the shorter one is smaller.
   */
  function LexLess<T(==)>(lt: (T, T) -> bool, a: seq<T>, b: seq<T>): bool
    decreases |a|
  {
    if |b| == 0 then false
    else if |a| == 0 then true
    else if a[0] != b[0] then lt(a[0], b[0])
    else LexLess(lt, a[1..], b[1..])
  }

  /** LexLess as a comparator on sequences. */
  function LexOrder<T(==)>(lt: (T, T) -> bool): (seq<T>, seq<T>) -> bool {
    (a, b) => LexLess(lt, a, b)
  }

  lemma {:induction false} LexIrreflexive<T(!new)>(lt: (T, T) -> bool, a: seq<T>)
    requires StrictTotalOrder(lt)
    ensures !LexLess(lt, a, a)
    decreases |a|
  {
    if |a| > 0 {
      LexIrreflexive(lt, a[1..]);
    }
  }

  lemma {:induction false} LexTransitive<T(!new)>(lt: (T, T) -> bool, a: seq<T>, b: seq<T>, c: seq<T>)
    requires StrictTotalOrder(lt)
    requires LexLess(lt, a, b) && LexLess(lt, b, c)
    ensures LexLess(lt, a, c)
    decreases |a|
  {
    if |a| > 0 && a[0] == b[0] && b[0] == c[0] {
      LexTransitive(lt, a[1..], b[1..], c[1..]);
    }
  }

  lemma {:induction false} LexConnected<T(!new)>(lt: (T, T) -> bool, a: seq<T>, b: seq<T>)
    requires StrictTotalOrder(lt)
    requires a != b
    ensures LexLess(lt, a, b) || LexLess(lt, b, a)
    decreases |a|
  {
    if |a| > 0 && |b| > 0 && a[0] == b[0] {
      assert a == [a[0]] + a[1..] && b == [b[0]] + b[1..];
      LexConnected(lt, a[1..], b[1..]);
    }
  }

  /** Lexicographic comparison of sequences over a strict total order is itself one. */
  lemma LexStrictTotal<T(!new)>(lt: (T, T) -> bool)
    requires StrictTotalOrder(lt)
    ensures StrictTotalOrder(LexOrder(lt))
  {
    forall a: seq<T> ensures !LexLess(lt, a, a) {
      LexIrreflexive(lt, a);
    }
    forall a: seq<T>, b: seq<T>, c: seq<T> | LexLess(lt, a, b) && LexLess(lt, b, c)
      ensures LexLess(lt, a, c)
    {
      LexTransitive(lt, a, b, c);
    }
    forall a: seq<T>, b: seq<T> | a != b ensures LexLess(lt, a, b) || LexLess(lt, b, a) {
      LexConnected(lt, a, b);
    }
  }

  /** Python's `<` on characters compares code points. */
  function CharLess(): (char, char) -> bool {
    (x: char, y: char) => x < y
  }

  lemma CharLessStrictTotal()
    ensures StrictTotalOrder(CharLess())
  {
  }
}
