/** Python's ordering of tuples: the first position where the two differ
    decides, and a proper prefix comes first. Version keys are compared with
    it, over integers in the current constraint and over integers extended
    with infinity in the legacy one, so the element order is a parameter. */
module Lex {

  predicate Less<T(==)>(a: seq<T>, b: seq<T>, lt: (T, T) -> bool)
    decreases |a|
  {
    if |a| == 0 then |b| > 0
    else if |b| == 0 then false
    else lt(a[0], b[0]) || (a[0] == b[0] && Less(a[1..], b[1..], lt))
  }

  /** Python's `<=` on tuples. */
  predicate LessEq<T(==)>(a: seq<T>, b: seq<T>, lt: (T, T) -> bool) {
    Less(a, b, lt) || a == b
  }

  /** What Python's tuple comparison assumes of the element order. */
  ghost predicate StrictTotalOrder<T(!new)>(lt: (T, T) -> bool) {
    && (forall x :: !lt(x, x))
    && (forall x, y, z :: lt(x, y) && lt(y, z) ==> lt(x, z))
    && (forall x, y :: lt(x, y) || x == y || lt(y, x))
  }

  lemma {:induction false} Irreflexive<T(!new)>(a: seq<T>, lt: (T, T) -> bool)
    requires StrictTotalOrder(lt)
    ensures !Less(a, a, lt)
    decreases |a|
  {
    if |a| > 0 {
      Irreflexive(a[1..], lt);
    }
  }

  lemma ElementAsymmetric<T(!new)>(x: T, y: T, lt: (T, T) -> bool)
    requires StrictTotalOrder(lt)
    ensures !(lt(x, y) && lt(y, x))
  {
    assert lt(x, y) && lt(y, x) ==> lt(x, x);
  }

  lemma {:induction false} Asymmetric<T(!new)>(a: seq<T>, b: seq<T>, lt: (T, T) -> bool)
    requires StrictTotalOrder(lt)
    requires Less(a, b, lt)
    ensures !Less(b, a, lt)
    decreases |a|
  {
    if |a| > 0 && |b| > 0 {
      if a[0] == b[0] {
        Asymmetric(a[1..], b[1..], lt);
      } else {
        ElementAsymmetric(a[0], b[0], lt);
      }
    }
  }

  lemma {:induction false} Transitive<T(!new)>(a: seq<T>, b: seq<T>, c: seq<T>, lt: (T, T) -> bool)
    requires StrictTotalOrder(lt)
    requires Less(a, b, lt) && Less(b, c, lt)
    ensures Less(a, c, lt)
    decreases |a|
  {
    if |a| > 0 && a[0] == b[0] && b[0] == c[0] {
      Transitive(a[1..], b[1..], c[1..], lt);
    }
  }

  /** Any two sequences are comparable: one of `<`, `==`, `>`. */
  lemma {:induction false} Trichotomy<T(!new)>(a: seq<T>, b: seq<T>, lt: (T, T) -> bool)
    requires StrictTotalOrder(lt)
    ensures Less(a, b, lt) || a == b || Less(b, a, lt)
    decreases |a|
  {
    if |a| > 0 && |b| > 0 && a[0] == b[0] {
      Trichotomy(a[1..], b[1..], lt);
      if a[1..] == b[1..] {
        assert a == [a[0]] + a[1..] && b == [b[0]] + b[1..];
      }
    }
  }

  /** `LessEq` is the complement of the converse of `Less`, so `<=` and `>`
      (and `>=` and `<`) never agree. */
  lemma LessEqIffNotGreater<T(!new)>(a: seq<T>, b: seq<T>, lt: (T, T) -> bool)
    requires StrictTotalOrder(lt)
    ensures LessEq(a, b, lt) <==> !Less(b, a, lt)
  {
    Trichotomy(a, b, lt);
    if Less(a, b, lt) {
      Asymmetric(a, b, lt);
    }
    if a == b {
      Irreflexive(a, lt);
    }
  }

  /** Reference definition of the order on equal-length sequences: there is
      a first position where they differ, and `a` is smaller there. */
  ghost predicate FirstDifferenceBelow<T>(a: seq<T>, b: seq<T>, lt: (T, T) -> bool) {
    exists i :: 0 <= i < |a| && i < |b| && a[..i] == b[..i] && lt(a[i], b[i])
  }

  lemma {:induction false} LessIsFirstDifference<T>(a: seq<T>, b: seq<T>, lt: (T, T) -> bool)
    requires |a| == |b|
    ensures Less(a, b, lt) <==> FirstDifferenceBelow(a, b, lt)
    decreases |a|
  {
    if |a| > 0 {
      LessIsFirstDifference(a[1..], b[1..], lt);
      if Less(a, b, lt) {
        if lt(a[0], b[0]) {
          assert a[..0] == b[..0];
        } else {
          var i :| 0 <= i < |a[1..]| && a[1..][..i] == b[1..][..i] && lt(a[1..][i], b[1..][i]);
          assert a[..i + 1] == [a[0]] + a[1..][..i];
          assert b[..i + 1] == [b[0]] + b[1..][..i];
        }
      }
      if FirstDifferenceBelow(a, b, lt) {
        var i :| 0 <= i < |a| && a[..i] == b[..i] && lt(a[i], b[i]);
        if i > 0 {
          assert a[0] == a[..i][0] == b[..i][0] == b[0];
          assert a[1..][..i - 1] == a[..i][1..];
          assert b[1..][..i - 1] == b[..i][1..];
          assert a[1..][i - 1] == a[i];
        }
      }
    }
  }

  /** Two sequences of the same length that agree before index `i` compare
      as their `i`-th elements do. */
  lemma DecidedAt<T>(a: seq<T>, b: seq<T>, i: nat, lt: (T, T) -> bool)
    requires |a| == |b| && i < |a|
    requires a[..i] == b[..i] && lt(a[i], b[i])
    ensures Less(a, b, lt)
  {
    LessIsFirstDifference(a, b, lt);
  }

  /** The order on integers. */
  predicate IntLess(x: int, y: int) {
    x < y
  }

  lemma IntLessIsStrictTotal()
    ensures StrictTotalOrder(IntLess)
  {
  }
}
