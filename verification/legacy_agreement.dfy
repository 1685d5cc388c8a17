/** How the legacy constraint relates to the current one. Reading the
    current sentinel as infinity turns a current key into a legacy key, and
    on keys whose numbers stay at or below the sentinel the two orders
    agree; they part at `0` tags, which the legacy code reads as absent, and
    at `~=`, which the legacy code checks one field at a time. */
module LegacyAgreement {
  import opened Text
  import opened Results
  import opened ConstraintScan
  import Current = Constraints
  import LC = LegacyConstraints
  import Lex

  predicate InRange(x: int) {
    0 <= x <= Current.MAX_VERSION
  }

  /** A current key field as a legacy one: the sentinel is infinity. */
  function Embed(x: int): LC.Ext
    requires InRange(x)
  {
    if x == Current.MAX_VERSION then LC.Inf else LC.Fin(x)
  }

  function EmbedKey(t: seq<int>): (r: seq<LC.Ext>)
    requires forall i :: 0 <= i < |t| ==> InRange(t[i])
    ensures |r| == |t| && forall i :: 0 <= i < |t| ==> r[i] == Embed(t[i])
  {
    seq(|t|, i requires 0 <= i < |t| => Embed(t[i]))
  }

  /** The embedding preserves and reflects the order of key fields and
      never identifies two of them. */
  lemma EmbedOrder(x: int, y: int)
    requires InRange(x) && InRange(y)
    ensures x < y <==> LC.ExtLess(Embed(x), Embed(y))
    ensures x == y <==> Embed(x) == Embed(y)
  {
  }

  /** Keys of in-range numbers compare the same way in both orders. */
  lemma {:induction false} EmbedKeyOrder(a: seq<int>, b: seq<int>)
    requires forall i :: 0 <= i < |a| ==> InRange(a[i])
    requires forall i :: 0 <= i < |b| ==> InRange(b[i])
    ensures Lex.Less(a, b, Lex.IntLess) <==> Lex.Less(EmbedKey(a), EmbedKey(b), LC.ExtLess)
    ensures a == b <==> EmbedKey(a) == EmbedKey(b)
    decreases |a|
  {
    if |a| > 0 && |b| > 0 {
      EmbedOrder(a[0], b[0]);
      EmbedKeyOrder(a[1..], b[1..]);
      assert EmbedKey(a[1..]) == EmbedKey(a)[1..];
      assert EmbedKey(b[1..]) == EmbedKey(b)[1..];
      if EmbedKey(a) == EmbedKey(b) {
        assert EmbedKey(a)[0] == EmbedKey(b)[0];
        assert a == [a[0]] + a[1..] && b == [b[0]] + b[1..];
      }
    } else if |a| > 0 {
      assert EmbedKey(a) != EmbedKey(b) by { assert |EmbedKey(a)| != |EmbedKey(b)|; }
    } else if |b| > 0 {
      assert EmbedKey(a) != EmbedKey(b) by { assert |EmbedKey(a)| != |EmbedKey(b)|; }
    }
  }

  predicate KeyInRange(t: seq<int>) {
    forall i :: 0 <= i < |t| ==> InRange(t[i])
  }

  /** Every comparator but `~=` gives the same verdict in both variants on
      keys whose numbers stay at or below the sentinel. */
  lemma CompareAgrees(c: Current.Constraint, lc: LC.Constraint, t: seq<int>)
    requires c.op != Current.Compatible
    requires KeyInRange(c.AsTuple()) && KeyInRange(t)
    requires lc.comparator == Current.OpText(c.op) && lc.AsTuple() == EmbedKey(c.AsTuple())
    ensures LC.Compare(lc, EmbedKey(t)) == Ok(Current.Accepts(c, t))
  {
    EmbedKeyOrder(c.AsTuple(), t);
    EmbedKeyOrder(t, c.AsTuple());
    assert Current.OpOf(lc.comparator) == Some(c.op);
  }

  /** The numbers a match writes stay below the sentinel, and every tag
      that is written carries a number other than `0`. */
  predicate Moderate(m: Match)
    requires WellFormed(m)
  {
    && (m.epoch.Some? ==> DecimalValue(m.epoch.value) < Current.MAX_VERSION)
    && (forall i :: 0 <= i < |m.release| ==> Current.SegmentValue(m.release[i]) < Current.MAX_VERSION)
    && (m.pre.Some? ==> m.pre.value.number.Some?
                        && 0 < DecimalValue(m.pre.value.number.value) < Current.MAX_VERSION)
    && (m.postN1.Some? ==> 0 < DecimalValue(m.postN1.value) < Current.MAX_VERSION)
    && (m.postN2.Some? ==> 0 < DecimalValue(m.postN2.value) < Current.MAX_VERSION)
    && (m.devN.Some? ==> 0 < DecimalValue(m.devN.value) < Current.MAX_VERSION)
  }

  /** On such a match both parsers build the same key, up to reading the
      sentinel as infinity, and store the same comparator. */
  lemma KeysAgree(m: Match)
    requires WellFormed(m) && Moderate(m)
    requires Current.FromMatch(m).Ok?
    ensures LC.FromMatch(m).Ok?
    ensures KeyInRange(Current.FromMatch(m).value.AsTuple())
    ensures LC.FromMatch(m).value.AsTuple() == EmbedKey(Current.FromMatch(m).value.AsTuple())
    ensures LC.FromMatch(m).value.comparator == Current.OpText(Current.FromMatch(m).value.op)
  {
    var c := Current.FromMatch(m).value;
    var lc := LC.FromMatch(m).value;
    ReleaseInRange(m, 0);
    ReleaseInRange(m, 1);
    ReleaseInRange(m, 2);
    PreAgrees(m, "a");
    PreAgrees(m, "b");
    PreAgrees(m, "rc");
    EmbedFields(c, lc);
  }

  lemma ReleaseInRange(m: Match, i: nat)
    requires WellFormed(m) && Moderate(m)
    ensures Current.ReleaseAt(m, i) < Current.MAX_VERSION
  {
  }

  lemma PreAgrees(m: Match, tag: string)
    requires WellFormed(m) && Moderate(m)
    ensures InRange(Current.PreField(m, tag))
    ensures LC.PreField(m, tag) == Embed(Current.PreField(m, tag))
  {
  }

  /** Field by field agreement gives agreement of the keys. */
  lemma EmbedFields(c: Current.Constraint, lc: LC.Constraint)
    requires c.epoch < Current.MAX_VERSION && c.major < Current.MAX_VERSION
    requires c.minor < Current.MAX_VERSION && c.patch < Current.MAX_VERSION
    requires InRange(c.alpha) && InRange(c.beta) && InRange(c.rc)
    requires InRange(c.post1) && InRange(c.post2) && InRange(c.dev)
    requires lc.epoch == c.epoch && lc.major == c.major && lc.minor == c.minor && lc.patch == c.patch
    requires lc.alpha == Embed(c.alpha) && lc.beta == Embed(c.beta) && lc.rc == Embed(c.rc)
    requires lc.post1 == Embed(c.post1) && lc.post2 == Embed(c.post2) && lc.dev == Embed(c.dev)
    ensures KeyInRange(c.AsTuple())
    ensures lc.AsTuple() == EmbedKey(c.AsTuple())
  {
  }

  /** Where they differ: `0` as a tag number. The current key of `1.0a0`
      is below that of `1.0`, while the legacy parser reads a `0` tag as no
      tag at all (`LegacyConstraints.FromMatch`), so its keys are equal. */
  lemma ZeroTagDiffers(c: Current.Constraint)
    requires c.alpha == Current.MAX_VERSION && c.beta == Current.MAX_VERSION && c.rc == Current.MAX_VERSION
    ensures Lex.Less(c.(alpha := 0).AsTuple(), c.AsTuple(), Lex.IntLess)
  {
    Lex.DecidedAt(c.(alpha := 0).AsTuple(), c.AsTuple(), 4, Lex.IntLess);
  }

  /** Where they differ: `~=X.Y.Z` and a pre-release of `X.Y.Z`. The legacy
      check looks no further than the patch number and accepts it; the
      current one requires the candidate not to be below the constraint and
      rejects it. */
  lemma TildePrereleaseDiffers(c: Current.Constraint, lc: LC.Constraint, n: nat)
    requires c.op == Current.Compatible && c.specificity == 3
    requires c.alpha == Current.MAX_VERSION && c.beta == Current.MAX_VERSION && c.rc == Current.MAX_VERSION
    requires n < Current.MAX_VERSION
    requires lc.comparator == "~=" && lc.specificity == 3
    requires lc.epoch == c.epoch && lc.major == c.major && lc.minor == c.minor && lc.patch == c.patch
    ensures !Current.Accepts(c, c.(rc := n).AsTuple())
    ensures LC.Compare(lc, lc.(rc := LC.Fin(n)).AsTuple()) == Ok(true)
  {
    var k := c.AsTuple();
    var t := c.(rc := n).AsTuple();
    Lex.DecidedAt(t, k, 6, Lex.IntLess);
    Lex.IntLessIsStrictTotal();
    Lex.LessEqIffNotGreater(k, t, Lex.IntLess);
    LC.TildeRelease(lc, lc.(rc := LC.Fin(n)));
  }
}
