/** What the comparators mean: which pairs are complements, which accept the
    constraint's own version, what `~=` pins, and how the sentinel orders
    pre-releases against the final release. */
module ConstraintProperties {
  import opened Text
  import opened Results
  import opened ConstraintScan
  import opened Constraints
  import Lex

  /** `==`/`!=`, `>`/`<=` and `<`/`>=` split every candidate between them. */
  lemma Complement(c: Constraint, candidate: seq<int>)
    ensures Accepts(c.(op := Eq), candidate) <==> !Accepts(c.(op := Ne), candidate)
    ensures Accepts(c.(op := Gt), candidate) <==> !Accepts(c.(op := Le), candidate)
    ensures Accepts(c.(op := Lt), candidate) <==> !Accepts(c.(op := Ge), candidate)
  {
    Lex.IntLessIsStrictTotal();
    Lex.LessEqIffNotGreater(candidate, c.AsTuple(), Lex.IntLess);
    Lex.LessEqIffNotGreater(c.AsTuple(), candidate, Lex.IntLess);
  }

  /** The same split, for a version given as text: either the version does
      not parse and both comparators raise, or exactly one likes it. */
  lemma LikesComplement(c: Constraint, version: string)
    ensures LikesVersion(c.(op := Gt), version).Ok? <==> LikesVersion(c.(op := Le), version).Ok?
    ensures LikesVersion(c.(op := Gt), version).Ok? ==>
              LikesVersion(c.(op := Gt), version).value != LikesVersion(c.(op := Le), version).value
    ensures LikesVersion(c.(op := Lt), version).Ok? ==>
              LikesVersion(c.(op := Lt), version).value != LikesVersion(c.(op := Ge), version).value
    ensures LikesVersion(c.(op := Eq), version).Ok? ==>
              LikesVersion(c.(op := Eq), version).value != LikesVersion(c.(op := Ne), version).value
  {
    match FromString("==" + version)
    case Err(_) =>
    case Ok(other) =>
      Complement(c, other.AsTuple());
  }

  /** A constraint accepts its own key exactly under the comparators that
      include equality. */
  lemma OwnKey(c: Constraint)
    ensures Accepts(c, c.AsTuple()) <==> c.op in {Eq, Ge, Le, Compatible}
  {
    Lex.IntLessIsStrictTotal();
    Lex.Irreflexive(c.AsTuple(), Lex.IntLess);
  }

  /** `==V` likes `V` for every version that parses, and so do `>=V`,
      `<=V` and `~=V`; `!=V`, `>V` and `<V` do not. */
  lemma LikesItself(version: string, op: Op)
    requires FromString("==" + version).Ok?
    ensures LikesVersion(FromString("==" + version).value.(op := op), version)
              == Ok(op in {Eq, Ge, Le, Compatible})
  {
    OwnKey(FromString("==" + version).value.(op := op));
  }

  /** `~=` with `n` release numbers written pins the epoch and the first
      `n - 1` release numbers and lets the rest grow: the specificity counts
      key fields, and the key starts with the epoch. */
  lemma CompatibleRelease(c: Constraint, d: Constraint)
    requires c.op == Compatible && 1 <= c.specificity <= 4
    ensures Accepts(c, d.AsTuple()) <==>
      && Lex.LessEq(c.AsTuple(), d.AsTuple(), Lex.IntLess)
      && d.epoch == c.epoch
      && (2 <= c.specificity ==> d.major == c.major)
      && (3 <= c.specificity ==> d.minor == c.minor)
      && (4 <= c.specificity ==> d.patch == c.patch)
  {
    var k := c.AsTuple();
    var t := d.AsTuple();
    var s := c.specificity;
    assert Prefix(t, s) == t[..s] && Prefix(k, s) == k[..s];
    if s == 1 {
      assert t[..s] == [d.epoch] && k[..s] == [c.epoch];
    } else if s == 2 {
      assert t[..s] == [d.epoch, d.major] && k[..s] == [c.epoch, c.major];
    } else if s == 3 {
      assert t[..s] == [d.epoch, d.major, d.minor] && k[..s] == [c.epoch, c.major, c.minor];
    } else {
      assert t[..s] == [d.epoch, d.major, d.minor, d.patch];
      assert k[..s] == [c.epoch, c.major, c.minor, c.patch];
    }
  }

  /** The key of the same release without its pre-release part. */
  function Final(c: Constraint): Constraint {
    c.(alpha := MAX_VERSION, beta := MAX_VERSION, rc := MAX_VERSION)
  }

  /** A pre-release numbered below the sentinel sorts before its final
      release. */
  lemma {:induction false} PrereleaseBelowFinal(c: Constraint)
    requires c.alpha <= MAX_VERSION && c.beta <= MAX_VERSION && c.rc <= MAX_VERSION
    requires c.alpha < MAX_VERSION || c.beta < MAX_VERSION || c.rc < MAX_VERSION
    ensures Lex.Less(c.AsTuple(), Final(c).AsTuple(), Lex.IntLess)
  {
    var a := c.AsTuple();
    var b := Final(c).AsTuple();
    if c.alpha < MAX_VERSION {
      Lex.DecidedAt(a, b, 4, Lex.IntLess);
    } else if c.beta < MAX_VERSION {
      Lex.DecidedAt(a, b, 5, Lex.IntLess);
    } else {
      Lex.DecidedAt(a, b, 6, Lex.IntLess);
    }
  }

  /** Pre-release stages order `a` before `b` before `rc`, whatever their
      numbers below the sentinel. */
  lemma {:induction false} StageOrder(c: Constraint, n: nat, m: nat)
    requires n < MAX_VERSION && m < MAX_VERSION
    ensures Lex.Less(Final(c).(alpha := n).AsTuple(), Final(c).(beta := m).AsTuple(), Lex.IntLess)
    ensures Lex.Less(Final(c).(beta := n).AsTuple(), Final(c).(rc := m).AsTuple(), Lex.IntLess)
  {
    Lex.DecidedAt(Final(c).(alpha := n).AsTuple(), Final(c).(beta := m).AsTuple(), 4, Lex.IntLess);
    Lex.DecidedAt(Final(c).(beta := n).AsTuple(), Final(c).(rc := m).AsTuple(), 5, Lex.IntLess);
  }

  /** A dev-release or a post-release numbered below the sentinel also sorts
      before the untagged release, because the untagged fields hold the
      largest value; PEP 440 puts post-releases after it instead. This holds
      for both spellings of a post-release, `-N` and `.postN`. */
  lemma {:induction false} TaggedBelowUntagged(c: Constraint, n: nat)
    requires n < MAX_VERSION
    requires c.post1 == MAX_VERSION && c.post2 == MAX_VERSION && c.dev == MAX_VERSION
    ensures Lex.Less(c.(dev := n).AsTuple(), c.AsTuple(), Lex.IntLess)
    ensures Lex.Less(c.(post2 := n).AsTuple(), c.AsTuple(), Lex.IntLess)
    ensures Lex.Less(c.(post1 := n).AsTuple(), c.AsTuple(), Lex.IntLess)
  {
    Lex.DecidedAt(c.(dev := n).AsTuple(), c.AsTuple(), 9, Lex.IntLess);
    Lex.DecidedAt(c.(post2 := n).AsTuple(), c.AsTuple(), 8, Lex.IntLess);
    Lex.DecidedAt(c.(post1 := n).AsTuple(), c.AsTuple(), 7, Lex.IntLess);
  }

  /** The sentinel is an ordinary number: a pre-release numbered with it
      has the key of the final release. */
  lemma SentinelPrerelease(m: Match, tag: string)
    requires WellFormed(m) && m.pre.None?
    requires tag in {"a", "b", "rc"}
    ensures WellFormed(m.(pre := Some(PreTag(tag, Some(DecimalText(MAX_VERSION))))))
    ensures FromMatch(m.(pre := Some(PreTag(tag, Some(DecimalText(MAX_VERSION)))))) == FromMatch(m)
  {
    DecimalRoundTrip(MAX_VERSION);
    SentinelNumber(m, tag, DecimalText(MAX_VERSION));
  }

  /** The same for any digits whose value is the sentinel. */
  lemma SentinelNumber(m: Match, tag: string, ds: string)
    requires WellFormed(m) && m.pre.None?
    requires tag in {"a", "b", "rc"}
    requires 0 < |ds| && AllDigits(ds) && DecimalValue(ds) == MAX_VERSION
    ensures WellFormed(m.(pre := Some(PreTag(tag, Some(ds)))))
    ensures FromMatch(m.(pre := Some(PreTag(tag, Some(ds))))) == FromMatch(m)
  {
    var m2 := m.(pre := Some(PreTag(tag, Some(ds))));
    WithPre(m, PreTag(tag, Some(ds)));
    SameFields(m, m2);
  }

  lemma WithPre(m: Match, p: PreTag)
    requires WellFormed(m)
    requires p.tag in {"a", "b", "c", "rc", "pre"} && NumberText(p.number)
    ensures WellFormed(m.(pre := Some(p)))
  {
  }

  /** Two matches that give every constructor argument the same value
      build the same constraint. */
  lemma SameFields(m: Match, m2: Match)
    requires WellFormed(m) && WellFormed(m2)
    requires KnownTag(m) && KnownTag(m2)
    requires m2.comparator == m.comparator && m2.release == m.release && m2.epoch == m.epoch
    requires m2.postN1 == m.postN1 && m2.postN2 == m.postN2 && m2.devN == m.devN
    requires PreField(m2, "a") == PreField(m, "a") && PreField(m2, "b") == PreField(m, "b")
    requires PreField(m2, "rc") == PreField(m, "rc")
    ensures FromMatch(m2) == FromMatch(m)
  {
  }

  /** The release group with every `*` written as `0`. */
  function ZeroStars(segs: seq<string>): (r: seq<string>)
    ensures |r| == |segs|
    ensures forall i :: 0 <= i < |segs| ==> r[i] == ReplaceChar(segs[i], '*', '0')
  {
    seq(|segs|, i requires 0 <= i < |segs| => ReplaceChar(segs[i], '*', '0'))
  }

  /** The match `from_string` goes on with once it has seen a `*`: the
      comparator becomes `~=` and every `*` becomes `0`. */
  function Zeroed(m: Match): Match {
    m.(comparator := "~=", release := ZeroStars(m.release))
  }

  /** A wildcard release means `~=` with zeros in place of the stars: the
      rewritten match is a match too, has no wildcard left, and builds the
      same constraint (or fails the same way). */
  lemma WildcardAsZeros(m: Match)
    requires WellFormed(m) && HasWildcard(m.release)
    ensures WellFormed(Zeroed(m)) && !HasWildcard(Zeroed(m).release)
    ensures FromMatch(Zeroed(m)) == FromMatch(m)
  {
    var z := Zeroed(m);
    ZeroedShape(m);
    assert EffectiveComparator(z) == EffectiveComparator(m);
    assert ReleaseAt(z, 0) == ReleaseAt(m, 0);
    assert ReleaseAt(z, 1) == ReleaseAt(m, 1);
    assert ReleaseAt(z, 2) == ReleaseAt(m, 2);
    SameArguments(m, z);
  }

  lemma ZeroedShape(m: Match)
    requires WellFormed(m)
    ensures WellFormed(Zeroed(m)) && !HasWildcard(Zeroed(m).release)
    ensures forall i :: 0 <= i < |m.release| ==> SegmentValue(Zeroed(m).release[i]) == SegmentValue(m.release[i])
  {
    var z := Zeroed(m);
    forall i | 0 <= i < |m.release|
      ensures '*' !in z.release[i]
      ensures SegmentValue(z.release[i]) == SegmentValue(m.release[i])
    {
      var r := ReplaceChar(m.release[i], '*', '0');
      assert forall k :: 0 <= k < |r| ==> r[k] != '*';
      ReplaceCharAbsent(r, '*', '0');
    }
    ReplaceCharAbsent(m.release[0], '*', '0');
  }

  /** Two matches that agree on every constructor argument but the number
      of release segments build constraints that differ at most in their
      specificity. */
  lemma SameArguments(m: Match, m2: Match)
    requires WellFormed(m) && WellFormed(m2)
    requires m2.pre == m.pre && m2.epoch == m.epoch
    requires m2.postN1 == m.postN1 && m2.postN2 == m.postN2 && m2.devN == m.devN
    requires EffectiveComparator(m2) == EffectiveComparator(m)
    requires ReleaseAt(m2, 0) == ReleaseAt(m, 0) && ReleaseAt(m2, 1) == ReleaseAt(m, 1)
    requires ReleaseAt(m2, 2) == ReleaseAt(m, 2)
    ensures FromMatch(m2).Ok? <==> FromMatch(m).Ok?
    ensures FromMatch(m2).Ok? ==> FromMatch(m2).value == FromMatch(m).value.(specificity := |m2.release|)
    ensures |m2.release| == |m.release| ==> FromMatch(m2) == FromMatch(m)
  {
  }

  /** Release numbers after the third are counted in the specificity but do
      not reach the key: appending one changes nothing else. */
  lemma ExtraSegment(m: Match, seg: string)
    requires WellFormed(m) && 3 <= |m.release|
    requires 0 < |seg| && AllDigits(seg)
    ensures WellFormed(m.(release := m.release + [seg]))
    ensures var r := FromMatch(m.(release := m.release + [seg]));
      && (r.Ok? <==> FromMatch(m).Ok?)
      && (r.Ok? ==> r.value == FromMatch(m).value.(specificity := |m.release| + 1))
  {
    var m2 := m.(release := m.release + [seg]);
    AppendSegment(m.release, seg);
    assert m2.release[0] == m.release[0];
    assert EffectiveComparator(m2) == EffectiveComparator(m);
    assert ReleaseAt(m2, 0) == ReleaseAt(m, 0);
    assert ReleaseAt(m2, 1) == ReleaseAt(m, 1);
    assert ReleaseAt(m2, 2) == ReleaseAt(m, 2);
    SameArguments(m, m2);
  }

  /** A segment of digits keeps the release group well formed and adds no
      wildcard. */
  lemma AppendSegment(segs: seq<string>, seg: string)
    requires SegmentsText(segs)
    requires 0 < |seg| && AllDigits(seg)
    ensures SegmentsText(segs + [seg])
    ensures HasWildcard(segs + [seg]) <==> HasWildcard(segs)
  {
    var r := segs + [seg];
    assert forall i :: 0 <= i < |segs| ==> r[i] == segs[i];
    assert '*' !in seg by {
      assert forall k :: 0 <= k < |seg| ==> seg[k] != '*';
    }
    if HasWildcard(r) {
      var i :| 0 <= i < |r| && '*' in r[i];
      assert i < |segs|;
    }
  }

  /** A pre-release label without a number reads as that label numbered
      `0`: `safe_int` defaults the missing number to zero. */
  lemma BareLabel(m: Match, tag: string)
    requires WellFormed(m) && m.pre.None?
    requires tag in {"a", "b", "c", "rc", "pre"}
    ensures WellFormed(m.(pre := Some(PreTag(tag, None))))
    ensures WellFormed(m.(pre := Some(PreTag(tag, Some("0")))))
    ensures FromMatch(m.(pre := Some(PreTag(tag, None)))) == FromMatch(m.(pre := Some(PreTag(tag, Some("0")))))
  {
    var bare := m.(pre := Some(PreTag(tag, None)));
    var zero := m.(pre := Some(PreTag(tag, Some("0"))));
    WithPre(m, PreTag(tag, None));
    assert AllDigits("0") && DecimalValue("0") == 0;
    WithPre(m, PreTag(tag, Some("0")));
    if tag in {"a", "b", "rc"} {
      SameFields(bare, zero);
    }
  }
}
