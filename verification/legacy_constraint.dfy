/** The constraint of the older `severn/api/requirements.py`: the same
    grammar as the current one, but a field the text leaves out, or sets
    to `0`, becomes infinity (`x or float("inf")`), and the comparator is
    only looked up when a version is checked against it. */
module LegacyConstraints {
  import opened Text
  import opened Results
  import opened ConstraintScan
  import Current = Constraints
  import Lex

  /** A key field: a number or `float("inf")`, which compares above every
      number and equal to itself. */
  datatype Ext = Fin(n: nat) | Inf

  predicate ExtLess(x: Ext, y: Ext) {
    x.Fin? && (y.Inf? || x.n < y.n)
  }

  lemma ExtLessIsStrictTotal()
    ensures Lex.StrictTotalOrder(ExtLess)
  {
  }

  /** `value or MAX_VERSION`: an absent number, and also `0`, becomes
      infinity. */
  function OrInf(n: Option<nat>): (r: Ext)
    ensures r.Inf? <==> n.None? || n.value == 0
    ensures r.Fin? ==> 0 < r.n && n == Some(r.n)
  {
    if n.Some? && n.value != 0 then Fin(n.value) else Inf
  }

  /** `maybe_int`: the number of a group that matched, `None` otherwise. */
  function MaybeInt(ds: Option<string>): (r: Option<nat>)
    requires NumberText(ds)
    ensures r.Some? <==> ds.Some?
  {
    if ds.Some? then Some(DecimalValue(ds.value)) else None
  }

  /** A tag field as the constructor can set it: never a finite `0`. */
  predicate TagValue(x: Ext) {
    x.Inf? || 0 < x.n
  }

  /** The instance attributes. The comparator is kept as text; the release
      specificity is the number of release segments written. */
  datatype Constraint = Constraint(
    comparator: string,
    epoch: nat, major: nat, minor: nat, patch: nat,
    alpha: Ext, beta: Ext, rc: Ext,
    post1: Ext, post2: Ext, dev: Ext,
    specificity: nat)
  {
    /** `as_tuple`. */
    function AsTuple(): seq<Ext> {
      [Fin(epoch), Fin(major), Fin(minor), Fin(patch), alpha, beta, rc, post1, post2, dev]
    }
  }

  /** The pre-release field named `tag`: `tag or MAX_VERSION` with the tag's
      number, or infinity when the keyword is not passed. */
  function PreField(m: Match, tag: string): Ext
    requires WellFormed(m)
  {
    if m.pre.Some? && m.pre.value.tag == tag then OrInf(MaybeInt(m.pre.value.number)) else Inf
  }

  /** The constructor call at the end of `from_string`. The pre-release
      label is passed as a keyword, and only `a`, `b` and `rc` name one; the
      comparator is stored without a check. */
  function FromMatch(m: Match): (r: Result<Constraint>)
    requires WellFormed(m)
    ensures r.Ok? <==> Current.KnownTag(m)
    ensures r.Ok? ==> r.value.specificity == |m.release| && 1 <= r.value.specificity
    ensures r.Ok? ==> r.value.comparator == Current.EffectiveComparator(m)
    ensures r.Ok? ==> TagValue(r.value.alpha) && TagValue(r.value.beta) && TagValue(r.value.rc)
                      && TagValue(r.value.post1) && TagValue(r.value.post2) && TagValue(r.value.dev)
  {
    if !Current.KnownTag(m) then Err(UnknownLabel(m.pre.value.tag))
    else
      var epoch := MaybeInt(m.epoch);
      Ok(Constraint(Current.EffectiveComparator(m),
        epoch := if epoch.Some? then epoch.value else 0,
        major := Current.ReleaseAt(m, 0), minor := Current.ReleaseAt(m, 1), patch := Current.ReleaseAt(m, 2),
        alpha := PreField(m, "a"), beta := PreField(m, "b"), rc := PreField(m, "rc"),
        post1 := OrInf(MaybeInt(m.postN1)),
        post2 := OrInf(MaybeInt(m.postN2)),
        dev := OrInf(MaybeInt(m.devN)),
        specificity := |m.release|))
  }

  /** `Constraint.from_string`. */
  function FromString(raw: string): (r: Result<Constraint>)
    ensures !Matches(raw) <==> r == Err(Malformed(raw))
    ensures r.Ok? <==> Matches(raw) && Current.KnownTag(Scan(raw).value)
    ensures r.Ok? ==> 1 <= r.value.specificity
  {
    match Scan(raw)
    case None => Err(Malformed(raw))
    case Some(m) => FromMatch(m)
  }

  /** Python's `t[:n]`. */
  function Prefix(t: seq<Ext>, n: nat): seq<Ext> {
    if n <= |t| then t[..n] else t
  }

  /** `_tilde_callback`: the candidate agrees with the constraint on the
      first `specificity` key fields and is not below it at the next one.
      With ten or more release segments that next field does not exist,
      and the lookup raises once the prefixes agree. */
  function Tilde(specificity: nat, key: seq<Ext>, candidate: seq<Ext>): (r: Result<bool>)
    ensures r.Err? <==> Prefix(key, specificity) == Prefix(candidate, specificity)
                        && (|candidate| <= specificity || |key| <= specificity)
    ensures r.Err? ==> r.error == TupleIndex(specificity)
    ensures specificity < |key| && specificity < |candidate| ==>
              (r == Ok(true) <==> Prefix(key, specificity) == Prefix(candidate, specificity)
                                  && !ExtLess(candidate[specificity], key[specificity]))
  {
    if Prefix(key, specificity) != Prefix(candidate, specificity) then Ok(false)
    else if |candidate| <= specificity || |key| <= specificity then Err(TupleIndex(specificity))
    else Ok(!ExtLess(candidate[specificity], key[specificity]))
  }

  /** The comparator mapping of `likes_version`, applied to the candidate's
      key; a comparator outside it is a `KeyError`. */
  function Compare(c: Constraint, candidate: seq<Ext>): (r: Result<bool>)
    ensures Current.OpOf(c.comparator).None? ==> r == Err(UnknownComparator(c.comparator))
    ensures c.comparator != "~=" && Current.OpOf(c.comparator).Some? ==> r.Ok?
  {
    var key := c.AsTuple();
    match Current.OpOf(c.comparator)
    case None => Err(UnknownComparator(c.comparator))
    case Some(op) =>
      match op
      case Eq => Ok(key == candidate)
      case Ne => Ok(key != candidate)
      case Gt => Ok(Lex.Less(key, candidate, ExtLess))
      case Ge => Ok(Lex.LessEq(key, candidate, ExtLess))
      case Lt => Ok(Lex.Less(candidate, key, ExtLess))
      case Le => Ok(Lex.LessEq(candidate, key, ExtLess))
      case Compatible => Tilde(c.specificity, key, candidate)
  }

  /** `likes_version`: the candidate is parsed before the comparator is
      looked up, so a bad version raises first. */
  function LikesVersion(c: Constraint, version: string): (r: Result<bool>)
    ensures FromString("==" + version).Err? ==> r == Err(FromString("==" + version).error)
    ensures FromString("==" + version).Ok? && Current.OpOf(c.comparator).None? ==>
              r == Err(UnknownComparator(c.comparator))
  {
    match FromString("==" + version)
    case Err(e) => Err(e)
    case Ok(other) => Compare(c, other.AsTuple())
  }

  /** `>`/`<=` and `<`/`>=` split every candidate between them, as in the
      current constraint, since infinity keeps the order total. */
  lemma Complement(c: Constraint, candidate: seq<Ext>)
    ensures Compare(c.(comparator := ">"), candidate).value != Compare(c.(comparator := "<="), candidate).value
    ensures Compare(c.(comparator := "<"), candidate).value != Compare(c.(comparator := ">="), candidate).value
  {
    ExtLessIsStrictTotal();
    Lex.LessEqIffNotGreater(candidate, c.AsTuple(), ExtLess);
    Lex.LessEqIffNotGreater(c.AsTuple(), candidate, ExtLess);
  }

  /** With one to three release numbers written, `~=` pins the epoch and
      all but the last release number written, and lets that last one grow;
      nothing after it is looked at, pre-releases included. */
  lemma TildeRelease(c: Constraint, d: Constraint)
    requires c.comparator == "~=" && 1 <= c.specificity <= 3
    ensures Compare(c, d.AsTuple()) == Ok(
      && d.epoch == c.epoch
      && (c.specificity == 1 ==> d.major >= c.major)
      && (c.specificity == 2 ==> d.major == c.major && d.minor >= c.minor)
      && (c.specificity == 3 ==> d.major == c.major && d.minor == c.minor && d.patch >= c.patch))
  {
    var k := c.AsTuple();
    var t := d.AsTuple();
    var s := c.specificity;
    if s == 1 {
      assert t[..s] == [Fin(d.epoch)] && k[..s] == [Fin(c.epoch)];
    } else if s == 2 {
      assert t[..s] == [Fin(d.epoch), Fin(d.major)] && k[..s] == [Fin(c.epoch), Fin(c.major)];
    } else {
      assert t[..s] == [Fin(d.epoch), Fin(d.major), Fin(d.minor)];
      assert k[..s] == [Fin(c.epoch), Fin(c.major), Fin(c.minor)];
    }
  }

  /** With four release numbers written the key keeps only three of them,
      so `~=` pins the epoch and all three, and its last comparison falls
      on the alpha field: a candidate passes only if its alpha tag is not
      below the constraint's. */
  lemma TildeFourth(c: Constraint, d: Constraint)
    requires c.comparator == "~=" && c.specificity == 4
    ensures Compare(c, d.AsTuple()) == Ok(
      && d.epoch == c.epoch && d.major == c.major && d.minor == c.minor && d.patch == c.patch
      && !ExtLess(d.alpha, c.alpha))
  {
    var k := c.AsTuple();
    var t := d.AsTuple();
    assert t[..4] == [Fin(d.epoch), Fin(d.major), Fin(d.minor), Fin(d.patch)];
    assert k[..4] == [Fin(c.epoch), Fin(c.major), Fin(c.minor), Fin(c.patch)];
  }

  /** With ten or more release numbers written, `~=` rejects every other
      key and raises on its own key instead of accepting it. */
  lemma TildeWide(c: Constraint, d: Constraint)
    requires c.comparator == "~=" && 10 <= c.specificity
    ensures Compare(c, d.AsTuple()) ==
              if c.AsTuple() == d.AsTuple() then Err(TupleIndex(c.specificity)) else Ok(false)
  {
  }

  /** `0` is not a number for a tag: `2.8.2a0`, `2.8.2a`, `2.8.2-0`,
      `2.8.2.post0` and `2.8.2.dev0` all give the constraint of `2.8.2`,
      and so do their combinations. */
  lemma ZeroTagIsUntagged(m: Match)
    requires WellFormed(m)
    requires m.pre.Some? ==> m.pre.value.tag in {"a", "b", "rc"}
                             && (m.pre.value.number.None? || DecimalValue(m.pre.value.number.value) == 0)
    requires m.postN1.None? || DecimalValue(m.postN1.value) == 0
    requires m.postN2.None? || DecimalValue(m.postN2.value) == 0
    requires m.devN.None? || DecimalValue(m.devN.value) == 0
    ensures WellFormed(m.(pre := None, postN1 := None, postN2 := None, devN := None))
    ensures FromMatch(m) == FromMatch(m.(pre := None, postN1 := None, postN2 := None, devN := None))
  {
  }
}
