/** A version constraint: a comparator and a fixed ten-field key
    `(epoch, major, minor, patch, alpha, beta, rc, post1, post2, dev)`,
    parsed from text such as `>=2.8.2a5.post3`, and the test of a candidate
    version against it. */
module Constraints {
  import opened Text
  import opened Results
  import opened ConstraintScan
  import Lex

  /** The value of every key field the text leaves out, after the release. */
  const MAX_VERSION: nat := 0xFFFFFFF

  datatype Op = Eq | Ne | Gt | Ge | Lt | Le | Compatible

  function OpText(op: Op): string {
    match op
    case Eq => "=="
    case Ne => "!="
    case Gt => ">"
    case Ge => ">="
    case Lt => "<"
    case Le => "<="
    case Compatible => "~="
  }

  /** The lookup in the comparator mapping built at construction; a missing
      comparator is a `KeyError` there. */
  function OpOf(text: string): (r: Option<Op>)
    ensures r.Some? ==> OpText(r.value) == text
    ensures r.None? ==> forall op: Op :: OpText(op) != text
  {
    if text == "==" then Some(Eq)
    else if text == "!=" then Some(Ne)
    else if text == ">" then Some(Gt)
    else if text == ">=" then Some(Ge)
    else if text == "<" then Some(Lt)
    else if text == "<=" then Some(Le)
    else if text == "~=" then Some(Compatible)
    else None
  }

  /** The dataclass: the comparator, the ten key fields and the release
      specificity (the number of release segments written). */
  datatype Constraint = Constraint(
    op: Op,
    epoch: nat, major: nat, minor: nat, patch: nat,
    alpha: nat, beta: nat, rc: nat,
    post1: nat, post2: nat, dev: nat,
    specificity: nat)
  {
    /** `as_tuple`. */
    function AsTuple(): seq<int> {
      [epoch, major, minor, patch, alpha, beta, rc, post1, post2, dev]
    }
  }

  /** At most one of the three pre-release fields is set: the other two hold
      the sentinel. */
  predicate PreExclusive(c: Constraint) {
    || (c.beta == MAX_VERSION && c.rc == MAX_VERSION)
    || (c.alpha == MAX_VERSION && c.rc == MAX_VERSION)
    || (c.alpha == MAX_VERSION && c.beta == MAX_VERSION)
  }

  /** The release number at position `i` of the key (`major`, `minor`,
      `patch`), and `0` beyond. */
  function ReleaseField(c: Constraint, i: nat): nat {
    if i == 0 then c.major else if i == 1 then c.minor else if i == 2 then c.patch else 0
  }

  /** The constraints `from_string` can produce: at least one release
      segment, the release numbers that were not written are `0`, at most
      one pre-release field and at most one post-release field is set. */
  predicate Canonical(c: Constraint) {
    && 1 <= c.specificity
    && (forall i: nat :: c.specificity <= i < 3 ==> ReleaseField(c, i) == 0)
    && PreExclusive(c)
    && (c.post1 == MAX_VERSION || c.post2 == MAX_VERSION)
  }

  /** `"*" in raw_release`. */
  predicate HasWildcard(release: seq<string>) {
    exists i :: 0 <= i < |release| && '*' in release[i]
  }

  /** `int` of a release segment once every `*` has become `0`. */
  function SegmentValue(seg: string): nat
    requires forall k :: 0 <= k < |seg| ==> InClass(seg[k], DigitOrStar)
  {
    var ds := ReplaceChar(seg, '*', '0');
    assert forall k :: 0 <= k < |ds| ==> IsDigit(ds[k]) by {
      forall k | 0 <= k < |ds| ensures IsDigit(ds[k]) {
        assert InClass(seg[k], DigitOrStar);
      }
    }
    DecimalValue(ds)
  }

  /** `safe_int`: the number, or the default when the group is absent. */
  function NumberOr(ds: Option<string>, default: nat): nat
    requires NumberText(ds)
  {
    if ds.Some? then DecimalValue(ds.value) else default
  }

  /** The comparator after wildcard rewriting. */
  function EffectiveComparator(m: Match): string {
    if HasWildcard(m.release) then "~=" else m.comparator
  }

  /** The pre-release tags that name a constructor keyword: `a` and `b`
      through the label mapping, `rc` as itself. */
  predicate KnownTag(m: Match) {
    m.pre.None? || m.pre.value.tag in {"a", "b", "rc"}
  }

  /** The `i`-th release number, or `0` past the segments written: the
      release right-padded with zeros to three numbers. */
  function ReleaseAt(m: Match, i: nat): nat
    requires WellFormed(m)
  {
    if i < |m.release| then SegmentValue(m.release[i]) else 0
  }

  /** The pre-release field named `tag`, or the sentinel. */
  function PreField(m: Match, tag: string): nat
    requires WellFormed(m)
  {
    if m.pre.Some? && m.pre.value.tag == tag then NumberOr(m.pre.value.number, 0) else MAX_VERSION
  }

  /** The constructor call at the end of `from_string`, with the comparator
      check of `__post_init__`. An unknown pre-release keyword fails first,
      as Python rejects the call before the body runs. */
  function FromMatch(m: Match): (r: Result<Constraint>)
    requires WellFormed(m)
    ensures r.Ok? <==> KnownTag(m) && OpOf(EffectiveComparator(m)).Some?
    ensures r.Ok? ==> Canonical(r.value) && r.value.specificity == |m.release|
    ensures r.Ok? && HasWildcard(m.release) ==> r.value.op == Compatible
    ensures r.Ok? && m.comparator == "==" ==> r.value.op in {Eq, Compatible}
  {
    if !KnownTag(m) then Err(UnknownLabel(m.pre.value.tag))
    else
      var comparator := EffectiveComparator(m);
      match OpOf(comparator)
      case None => Err(UnknownComparator(comparator))
      case Some(op) =>
        Ok(Constraint(op,
          epoch := NumberOr(m.epoch, 0),
          major := ReleaseAt(m, 0), minor := ReleaseAt(m, 1), patch := ReleaseAt(m, 2),
          alpha := PreField(m, "a"), beta := PreField(m, "b"), rc := PreField(m, "rc"),
          post1 := NumberOr(m.postN1, MAX_VERSION),
          post2 := NumberOr(m.postN2, MAX_VERSION),
          dev := NumberOr(m.devN, MAX_VERSION),
          specificity := |m.release|))
  }

  /** `Constraint.from_string`. */
  function FromString(raw: string): (r: Result<Constraint>)
    ensures !Matches(raw) <==> r == Err(Malformed(raw))
    ensures r.Ok? <==> Matches(raw) && KnownTag(Scan(raw).value)
                       && OpOf(EffectiveComparator(Scan(raw).value)).Some?
    ensures r.Ok? ==> Canonical(r.value)
    ensures r.Ok? && HasWildcard(Scan(raw).value.release) ==> r.value.op == Compatible
    ensures r.Ok? && StartsWith(raw, "==") ==> r.value.op in {Eq, Compatible}
  {
    match Scan(raw)
    case None => Err(Malformed(raw))
    case Some(m) =>
      assert StartsWith(raw, "==") ==> m.comparator == "==" by {
        if StartsWith(raw, "==") {
          assert raw[1] == "=="[1];
        }
      }
      FromMatch(m)
  }

  /** The first `n` fields of a key, as Python's `t[:n]` (which stops at
      the end of the tuple). */
  function Prefix(t: seq<int>, n: nat): seq<int> {
    if n <= |t| then t[..n] else t
  }

  /** `_fuzzy_callback`: the candidate is not below the constraint and
      agrees with it on the first `specificity` key fields. */
  predicate FuzzyAccepts(specificity: nat, key: seq<int>, candidate: seq<int>) {
    Lex.LessEq(key, candidate, Lex.IntLess) && Prefix(candidate, specificity) == Prefix(key, specificity)
  }

  /** The bound method `__post_init__` picks: each comparator is a method of
      the constraint's tuple applied to the candidate's tuple, so `>` calls
      `key.__lt__(candidate)`. */
  predicate Accepts(c: Constraint, candidate: seq<int>) {
    var key := c.AsTuple();
    match c.op
    case Eq => key == candidate
    case Ne => key != candidate
    case Gt => Lex.Less(key, candidate, Lex.IntLess)
    case Ge => Lex.LessEq(key, candidate, Lex.IntLess)
    case Lt => Lex.Less(candidate, key, Lex.IntLess)
    case Le => Lex.LessEq(candidate, key, Lex.IntLess)
    case Compatible => FuzzyAccepts(c.specificity, key, candidate)
  }

  /** `likes_version`: the candidate is parsed as `==` followed by it, and
      a candidate that does not parse raises. */
  function LikesVersion(c: Constraint, version: string): (r: Result<bool>)
    ensures FromString("==" + version).Err? ==> r == Err(FromString("==" + version).error)
    ensures FromString("==" + version).Ok? ==> r.Ok?
  {
    match FromString("==" + version)
    case Err(e) => Err(e)
    case Ok(other) => Ok(Accepts(c, other.AsTuple()))
  }
}
