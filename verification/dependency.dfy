/** `Dependency`: a named requirement holding its parsed constraints, and
    the test of a candidate version against all of them. */
module Dependencies {
  import opened Results
  import opened Constraints

  /** One element of the `constraints` list handed to `Dependency`: the text
      the constructor expects, or a constraint object that was parsed
      already, which `re.match` inside `from_string` rejects. */
  datatype ConstraintArg = Raw(text: string) | Parsed(constraint: Constraint)

  /** `Constraint.from_string` applied to one list element. */
  function ParseArg(a: ConstraintArg): Result<Constraint> {
    match a
    case Raw(text) => FromString(text)
    case Parsed(_) => Err(NotAString)
  }

  /** The list comprehension in the constructor: the elements are parsed in
      order and the first failure propagates. */
  function ParseAll(args: seq<ConstraintArg>): (r: Result<seq<Constraint>>)
    ensures r.Ok? <==> forall i :: 0 <= i < |args| ==> ParseArg(args[i]).Ok?
    ensures r.Ok? ==> |r.value| == |args|
    ensures r.Ok? ==> forall i :: 0 <= i < |args| ==> ParseArg(args[i]) == Ok(r.value[i])
    ensures r.Err? ==> exists i :: 0 <= i < |args| && ParseArg(args[i]) == Err(r.error)
                          && forall j :: 0 <= j < i ==> ParseArg(args[j]).Ok?
  {
    var rs := seq(|args|, i requires 0 <= i < |args| => ParseArg(args[i]));
    assert forall i :: 0 <= i < |args| ==> rs[i] == ParseArg(args[i]);
    Collect(rs)
  }

  datatype Dependency = Dependency(
    name: Option<string>,
    constraints: seq<Constraint>,
    envMarkers: Option<map<string, string>>,
    extras: Option<seq<string>>,
    location: Option<string>,
    editable: bool)

  /** `Dependency.__init__`. A missing or empty constraint list gives no
      constraints; every other field is stored as given. */
  function New(name: Option<string>, constraints: Option<seq<ConstraintArg>>,
               envMarkers: Option<map<string, string>>, extras: Option<seq<string>>,
               location: Option<string>, editable: bool): (r: Result<Dependency>)
    ensures constraints.None? ==> r.Ok? && r.value.constraints == []
    ensures constraints.Some? ==>
      (r.Ok? <==> forall i :: 0 <= i < |constraints.value| ==> ParseArg(constraints.value[i]).Ok?)
    ensures r.Ok? && constraints.Some? ==>
      |r.value.constraints| == |constraints.value|
      && forall i :: 0 <= i < |constraints.value| ==> ParseArg(constraints.value[i]) == Ok(r.value.constraints[i])
    ensures r.Ok? ==> r.value.name == name && r.value.envMarkers == envMarkers && r.value.extras == extras
                      && r.value.location == location && r.value.editable == editable
    ensures (constraints.Some? && exists i :: 0 <= i < |constraints.value| && constraints.value[i].Parsed?)
            ==> r.Err?
  {
    var parsed := if constraints.None? || |constraints.value| == 0 then Ok([]) else ParseAll(constraints.value);
    match parsed
    case Err(e) => Err(e)
    case Ok(cs) => Ok(Dependency(name, cs, envMarkers, extras, location, editable))
  }

  /** Constraint objects handed back to the constructor never parse: the
      first one raises, whatever the other arguments are. */
  lemma NewRejectsParsed(name: Option<string>, args: seq<ConstraintArg>,
                         envMarkers: Option<map<string, string>>, extras: Option<seq<string>>,
                         location: Option<string>, editable: bool)
    requires 0 < |args| && forall i :: 0 <= i < |args| ==> args[i].Parsed?
    ensures New(name, Some(args), envMarkers, extras, location, editable) == Err(NotAString)
  {
    var r := ParseAll(args);
    assert ParseArg(args[0]).Err?;
    var i :| 0 <= i < |args| && ParseArg(args[i]) == Err(r.error);
  }

  /** `__str__`: the name, or `Undefined` when it is missing or empty. */
  function Str(d: Dependency): (r: string)
    ensures 0 < |r|
    ensures d.name.Some? && d.name.value != "" ==> r == d.name.value
    ensures d.name.None? || d.name.value == "" ==> r == "Undefined"
  {
    if d.name.Some? && d.name.value != "" then d.name.value else "Undefined"
  }

  /** `Dependency.likes_version`: `all(c.likes_version(version) for c in
      constraints)`, so the first constraint that rejects the version or
      raises decides. */
  function LikesVersion(d: Dependency, version: string): (r: Result<bool>)
    ensures |d.constraints| == 0 ==> r == Ok(true)
    ensures r == Ok(true) <==> forall i :: 0 <= i < |d.constraints| ==>
              Constraints.LikesVersion(d.constraints[i], version) == Ok(true)
  {
    AllOf(Verdicts(d.constraints, version))
  }

  /** What each constraint's `likes_version` returns for the version. */
  function Verdicts(cs: seq<Constraint>, version: string): (rs: seq<Result<bool>>)
    ensures |rs| == |cs|
    ensures forall i :: 0 <= i < |cs| ==> rs[i] == Constraints.LikesVersion(cs[i], version)
  {
    seq(|cs|, i requires 0 <= i < |cs| => Constraints.LikesVersion(cs[i], version))
  }

  /** The same test stated directly: the version is parsed once, and it is
      liked when every constraint accepts its key. */
  ghost function LikesAll(cs: seq<Constraint>, version: string): Result<bool> {
    if |cs| == 0 then Ok(true)
    else
      match FromString("==" + version)
      case Err(e) => Err(e)
      case Ok(other) => Ok(forall i :: 0 <= i < |cs| ==> Accepts(cs[i], other.AsTuple()))
  }

  /** With constraints, a version that does not parse raises the parse
      error from the first constraint. */
  lemma LikesUnparsable(d: Dependency, version: string, e: Error)
    requires 0 < |d.constraints| && FromString("==" + version) == Err(e)
    ensures LikesVersion(d, version) == Err(e)
  {
    var rs := Verdicts(d.constraints, version);
    forall i | 0 <= i < |rs| ensures rs[i] == Err(e) {
      VerdictOf(d.constraints[i], version);
    }
    AllOfError(rs, e);
  }

  /** A version that parses is liked exactly when every constraint accepts
      its key. */
  lemma LikesParsable(d: Dependency, version: string, other: Constraint)
    requires FromString("==" + version) == Ok(other)
    ensures LikesVersion(d, version) ==
              Ok(forall i :: 0 <= i < |d.constraints| ==> Accepts(d.constraints[i], other.AsTuple()))
  {
    var rs := Verdicts(d.constraints, version);
    forall i | 0 <= i < |rs| ensures rs[i] == Ok(Accepts(d.constraints[i], other.AsTuple())) {
      VerdictOf(d.constraints[i], version);
    }
    AllOfValues(rs);
  }

  /** One constraint's verdict, by the parse of the candidate. */
  lemma VerdictOf(c: Constraint, version: string)
    ensures Constraints.LikesVersion(c, version) ==
              match FromString("==" + version)
              case Err(e) => Err(e)
              case Ok(other) => Ok(Accepts(c, other.AsTuple()))
  {
  }

  /** Short-circuiting changes nothing: without constraints any text is
      liked, even one that does not parse; with constraints an unparsable
      version raises, and a parsable one is liked exactly when every
      constraint accepts it. */
  lemma LikesVersionParsesOnce(d: Dependency, version: string)
    ensures LikesVersion(d, version) == LikesAll(d.constraints, version)
  {
    if |d.constraints| > 0 {
      match FromString("==" + version)
      case Err(e) => LikesUnparsable(d, version, e);
      case Ok(other) => LikesParsable(d, version, other);
    }
  }

  /** Adding a constraint can only narrow the versions a dependency likes. */
  lemma LikesNarrowing(d: Dependency, c: Constraint, version: string)
    ensures LikesVersion(d.(constraints := d.constraints + [c]), version) == Ok(true) ==>
              LikesVersion(d, version) == Ok(true)
  {
    var e := d.(constraints := d.constraints + [c]);
    assert forall i :: 0 <= i < |d.constraints| ==> e.constraints[i] == d.constraints[i];
  }
}
