/** The older `Dependency` and `RequirementsFile.parse` of
    `severn/api/requirements.py`: every line that is not blank or a comment
    yields a dependency, a `-r` line included, and the markers stay a list
    of texts. */
module LegacyRequirements {
  import opened Text
  import opened Results
  import LC = LegacyConstraints
  import RequirementScan

  datatype Dependency = Dependency(
    name: Option<string>,
    constraints: Option<seq<LC.Constraint>>,
    envMarkers: Option<seq<string>>,
    extras: Option<seq<string>>,
    location: Option<string>,
    editable: bool)

  /** `[Constraint.from_string(c) for c in constraints]`, item by item. */
  function ParseEach(texts: seq<string>): (rs: seq<Result<LC.Constraint>>)
    ensures |rs| == |texts|
    ensures forall i :: 0 <= i < |texts| ==> rs[i] == LC.FromString(texts[i])
  {
    seq(|texts|, i requires 0 <= i < |texts| => LC.FromString(texts[i]))
  }

  /** `Dependency.__init__`: a missing or empty list of constraint texts
      leaves `constraints` as `None`; otherwise each text is parsed in
      order and the first failure propagates. */
  function New(name: Option<string>, constraints: Option<seq<string>>,
               envMarkers: Option<seq<string>>, extras: Option<seq<string>>,
               location: Option<string>, editable: bool): (r: Result<Dependency>)
    ensures constraints.None? || |constraints.value| == 0 ==> r.Ok? && r.value.constraints.None?
    ensures constraints.Some? ==>
      (r.Ok? <==> forall i :: 0 <= i < |constraints.value| ==> LC.FromString(constraints.value[i]).Ok?)
    ensures r.Ok? && constraints.Some? && 0 < |constraints.value| ==>
      && r.value.constraints.Some?
      && |r.value.constraints.value| == |constraints.value|
      && forall i :: 0 <= i < |constraints.value| ==>
           LC.FromString(constraints.value[i]) == Ok(r.value.constraints.value[i])
    ensures r.Ok? ==> r.value.name == name && r.value.envMarkers == envMarkers && r.value.extras == extras
                      && r.value.location == location && r.value.editable == editable
  {
    if constraints.None? || |constraints.value| == 0 then
      Ok(Dependency(name, None, envMarkers, extras, location, editable))
    else
      match Collect(ParseEach(constraints.value))
      case Err(e) => Err(e)
      case Ok(cs) => Ok(Dependency(name, Some(cs), envMarkers, extras, location, editable))
  }

  /** What each constraint's `likes_version` returns for the version. */
  function Verdicts(cs: seq<LC.Constraint>, version: string): (rs: seq<Result<bool>>)
    ensures |rs| == |cs|
    ensures forall i :: 0 <= i < |cs| ==> rs[i] == LC.LikesVersion(cs[i], version)
  {
    seq(|cs|, i requires 0 <= i < |cs| => LC.LikesVersion(cs[i], version))
  }

  /** `Dependency.likes_version`: without constraints every version is
      liked; otherwise the first constraint that rejects or raises
      decides. */
  function LikesVersion(d: Dependency, version: string): (r: Result<bool>)
    ensures d.constraints.None? ==> r == Ok(true)
    ensures d.constraints.Some? ==>
      (r == Ok(true) <==> forall i :: 0 <= i < |d.constraints.value| ==>
                            LC.LikesVersion(d.constraints.value[i], version) == Ok(true))
  {
    if d.constraints.None? || |d.constraints.value| == 0 then Ok(true)
    else AllOf(Verdicts(d.constraints.value, version))
  }

  /** `x.split(",") if x else None`. */
  function SplitOrNone(x: Option<string>): (r: Option<seq<string>>)
    ensures r.None? <==> x.None? || x.value == ""
    ensures r.Some? ==> 0 < |r.value| && Join(r.value, ',') == x.value
  {
    if x.Some? && x.value != "" then
      SplitJoin(x.value, ',');
      Some(Split(x.value, ','))
    else None
  }

  /** The constructor call the loop makes for a matched line, whatever the
      line holds: a `-r` or `-e` line gives a dependency without a name. */
  function FromGroups(g: RequirementScan.Groups): Result<Dependency> {
    New(g.package, SplitOrNone(Some(g.version)), SplitOrNone(g.envMarkers), SplitOrNone(g.extras),
        RequirementScan.Location(g), RequirementScan.Editable(g))
  }

  /** What one line contributes: nothing for a blank line or a comment;
      otherwise possibly a nested file, and always one constructor call. */
  datatype Step = Skip | Take(nested: Option<string>, dep: Result<Dependency>)

  /** One iteration of the loop. The whole file has had its spaces removed
      already, and the line is not stripped. */
  function StepOf(line: string): (s: Step)
    ensures s.Skip? <==> line == "" || StartsWith(line, "#")
  {
    if line == "" || StartsWith(line, "#") then Skip
    else
      var g := RequirementScan.Scan(line);
      var nested := if g.reqFile.Some? && g.reqFile.value != "" then g.reqFile else None;
      Take(nested, FromGroups(g))
  }

  type Files = map<string, string>

  /** `RequirementsFile(path).parse()`: the text loses every space, then is
      split into lines. A nested file is opened by the path as written.
      `fuel` bounds the nesting depth where Python would recurse without
      bound. */
  function ParseFile(files: Files, path: string, fuel: nat): Result<seq<Dependency>> {
    ParseFileWith(StepOf, files, path, fuel)
  }

  /** The loop for a one-line step `step`; the parser passes `StepOf`, and
      the lemmas below hold for every step. */
  function ParseFileWith(step: string -> Step, files: Files, path: string, fuel: nat): Result<seq<Dependency>>
    decreases fuel, 1, 0
  {
    if path !in files then Err(FileNotFound(path))
    else ParseLinesWith(step, files, Lines(RemoveChar(files[path], ' ')), fuel)
  }

  /** The nested file's dependencies, or none when the line names no file. */
  function Nested(step: string -> Step, files: Files, nested: Option<string>, fuel: nat): Result<seq<Dependency>>
    decreases fuel, 0, 0
  {
    if nested.None? then Ok([])
    else if fuel == 0 then Err(IncludeTooDeep(nested.value))
    else ParseFileWith(step, files, nested.value, fuel - 1)
  }

  /** A constructor outcome as a one-element list. */
  function Single(r: Result<Dependency>): (l: Result<seq<Dependency>>)
    ensures l.Ok? <==> r.Ok?
    ensures l.Ok? ==> l.value == [r.value]
    ensures l.Err? ==> l.error == r.error
  {
    if r.Err? then Err(r.error) else Ok([r.value])
  }

  function ParseLinesWith(step: string -> Step, files: Files, lines: seq<string>, fuel: nat)
    : Result<seq<Dependency>>
    decreases fuel, 0, |lines|
  {
    if |lines| == 0 then Ok([])
    else
      var rest := ParseLinesWith(step, files, lines[1..], fuel);
      match step(lines[0])
      case Skip => rest
      case Take(nested, dep) => Then(Nested(step, files, nested, fuel), Then(Single(dep), rest))
  }

  /** The loop is a fold: the lines of `a + b` give the dependencies of `a`
      followed by those of `b`, and an error in `a` comes first. */
  lemma {:induction false} ParseLinesAppend(step: string -> Step, files: Files,
                                            a: seq<string>, b: seq<string>, fuel: nat)
    ensures ParseLinesWith(step, files, a + b, fuel) ==
              Then(ParseLinesWith(step, files, a, fuel), ParseLinesWith(step, files, b, fuel))
    decreases |a|
  {
    var rb := ParseLinesWith(step, files, b, fuel);
    if |a| == 0 {
      assert a + b == b;
      if rb.Ok? {
        assert [] + rb.value == rb.value;
      }
    } else {
      assert (a + b)[0] == a[0] && (a + b)[1..] == a[1..] + b;
      ParseLinesAppend(step, files, a[1..], b, fuel);
      var tail := ParseLinesWith(step, files, a[1..], fuel);
      match step(a[0])
      case Skip =>
      case Take(nested, dep) =>
        var n := Nested(step, files, nested, fuel);
        ThenAssociative(Single(dep), tail, rb);
        ThenAssociative(n, Then(Single(dep), tail), rb);
    }
  }

  /** Lines that are not skipped. */
  function Taken(step: string -> Step, lines: seq<string>): (r: seq<string>)
    ensures |r| <= |lines|
    ensures forall i :: 0 <= i < |r| ==> step(r[i]).Take?
    decreases |lines|
  {
    if |lines| == 0 then []
    else if step(lines[0]).Skip? then Taken(step, lines[1..])
    else [lines[0]] + Taken(step, lines[1..])
  }

  predicate NoNest(step: string -> Step, lines: seq<string>) {
    forall i :: 0 <= i < |lines| ==> !(step(lines[i]).Take? && step(lines[i]).nested.Some?)
  }

  /** Without nested files, every line that is not blank or a comment gives
      exactly one dependency, in order. */
  lemma {:induction false} OnePerLine(step: string -> Step, files: Files, lines: seq<string>, fuel: nat)
    requires NoNest(step, lines)
    ensures ParseLinesWith(step, files, lines, fuel).Ok? ==>
              |ParseLinesWith(step, files, lines, fuel).value| == |Taken(step, lines)|
    ensures ParseLinesWith(step, files, lines, fuel).Ok? ==>
              forall i :: 0 <= i < |Taken(step, lines)| ==>
                step(Taken(step, lines)[i]).dep == Ok(ParseLinesWith(step, files, lines, fuel).value[i])
    decreases |lines|
  {
    if |lines| > 0 {
      assert NoNest(step, lines[1..]) by {
        forall i | 0 <= i < |lines[1..]|
          ensures !(step(lines[1..][i]).Take? && step(lines[1..][i]).nested.Some?)
        {
          assert lines[1..][i] == lines[i + 1];
        }
      }
      OnePerLine(step, files, lines[1..], fuel);
      match step(lines[0])
      case Skip =>
      case Take(nested, dep) =>
        var r := ParseLinesWith(step, files, lines, fuel);
        var rest := ParseLinesWith(step, files, lines[1..], fuel);
        assert nested.None? by {
          assert !(step(lines[0]).Take? && step(lines[0]).nested.Some?);
        }
        if r.Ok? {
          var t := Taken(step, lines);
          assert t == [lines[0]] + Taken(step, lines[1..]);
          assert r.value == [dep.value] + rest.value;
          forall i | 0 <= i < |t| ensures step(t[i]).dep == Ok(r.value[i]) {
            if i > 0 {
              assert t[i] == Taken(step, lines[1..])[i - 1];
              assert r.value[i] == rest.value[i - 1];
            }
          }
        }
    }
  }

  /** A `-r` line gives the nested file's dependencies followed by one of
      its own, built from the same line. */
  lemma IncludeKeepsOwn(step: string -> Step, files: Files, line: string, fuel: nat)
    requires step(line).Take? && step(line).nested.Some? && step(line).dep.Ok?
    ensures ParseLinesWith(step, files, [line], fuel + 1) ==
              Then(ParseFileWith(step, files, step(line).nested.value, fuel), Ok([step(line).dep.value]))
  {
    assert [line][1..] == [];
    assert [step(line).dep.value] + [] == [step(line).dep.value];
  }

  /** For the parser's own step, `-rPATH` names `PATH` and its own
      dependency has no name, no constraints and no location. */
  lemma IncludeLine(p: string)
    requires NoNewline(p) && p != ""
    ensures StepOf("-r" + p) == Take(Some(p), Ok(Dependency(None, None, None, None, None, false)))
  {
    RequirementScan.ScanInclude(p);
    assert !StartsWith("-r" + p, "#") by {
      assert ("-r" + p)[0] == '-';
    }
  }

  /** `-ePATH` is kept: a nameless editable dependency located at `PATH`. */
  lemma EditableLine(p: string)
    requires NoNewline(p) && p != ""
    ensures StepOf("-e" + p) == Take(None, Ok(Dependency(None, None, None, None, Some(p), true)))
  {
    RequirementScan.ScanEditable(p);
    assert !StartsWith("-e" + p, "#") by {
      assert ("-e" + p)[0] == '-';
    }
  }
}
