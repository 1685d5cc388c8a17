/** `RequirementsFile.parse`: each line of a requirements file is stripped,
    classified and, when it names a package, turned into a `Dependency`;
    a `-r` line splices in the dependencies of the file it names. The file
    system is a map from path to text, read with newlines as `\n`. */
module ReqFile {
  import opened Text
  import opened Results
  import opened Constraints
  import opened Dependencies
  import RequirementScan

  /** The fields the loop body passes to `Dependency` for one line. */
  datatype Entry = Entry(
    name: string,
    constraints: seq<string>,
    markers: map<string, string>,
    extras: seq<string>,
    location: Option<string>,
    editable: bool)

  /** What the loop does with one line: skip it, read a nested file, warn
      and skip it, or build a dependency. */
  datatype LineKind = Blank | Include(path: string) | Unsupported | Requirement(entry: Entry)

  /** `x.split(",") if x else []`. */
  function SplitOrEmpty(x: Option<string>): (r: seq<string>)
    ensures x.None? || x.value == "" <==> r == []
  {
    if x.Some? && x.value != "" then Split(x.value, ',') else []
  }

  /** The dictionary filled from the markers group, when it is not empty. */
  function MarkersOf(env: Option<string>): map<string, string> {
    if env.Some? && env.value != "" then RequirementScan.Markers(env.value) else map[]
  }

  /** The loop body up to the `Dependency` call: the line is stripped, and
      unless it is blank or a comment its spaces are removed and it is
      matched against the requirement pattern. */
  function Classify(raw: string): (k: LineKind)
    ensures k == Blank <==> Strip(raw) == "" || StartsWith(Strip(raw), "#")
    ensures k.Include? ==> k.path != ""
  {
    var line := Strip(raw);
    if line == "" || StartsWith(line, "#") then Blank
    else FromGroups(RequirementScan.Scan(RemoveChar(line, ' ')))
  }

  /** What the groups of a matched line ask for: a nested file when `-r`
      names one, a warning when no package was read, and otherwise the
      arguments of the constructor. */
  function FromGroups(g: RequirementScan.Groups): (k: LineKind)
    ensures k != Blank
    ensures k.Include? <==> g.reqFile.Some? && g.reqFile.value != ""
    ensures k.Include? ==> k.path == g.reqFile.value
    ensures k.Requirement? ==> g.package == Some(k.entry.name) && k.entry.name != ""
  {
    if g.reqFile.Some? && g.reqFile.value != "" then Include(g.reqFile.value)
    else if g.package.None? || g.package.value == "" then Unsupported
    else
      Requirement(Entry(
        name := g.package.value,
        constraints := if g.version != "" then Split(g.version, ',') else [],
        markers := MarkersOf(g.envMarkers),
        extras := SplitOrEmpty(g.extras),
        location := RequirementScan.Location(g),
        editable := RequirementScan.Editable(g)))
  }

  /** On one file line, a requirement never builds an editable dependency,
      since the `-e` group swallows the whole line and leaves no package,
      and its name is non-empty and free of spaces. */
  lemma ClassifyRequirement(raw: string)
    requires NoNewline(raw) && Classify(raw).Requirement?
    ensures var e := Classify(raw).entry; !e.editable && 0 < |e.name| && ' ' !in e.name
  {
    var line := Strip(raw);
    var squeezed := RemoveChar(line, ' ');
    StripNoNewline(raw);
    RemoveCharKeeps(line, ' ', '\n');
    RequirementScan.ScanPackageLeads(squeezed);
    var p := RequirementScan.Scan(squeezed).package.value;
    assert ' ' !in squeezed[..|p|];
  }

  /** Spaces anywhere in a line make no difference to what it is read as:
      stripping commutes with removing spaces, a stripped line starts with
      the same character once its inner spaces are gone, and removing the
      spaces twice is removing them once. */
  lemma SpacesIgnored(raw: string)
    ensures Classify(RemoveChar(raw, ' ')) == Classify(raw)
  {
    var m := Strip(raw);
    StripRemoveSpaces(raw);
    assert Strip(RemoveChar(raw, ' ')) == RemoveChar(m, ' ');
    if m != "" {
      assert IsSpace(' ');
      RemoveCharEnds(m, ' ');
      HashLead(m, RemoveChar(m, ' '));
    }
    RemoveCharIdempotent(m, ' ');
  }

  /** Two non-empty texts with the same first character both start with a
      `#` or neither does. */
  lemma HashLead(a: string, b: string)
    requires 0 < |a| && 0 < |b| && a[0] == b[0]
    ensures StartsWith(a, "#") <==> StartsWith(b, "#")
  {
    assert a[..1] == [a[0]] && b[..1] == [b[0]];
  }

  /** The line `docopt == 0.6.1` of the test file is read as the
      requirement `docopt` with the single constraint `==0.6.1`. */
  lemma DocoptLine(name: string, version: string)
    requires name == "docopt" && version == "0.6.1"
    ensures Classify(name + " " + "==" + " " + version)
            == Requirement(Entry(name, ["==" + version], map[], [], None, false))
  {
    var l := RequirementScan.Line(name, None, "==" + version, None);
    var raw := name + " " + "==" + " " + version;
    DocoptReadable(l);
    DocoptNoSpace(l);
    PinSpaces(name, "==", version);
    assert RequirementScan.TailText(l) == "==" + version;
    SpacesIgnored(raw);
    ClassifyReadable(l);
    SplitAbsent("==" + version, ',');
  }

  /** `name op version` loses exactly its two spaces. */
  lemma PinSpaces(name: string, op: string, version: string)
    requires ' ' !in name && ' ' !in op && ' ' !in version
    ensures RemoveChar(name + " " + op + " " + version, ' ') == name + (op + version)
  {
    assert name + " " + op + " " + version == name + " " + (op + " " + version);
    SpaceJoin(op, version);
    SpaceJoin(name, op + " " + version);
    RemoveCharAbsent(version, ' ');
  }

  lemma DocoptReadable(l: RequirementScan.Line)
    requires l == RequirementScan.Line("docopt", None, "==0.6.1", None)
    ensures RequirementScan.Readable(l) && !StartsWith(l.name, "#")
    ensures ' ' !in l.name && ' ' !in l.version && ',' !in l.version
  {
    assert l.name[..1] == "d";
    assert l.name[..2] == "do";
    assert l.name[1] != '/';
  }

  lemma DocoptNoSpace(l: RequirementScan.Line)
    requires l == RequirementScan.Line("docopt", None, "==0.6.1", None)
    ensures forall k :: 0 <= k < |RequirementScan.LineText(l)| ==> !IsSpace(RequirementScan.LineText(l)[k])
  {
    PrintableNoSpace(RequirementScan.LineText(l));
  }

  /** Text made of printable ASCII from `.` to `z` holds no whitespace. */
  lemma PrintableNoSpace(t: string)
    requires forall k :: 0 <= k < |t| ==> '.' <= t[k] <= 'z'
    ensures forall k :: 0 <= k < |t| ==> !IsSpace(t[k])
  {
  }

  /** Removing the spaces of `a b`, when `a` has none, keeps `a` and
      joins it to what is left of `b`. */
  lemma SpaceJoin(a: string, b: string)
    requires ' ' !in a
    ensures RemoveChar(a + " " + b, ' ') == a + RemoveChar(b, ' ')
  {
    RemoveCharAppend(a + " ", b, ' ');
    RemoveCharAppend(a, " ", ' ');
    RemoveCharAbsent(a, ' ');
  }

  /** A line of the usual form `name[extras]version;markers`, written
      without whitespace, is a requirement with exactly those fields: the
      version split at commas, the extras split at commas, the markers read
      into a dictionary, and no location. */
  lemma ClassifyReadable(l: RequirementScan.Line)
    requires RequirementScan.Readable(l) && !StartsWith(l.name, "#")
    requires forall k :: 0 <= k < |RequirementScan.LineText(l)| ==> !IsSpace(RequirementScan.LineText(l)[k])
    ensures Classify(RequirementScan.LineText(l)) == Requirement(Entry(
              name := l.name,
              constraints := if l.version != "" then Split(l.version, ',') else [],
              markers := MarkersOf(l.env),
              extras := SplitOrEmpty(l.extras),
              location := None,
              editable := false))
  {
    ReadableUntouched(l);
    RequirementScan.ScanLine(l);
    NameOnly(l.name, l.extras, l.version, l.env);
  }

  /** The groups of a line that names a package and no location. */
  lemma NameOnly(name: string, extras: Option<string>, version: string, env: Option<string>)
    requires name != ""
    ensures FromGroups(RequirementScan.Groups(None, None, None, None, None, Some(name), extras, None, version, env))
            == Requirement(Entry(
                 name := name,
                 constraints := if version != "" then Split(version, ',') else [],
                 markers := MarkersOf(env),
                 extras := SplitOrEmpty(extras),
                 location := None,
                 editable := false))
  {
  }

  /** Stripping and removing spaces leave such a line as it is, and it is
      neither blank nor a comment. */
  lemma ReadableUntouched(l: RequirementScan.Line)
    requires RequirementScan.Readable(l) && !StartsWith(l.name, "#")
    requires forall k :: 0 <= k < |RequirementScan.LineText(l)| ==> !IsSpace(RequirementScan.LineText(l)[k])
    ensures var t := RequirementScan.LineText(l);
      Strip(t) == t && RemoveChar(t, ' ') == t && t != "" && !StartsWith(t, "#")
  {
    var t := RequirementScan.LineText(l);
    StripNoSpace(t);
    assert ' ' !in t by {
      assert IsSpace(' ');
    }
    RemoveCharAbsent(t, ' ');
    assert t[..|l.name|] == l.name;
    assert t[0] == l.name[0];
  }

  /** The constraint texts as the constructor should receive them. */
  function Raws(texts: seq<string>): (args: seq<ConstraintArg>)
    ensures |args| == |texts|
    ensures forall i :: 0 <= i < |texts| ==> args[i] == Raw(texts[i])
  {
    seq(|texts|, i requires 0 <= i < |texts| => Raw(texts[i]))
  }

  /** The `Dependency` call with the constraint texts passed unparsed, so
      that the constructor parses each once. */
  function Build(e: Entry): (r: Result<Dependency>)
    ensures r.Ok? <==> forall i :: 0 <= i < |e.constraints| ==> FromString(e.constraints[i]).Ok?
    ensures r.Ok? ==> |r.value.constraints| == |e.constraints|
    ensures r.Ok? ==> forall i :: 0 <= i < |e.constraints| ==> FromString(e.constraints[i]) == Ok(r.value.constraints[i])
    ensures r.Ok? ==> r.value.name == Some(e.name) && r.value.envMarkers == Some(e.markers)
                      && r.value.extras == Some(e.extras) && r.value.location == e.location
                      && r.value.editable == e.editable
  {
    RawsParse(e.constraints);
    New(Some(e.name), Some(Raws(e.constraints)), Some(e.markers), Some(e.extras), e.location, e.editable)
  }

  /** Raw texts parse as the texts themselves, and none is a `Constraint`. */
  lemma RawsParse(texts: seq<string>)
    ensures forall i :: 0 <= i < |texts| ==> ParseArg(Raws(texts)[i]) == FromString(texts[i])
    ensures forall i :: 0 <= i < |texts| ==> !Raws(texts)[i].Parsed?
  {
  }

  /** `[Constraint.from_string(c) for c in constraints]`, item by item. */
  function ParseEach(texts: seq<string>): (rs: seq<Result<Constraint>>)
    ensures |rs| == |texts|
    ensures forall i :: 0 <= i < |texts| ==> rs[i] == FromString(texts[i])
  {
    seq(|texts|, i requires 0 <= i < |texts| => FromString(texts[i]))
  }

  /** Parsed constraints handed on as constructor arguments. */
  function AsArgs(cs: seq<Constraint>): (args: seq<ConstraintArg>)
    ensures |args| == |cs|
    ensures forall i :: 0 <= i < |cs| ==> args[i] == Parsed(cs[i])
  {
    seq(|cs|, i requires 0 <= i < |cs| => Parsed(cs[i]))
  }

  /** The `Dependency` call as written: the texts are parsed by the list
      comprehension at the call site, and the constructor then hands the
      resulting constraint objects to `from_string` again. */
  function BuildAsWritten(e: Entry): Result<Dependency> {
    match Collect(ParseEach(e.constraints))
    case Err(err) => Err(err)
    case Ok(cs) => New(Some(e.name), Some(AsArgs(cs)), Some(e.markers), Some(e.extras), e.location, e.editable)
  }

  /** As written, a line with any constraint never yields a dependency:
      either a text fails to parse and raises at the call site, or every
      one parses and the constructor's second parse rejects the objects. */
  lemma AsWrittenRejectsConstraints(e: Entry)
    requires 0 < |e.constraints|
    ensures BuildAsWritten(e).Err?
    ensures Build(e).Ok? ==> BuildAsWritten(e) == Err(NotAString)
  {
    AsWrittenOutcome(e);
    BuildParses(e);
  }

  /** The two ways the call as written fails. */
  lemma AsWrittenOutcome(e: Entry)
    requires 0 < |e.constraints|
    ensures Collect(ParseEach(e.constraints)).Err? ==>
              BuildAsWritten(e) == Err(Collect(ParseEach(e.constraints)).error)
    ensures Collect(ParseEach(e.constraints)).Ok? ==> BuildAsWritten(e) == Err(NotAString)
  {
    var parsed := Collect(ParseEach(e.constraints));
    if parsed.Ok? {
      NewRejectsParsed(Some(e.name), AsArgs(parsed.value), Some(e.markers), Some(e.extras), e.location, e.editable);
    }
  }

  /** When the corrected call succeeds, every text parses at the call site
      too. */
  lemma BuildParses(e: Entry)
    ensures Build(e).Ok? ==> Collect(ParseEach(e.constraints)).Ok?
  {
  }

  /** Without constraints the double parse never happens, and the call as
      written gives the intended dependency. */
  lemma AsWrittenWithoutConstraints(e: Entry)
    requires |e.constraints| == 0
    ensures BuildAsWritten(e) == Build(e)
    ensures Build(e).Ok?
  {
    assert ParseEach(e.constraints) == [];
    assert AsArgs([]) == [] && Raws(e.constraints) == [];
  }

  type Files = map<string, string>

  /** The index of the last `/` in `path`, if there is one. */
  function LastSlash(path: string): (r: Option<nat>)
    ensures r.None? <==> '/' !in path
    ensures r.Some? ==> r.value < |path| && path[r.value] == '/'
    ensures r.Some? ==> forall k :: r.value < k < |path| ==> path[k] != '/'
  {
    if |path| == 0 then None
    else if path[|path| - 1] == '/' then Some(|path| - 1)
    else
      var r := LastSlash(path[..|path| - 1]);
      assert r.None? ==> forall k :: 0 <= k < |path| ==> path[k] != '/' by {
        if r.None? {
          forall k | 0 <= k < |path| ensures path[k] != '/' {
            if k < |path| - 1 { assert path[k] == path[..|path| - 1][k]; }
          }
        }
      }
      r
  }

  /** The directory part of a path, `Path(p).parent`: the text before the
      last `/`, which is `/` itself for a file at the root, and `""` (the
      current directory) when there is no `/`. */
  function Parent(path: string): (r: string)
    ensures '/' !in path <==> r == ""
    ensures r == "/" ==> path[0] == '/' && forall k :: 1 < k < |path| ==> path[k] != '/'
    ensures r !in {"", "/"} ==> |r| < |path| && path[..|r|] == r && path[|r|] == '/'
    ensures r !in {"", "/"} ==> forall k :: |r| < k < |path| ==> path[k] != '/'
  {
    match LastSlash(path)
    case None => ""
    case Some(i) =>
      if i == 0 then "/"
      else
        assert path[..i][0] == path[0];
        path[..i]
  }

  /** `parent / name`: an absolute name replaces the directory, and the
      current directory adds nothing. */
  function JoinPath(dir: string, name: string): string {
    if dir == "" || StartsWith(name, "/") then name
    else if dir == "/" then "/" + name
    else dir + "/" + name
  }

  /** Joining a name without a `/` to a directory and taking the parent
      gives the directory back. */
  lemma ParentOfJoin(dir: string, name: string)
    requires '/' !in name
    ensures Parent(JoinPath(dir, name)) == dir
  {
    var p := JoinPath(dir, name);
    assert !StartsWith(name, "/") by {
      if 0 < |name| { assert name[0] in name; }
    }
    if dir == "/" {
      assert p == "/" + name;
      assert forall k :: 0 < k < |p| ==> p[k] == name[k - 1];
      assert LastSlash(p) == Some(0);
    } else if dir != "" {
      assert p == dir + "/" + name;
      assert p[|dir|] == '/';
      assert forall k :: |dir| < k < |p| ==> p[k] == name[k - |dir| - 1];
      assert LastSlash(p) == Some(|dir|);
      assert p[..|dir|] == dir;
    }
  }

  /** The nested file a `-r` line names: the path itself if it exists, else
      the path taken relative to the including file's directory. */
  function Resolve(files: Files, current: string, name: string): (r: string)
    ensures name in files ==> r == name
    ensures name !in files && (StartsWith(name, "/") || '/' !in current) ==> r == name
    ensures name !in files && !StartsWith(name, "/") && Parent(current) == "/" ==> r == "/" + name
    ensures name !in files && !StartsWith(name, "/") && Parent(current) !in {"", "/"} ==>
              r == Parent(current) + "/" + name
  {
    if name in files then name else JoinPath(Parent(current), name)
  }

  /** A nested name without a `/` that is not found as written lies in the
      including file's directory. */
  lemma ResolveSibling(files: Files, current: string, name: string)
    requires name !in files && '/' !in name
    ensures Parent(Resolve(files, current, name)) == Parent(current)
  {
    ParentOfJoin(Parent(current), name);
  }

  /** What one line contributes to the result: nothing, the dependencies
      of a nested file, or the outcome of one constructor call. */
  datatype Step = Skip | Nest(name: string) | Emit(dep: Result<Dependency>)

  /** One iteration of the loop: blank lines, comments and lines without a
      package are skipped (the latter with a warning), `-r` names a nested
      file, and a requirement line calls the constructor. */
  function StepOf(line: string): (s: Step)
    ensures s.Nest? <==> Classify(line).Include?
    ensures s.Emit? <==> Classify(line).Requirement?
    ensures s.Emit? ==> s.dep == Build(Classify(line).entry)
  {
    match Classify(line)
    case Blank => Skip
    case Unsupported => Skip
    case Include(name) => Nest(name)
    case Requirement(e) => Emit(Build(e))
  }

  /** `RequirementsFile(path).parse()`. Python recurses without bound and a
      cycle of `-r` lines ends in `RecursionError`; here `fuel` bounds the
      nesting depth. */
  function ParseFile(files: Files, path: string, fuel: nat): Result<seq<Dependency>> {
    ParseFileWith(StepOf, files, path, fuel)
  }

  /** The loop over the lines of a file, for the one-line step `step`; the
      parser passes `StepOf`, and the lemmas below hold for every step. */
  function ParseFileWith(step: string -> Step, files: Files, path: string, fuel: nat): Result<seq<Dependency>>
    decreases fuel, 1, 0
  {
    if path !in files then Err(FileNotFound(path))
    else ParseLinesWith(step, files, path, Lines(files[path]), fuel)
  }

  function ParseLinesWith(step: string -> Step, files: Files, path: string, lines: seq<string>, fuel: nat)
    : Result<seq<Dependency>>
    decreases fuel, 0, |lines|
  {
    if |lines| == 0 then Ok([])
    else
      var rest := ParseLinesWith(step, files, path, lines[1..], fuel);
      match step(lines[0])
      case Skip => rest
      case Nest(name) =>
        if fuel == 0 then Err(IncludeTooDeep(name))
        else Then(ParseFileWith(step, files, Resolve(files, path, name), fuel - 1), rest)
      case Emit(Err(err)) => Err(err)
      case Emit(Ok(d)) => Then(Ok([d]), rest)
  }

  /** The loop is a fold: the lines of `a + b` give the dependencies of `a`
      followed by those of `b`, and an error in `a` comes first. */
  lemma {:induction false} ParseLinesAppend(step: string -> Step, files: Files, path: string,
                                            a: seq<string>, b: seq<string>, fuel: nat)
    ensures ParseLinesWith(step, files, path, a + b, fuel) ==
              Then(ParseLinesWith(step, files, path, a, fuel), ParseLinesWith(step, files, path, b, fuel))
    decreases |a|
  {
    var rb := ParseLinesWith(step, files, path, b, fuel);
    if |a| == 0 {
      assert a + b == b;
      if rb.Ok? {
        assert [] + rb.value == rb.value;
      }
    } else {
      assert (a + b)[0] == a[0] && (a + b)[1..] == a[1..] + b;
      ParseLinesAppend(step, files, path, a[1..], b, fuel);
      var tail := ParseLinesWith(step, files, path, a[1..], fuel);
      match step(a[0])
      case Skip =>
      case Nest(name) =>
        if fuel > 0 {
          ThenAssociative(ParseFileWith(step, files, Resolve(files, path, name), fuel - 1), tail, rb);
        }
      case Emit(Err(_)) =>
      case Emit(Ok(d)) => ThenAssociative(Ok([d]), tail, rb);
    }
  }

  /** A `-r` line on its own gives exactly the nested file's result. */
  lemma IncludeSplices(step: string -> Step, files: Files, path: string, line: string, fuel: nat)
    requires step(line).Nest?
    ensures ParseLinesWith(step, files, path, [line], fuel + 1) ==
              ParseFileWith(step, files, Resolve(files, path, step(line).name), fuel)
  {
    var nested := ParseFileWith(step, files, Resolve(files, path, step(line).name), fuel);
    assert [line][1..] == [];
    if nested.Ok? {
      assert nested.value + [] == nested.value;
    }
  }

  /** The lines that contribute something. */
  function Contributing(step: string -> Step, lines: seq<string>): (r: seq<string>)
    ensures forall i :: 0 <= i < |r| ==> !step(r[i]).Skip?
    decreases |lines|
  {
    if |lines| == 0 then []
    else if step(lines[0]).Skip? then Contributing(step, lines[1..])
    else [lines[0]] + Contributing(step, lines[1..])
  }

  /** Blank lines, comments and lines without a package change nothing:
      the file parses as its contributing lines alone. */
  lemma {:induction false} SkippedLinesIgnored(step: string -> Step, files: Files, path: string,
                                               lines: seq<string>, fuel: nat)
    ensures ParseLinesWith(step, files, path, lines, fuel) ==
              ParseLinesWith(step, files, path, Contributing(step, lines), fuel)
    decreases |lines|
  {
    if |lines| > 0 {
      SkippedLinesIgnored(step, files, path, lines[1..], fuel);
      if !step(lines[0]).Skip? {
        var c := [lines[0]] + Contributing(step, lines[1..]);
        assert c[0] == lines[0] && c[1..] == Contributing(step, lines[1..]);
      }
    }
  }

  /** The constructor outcomes of the requirement lines, in order. */
  function Emitted(step: string -> Step, lines: seq<string>): seq<Result<Dependency>>
    decreases |lines|
  {
    if |lines| == 0 then []
    else match step(lines[0])
      case Emit(r) => [r] + Emitted(step, lines[1..])
      case _ => Emitted(step, lines[1..])
  }

  predicate NoNest(step: string -> Step, lines: seq<string>) {
    forall i :: 0 <= i < |lines| ==> !step(lines[i]).Nest?
  }

  /** Without `-r` lines, the file gives exactly the dependencies built from
      its requirement lines, in order, or the first constructor error. */
  lemma {:induction false} ParseWithoutIncludes(step: string -> Step, files: Files, path: string,
                                                lines: seq<string>, fuel: nat)
    requires NoNest(step, lines)
    ensures ParseLinesWith(step, files, path, lines, fuel) == Collect(Emitted(step, lines))
    decreases |lines|
  {
    if |lines| > 0 {
      assert NoNest(step, lines[1..]) by {
        forall i | 0 <= i < |lines[1..]| ensures !step(lines[1..][i]).Nest? {
          assert lines[1..][i] == lines[i + 1];
        }
      }
      assert !step(lines[0]).Nest?;
      ParseWithoutIncludes(step, files, path, lines[1..], fuel);
      match step(lines[0])
      case Emit(r) => CollectCons(r, Emitted(step, lines[1..]));
      case Skip =>
    }
  }

  /** Every dependency the parser returns, nested files included, carries a
      non-empty name without spaces and is not editable: the `-e`, wheel
      and URL lines never reach the constructor. */
  predicate WellNamed(d: Dependency) {
    d.name.Some? && 0 < |d.name.value| && ' ' !in d.name.value && !d.editable
  }

  predicate AllWellNamed(ds: seq<Dependency>) {
    forall i :: 0 <= i < |ds| ==> WellNamed(ds[i])
  }

  /** A step that only ever builds well-named dependencies from one line. */
  ghost predicate StepWellNamed(step: string -> Step) {
    forall line :: NoNewline(line) && step(line).Emit? && step(line).dep.Ok? ==> WellNamed(step(line).dep.value)
  }

  lemma StepOfWellNamed()
    ensures StepWellNamed(StepOf)
  {
    forall line | NoNewline(line) && StepOf(line).Emit? && StepOf(line).dep.Ok?
      ensures WellNamed(StepOf(line).dep.value)
    {
      ClassifyRequirement(line);
    }
  }

  lemma ThenWellNamed(a: Result<seq<Dependency>>, b: Result<seq<Dependency>>)
    requires a.Ok? ==> AllWellNamed(a.value)
    requires b.Ok? ==> AllWellNamed(b.value)
    ensures Then(a, b).Ok? ==> AllWellNamed(Then(a, b).value)
  {
    if a.Ok? && b.Ok? {
      var ab := a.value + b.value;
      assert forall i :: |a.value| <= i < |ab| ==> ab[i] == b.value[i - |a.value|];
    }
  }

  lemma {:induction false} FileWellNamed(step: string -> Step, files: Files, path: string, fuel: nat)
    requires StepWellNamed(step)
    ensures ParseFileWith(step, files, path, fuel).Ok? ==> AllWellNamed(ParseFileWith(step, files, path, fuel).value)
    decreases fuel, 1, 0
  {
    if path in files {
      LinesWellNamed(step, files, path, Lines(files[path]), fuel);
    }
  }

  lemma {:induction false} LinesWellNamed(step: string -> Step, files: Files, path: string,
                                          lines: seq<string>, fuel: nat)
    requires StepWellNamed(step)
    requires forall i :: 0 <= i < |lines| ==> NoNewline(lines[i])
    ensures ParseLinesWith(step, files, path, lines, fuel).Ok? ==>
              AllWellNamed(ParseLinesWith(step, files, path, lines, fuel).value)
    decreases fuel, 0, |lines|
  {
    if |lines| > 0 {
      var rest := ParseLinesWith(step, files, path, lines[1..], fuel);
      LinesWellNamed(step, files, path, lines[1..], fuel);
      match step(lines[0])
      case Skip =>
      case Nest(name) =>
        if fuel > 0 {
          FileWellNamed(step, files, Resolve(files, path, name), fuel - 1);
          ThenWellNamed(ParseFileWith(step, files, Resolve(files, path, name), fuel - 1), rest);
        }
      case Emit(Err(_)) =>
      case Emit(Ok(d)) => ThenWellNamed(Ok([d]), rest);
    }
  }

  /** The parser itself only returns well-named, non-editable
      dependencies. */
  lemma ParseFileWellNamed(files: Files, path: string, fuel: nat)
    ensures ParseFile(files, path, fuel).Ok? ==> AllWellNamed(ParseFile(files, path, fuel).value)
  {
    StepOfWellNamed();
    FileWellNamed(StepOf, files, path, fuel);
  }
}
