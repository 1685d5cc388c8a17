/** A deterministic scanner for the requirement-line grammar
    `REQUIREMENT_PATTERN` and the environment-marker grammar
    `ENV_MARKER_PATTERN`, shared by the current and the legacy requirements
    file parsers. Every group of the line grammar is optional and every
    quantifier greedy, so Python's backtracking `re.match` returns the
    greedy choice at each group: the stages below read the unmatched
    remainder in order. `.` stops at a newline; the negated classes do not. */
module RequirementScan {
  import opened Text
  import opened Results

  /** The named groups of one match; `None` for a group that took no part.
      The version group `[^;]*` always takes part, possibly empty. */
  datatype Groups = Groups(
    reqFile: Option<string>,
    conFile: Option<string>,
    editable: Option<string>,
    wheel: Option<string>,
    distUrl: Option<string>,
    package: Option<string>,
    extras: Option<string>,
    packageUrl: Option<string>,
    version: string,
    envMarkers: Option<string>)

  /** `(?:<lit>(?P<g>.*))?`: when the text starts with `lit`, the rest of the
      line after it. */
  function Flagged(t: string, lit: string): (r: (Option<string>, string))
    ensures r.0.Some? <==> StartsWith(t, lit)
    ensures r.0.Some? ==> t == lit + r.0.value + r.1 && NoNewline(r.0.value)
                          && (|r.1| == 0 || r.1[0] == '\n')
    ensures r.0.Some? && NoNewline(t) ==> r.0.value == t[|lit|..] && r.1 == ""
    ensures r.0.None? ==> r.1 == t
  {
    if StartsWith(t, lit) then
      var u := t[|lit|..];
      var n := LineRun(u);
      assert t == lit + u[..n] + u[n..];
      (Some(u[..n]), u[n..])
    else (None, t)
  }

  /** `(?P<wheel>(?:./).*)?`: any character but a newline, a slash, and the
      rest of the line. */
  function Wheel(t: string): (r: (Option<string>, string))
    ensures r.0.Some? <==> 2 <= |t| && t[0] != '\n' && t[1] == '/'
    ensures r.0.Some? ==> t == r.0.value + r.1 && NoNewline(r.0.value)
    ensures r.0.Some? && NoNewline(t) ==> r.1 == ""
    ensures r.0.None? ==> r.1 == t
  {
    if 2 <= |t| && t[0] != '\n' && t[1] == '/' then
      var n := 2 + LineRun(t[2..]);
      assert n < |t| ==> t[n] == t[2..][n - 2];
      assert t == t[..n] + t[n..];
      (Some(t[..n]), t[n..])
    else (None, t)
  }

  /** `(?P<dist_url>(?:https?://).*)?`. */
  function DistUrl(t: string): (r: (Option<string>, string))
    ensures r.0.Some? <==> StartsWith(t, "https://") || StartsWith(t, "http://")
    ensures r.0.Some? ==> t == r.0.value + r.1 && NoNewline(r.0.value)
    ensures r.0.Some? && NoNewline(t) ==> r.1 == ""
    ensures r.0.None? ==> r.1 == t
  {
    var k := if StartsWith(t, "https://") then 8 else if StartsWith(t, "http://") then 7 else 0;
    if k == 0 then (None, t)
    else
      var u := t[k..];
      var n := LineRun(u);
      assert n < |u| ==> u[n] == t[k + n];
      assert t[..k] == (if k == 8 then "https://" else "http://");
      assert NoNewline(t[..k] + u[..n]);
      assert t == t[..k] + u[..n] + u[n..];
      (Some(t[..k] + u[..n]), u[n..])
  }

  /** `(?P<package>[^\[<>~=!@;]+)?`. */
  function Package(t: string): (r: (Option<string>, string))
    ensures r.0.Some? <==> 0 < |t| && InClass(t[0], PackageChar)
    ensures r.0.Some? ==> t == r.0.value + r.1 && 0 < |r.0.value|
                          && (forall k :: 0 <= k < |r.0.value| ==> InClass(r.0.value[k], PackageChar))
                          && (|r.1| == 0 || !InClass(r.1[0], PackageChar))
    ensures r.0.None? ==> r.1 == t
  {
    var n := Run(t, PackageChar);
    assert t == t[..n] + t[n..];
    if 0 < n then (Some(t[..n]), t[n..]) else (None, t)
  }

  /** The position of the last `]` in `s`. */
  function LastBracket(s: string): (r: Option<nat>)
    ensures r.Some? ==> r.value < |s| && s[r.value] == ']'
                        && forall k :: r.value < k < |s| ==> s[k] != ']'
    ensures r.None? ==> ']' !in s
  {
    if |s| == 0 then None
    else if s[|s| - 1] == ']' then Some(|s| - 1)
    else
      var r := LastBracket(s[..|s| - 1]);
      assert s[..|s| - 1] + [s[|s| - 1]] == s;
      r
  }

  /** `(?:\[(?P<extras>.*)\])?`: the greedy `.*` gives back characters until
      a `]` follows, so the extras end at the last `]` of the line. */
  function Extras(t: string): (r: (Option<string>, string))
    ensures r.0.Some? ==> t == "[" + r.0.value + "]" + r.1 && NoNewline(r.0.value)
    ensures r.0.Some? ==> forall k :: 0 <= k < LineRun(r.1) ==> r.1[k] != ']'
    ensures r.0.None? ==> r.1 == t
    ensures r.0.None? && 0 < |t| && t[0] == '[' ==> ']' !in t[1..][..LineRun(t[1..])]
  {
    if 0 < |t| && t[0] == '[' then
      var u := t[1..];
      var n := LineRun(u);
      match LastBracket(u[..n])
      case None => (None, t)
      case Some(j) =>
        assert u[..j] == u[..n][..j];
        assert t == "[" + u[..j] + "]" + u[j + 1..];
        var rest := u[j + 1..];
        RunAfter(u, j, rest);
        (Some(u[..j]), rest)
    else (None, t)
  }

  /** Past a position inside the line's run, the rest of the run is the
      run of the remaining text, and holds no `]` if the run holds none
      after the position. */
  lemma RunAfter(u: string, j: nat, rest: string)
    requires j < LineRun(u) && rest == u[j + 1..]
    requires forall k :: j < k < LineRun(u) ==> u[..LineRun(u)][k] != ']'
    ensures LineRun(rest) == LineRun(u) - j - 1
    ensures forall k :: 0 <= k < LineRun(rest) ==> rest[k] != ']'
  {
    var n := LineRun(u);
    assert n < |u| ==> rest[n - j - 1] == u[n];
    RunUnique(rest, NotNewline, n - j - 1);
    forall k | 0 <= k < n - j - 1 ensures rest[k] != ']' {
      assert rest[k] == u[..n][j + 1 + k];
    }
  }

  /** `(?P<version>[^;]*)?`. */
  function Version(t: string): (r: (string, string))
    ensures t == r.0 + r.1 && ';' !in r.0
    ensures |r.1| == 0 || r.1[0] == ';'
  {
    var n := Run(t, NotSemicolon);
    assert t == t[..n] + t[n..];
    assert forall k :: 0 <= k < n ==> t[..n][k] != ';' by {
      forall k | 0 <= k < n ensures t[..n][k] != ';' {
        assert InClass(t[k], NotSemicolon);
      }
    }
    (t[..n], t[n..])
  }

  /** Python's `a or b` on an optional string. */
  function Or(a: Option<string>, b: Option<string>): (r: Option<string>)
    ensures r == a || r == b
    ensures (a.Some? && a.value != "") <==> r == a && r.Some? && r.value != ""
  {
    if a.Some? && a.value != "" then a else b
  }

  /** `REQUIREMENT_PATTERN.match(line)`: it always matches, since every
      group is optional. */
  function Scan(line: string): (g: Groups)
    ensures g.reqFile.Some? <==> StartsWith(line, "-r")
    ensures g.reqFile.Some? && NoNewline(line) ==> g.reqFile.value == line[2..]
  {
    var (reqFile, t1) := Flagged(line, "-r");
    var (conFile, t2) := Flagged(t1, "-c");
    var (editable, t3) := Flagged(t2, "-e");
    var (wheel, t4) := Wheel(t3);
    var (distUrl, t5) := DistUrl(t4);
    var (package, t6) := Package(t5);
    var (extras, t7) := Extras(t6);
    var (packageUrl, t8) := Flagged(t7, "@");
    var (version, t9) := Version(t8);
    var (env, _) := Flagged(t9, ";");
    Groups(reqFile, conFile, editable, wheel, distUrl, package, extras, packageUrl, version, env)
  }

  /** On one line, the `-r`, `-c`, `-e`, wheel and URL groups each run to
      the end of the line, so none of them leaves a package name. */
  lemma LeadingGroupsExclude(line: string)
    requires NoNewline(line)
    ensures var g := Scan(line);
      (g.reqFile.Some? || g.conFile.Some? || g.editable.Some? || g.wheel.Some? || g.distUrl.Some?)
      ==> g.package.None?
  {
    var (reqFile, t1) := Flagged(line, "-r");
    var (conFile, t2) := Flagged(t1, "-c");
    var (editable, t3) := Flagged(t2, "-e");
    var (wheel, t4) := Wheel(t3);
    var (distUrl, t5) := DistUrl(t4);
    assert NoNewline(t1) && NoNewline(t2) && NoNewline(t3) && NoNewline(t4);
    if reqFile.Some? || conFile.Some? || editable.Some? || wheel.Some? || distUrl.Some? {
      assert t5 == "";
    }
  }

  /** On one line, a package name is read from the very start of the line:
      none of the leading groups matched. */
  lemma ScanPackageLeads(line: string)
    requires NoNewline(line) && Scan(line).package.Some?
    ensures var p := Scan(line).package.value; |p| <= |line| && line[..|p|] == p
    ensures Scan(line).editable.None?
  {
    LeadingGroupsExclude(line);
    var (reqFile, t1) := Flagged(line, "-r");
    var (conFile, t2) := Flagged(t1, "-c");
    var (editable, t3) := Flagged(t2, "-e");
    var (wheel, t4) := Wheel(t3);
    var (distUrl, t5) := DistUrl(t4);
    var (package, t6) := Package(t5);
    assert t5 == line;
  }

  /** `editable or wheel or dist_url or package_url`: the first of the
      location groups that matched something. */
  function Location(g: Groups): (r: Option<string>)
    ensures Filled(r) <==> Filled(g.editable) || Filled(g.wheel) || Filled(g.distUrl) || Filled(g.packageUrl)
    ensures Filled(g.editable) ==> r == g.editable
    ensures !Filled(g.editable) && Filled(g.wheel) ==> r == g.wheel
    ensures !Filled(g.editable) && !Filled(g.wheel) && Filled(g.distUrl) ==> r == g.distUrl
    ensures !Filled(g.editable) && !Filled(g.wheel) && !Filled(g.distUrl) ==> r == g.packageUrl
  {
    Or(g.editable, Or(g.wheel, Or(g.distUrl, g.packageUrl)))
  }

  /** A group that matched a non-empty text, so that Python reads it as
      true. */
  predicate Filled(o: Option<string>) {
    o.Some? && o.value != ""
  }

  /** `bool(editable)`. */
  predicate Editable(g: Groups) {
    Filled(g.editable)
  }

  /** The groups read from the empty remainder: none matched, and the
      version is empty. */
  lemma ScanRest(t: string)
    requires t == ""
    ensures Wheel(t) == (None, t) && DistUrl(t) == (None, t) && Package(t) == (None, t)
    ensures Extras(t) == (None, t) && Version(t) == ("", "")
    ensures Flagged(t, "-c") == (None, t) && Flagged(t, "-e") == (None, t)
    ensures Flagged(t, "@") == (None, t) && Flagged(t, ";") == (None, t)
  {
    assert !StartsWith(t, "-c") && !StartsWith(t, "-e") && !StartsWith(t, "@") && !StartsWith(t, ";");
  }

  /** A `-r` line is read as a nested file name and nothing else: the group
      runs to the end of the line. */
  lemma ScanInclude(p: string)
    requires NoNewline(p)
    ensures Scan("-r" + p) == Groups(Some(p), None, None, None, None, None, None, None, "", None)
  {
    var line := "-r" + p;
    assert NoNewline(line);
    assert StartsWith(line, "-r");
    assert line[2..] == p;
    ScanRest("");
  }

  /** A `-e` line is read as an editable location and nothing else. */
  lemma ScanEditable(p: string)
    requires NoNewline(p)
    ensures Scan("-e" + p) == Groups(None, None, Some(p), None, None, None, None, None, "", None)
  {
    var line := "-e" + p;
    assert NoNewline(line);
    assert !StartsWith(line, "-r") && !StartsWith(line, "-c") by {
      assert line[1] == 'e';
    }
    assert StartsWith(line, "-e");
    assert line[2..] == p;
    ScanRest("");
  }

  /** A requirement line of the usual form `name[extras]version;markers`,
      with the brackets and the markers optional. */
  datatype Line = Line(name: string, extras: Option<string>, version: string, env: Option<string>)

  /** Comparator characters: the ones a version part may start with. */
  predicate IsComparatorStart(c: char) {
    c in {'<', '>', '~', '=', '!'}
  }

  function ExtrasText(e: Option<string>): string {
    if e.Some? then "[" + e.value + "]" else ""
  }

  function EnvText(e: Option<string>): string {
    if e.Some? then ";" + e.value else ""
  }

  /** The text after the name. */
  function TailText(l: Line): string {
    ExtrasText(l.extras) + (l.version + EnvText(l.env))
  }

  function LineText(l: Line): string {
    l.name + TailText(l)
  }

  /** The names that no earlier group claims: not `-r`, `-c` or `-e`, not a
      path whose second character is `/`, not an `http(s)://` URL. */
  predicate PlainName(name: string) {
    && 0 < |name|
    && (forall k :: 0 <= k < |name| ==> InClass(name[k], PackageChar))
    && !StartsWith(name, "-r") && !StartsWith(name, "-c") && !StartsWith(name, "-e")
    && !(2 <= |name| && name[1] == '/')
    && !StartsWith(name, "https://") && !StartsWith(name, "http://")
  }

  /** The lines the grammar reads back field by field: no newline, a version
      that starts with a comparator character and holds no `;`, and, after
      extras, no `]` that would extend them. */
  predicate Readable(l: Line) {
    && PlainName(l.name)
    && NoNewline(l.name) && NoNewline(l.version)
    && (l.extras.Some? ==> NoNewline(l.extras.value))
    && (l.env.Some? ==> NoNewline(l.env.value))
    && ';' !in l.version
    && (l.version == "" || IsComparatorStart(l.version[0]))
    && (l.extras.Some? ==> ']' !in l.version && (l.env.Some? ==> ']' !in l.env.value))
  }

  /** A literal made of name characters starts `name + tail` only if it
      starts `name`, when `tail` does not start with a name character. */
  lemma NotPrefix(name: string, tail: string, lit: string)
    requires forall k :: 0 <= k < |lit| ==> InClass(lit[k], PackageChar)
    requires |tail| == 0 || !InClass(tail[0], PackageChar)
    requires !StartsWith(name, lit)
    ensures !StartsWith(name + tail, lit)
  {
    if |lit| <= |name| + |tail| {
      if |lit| <= |name| {
        assert (name + tail)[..|lit|] == name[..|lit|];
      } else {
        assert (name + tail)[|name|] == tail[0];
        assert |lit| <= |name + tail| ==> (name + tail)[..|lit|][|name|] == (name + tail)[|name|];
      }
    }
  }

  /** The last `]` of a text that has none after position `j`. */
  lemma {:induction false} LastBracketAt(s: string, j: nat)
    requires j < |s| && s[j] == ']' && forall k :: j < k < |s| ==> s[k] != ']'
    ensures LastBracket(s) == Some(j)
    decreases |s|
  {
    if j < |s| - 1 {
      LastBracketAt(s[..|s| - 1], j);
    }
  }

  lemma TailStart(l: Line)
    requires Readable(l)
    ensures var t := TailText(l); |t| == 0 || !InClass(t[0], PackageChar)
    ensures var t := TailText(l); |t| == 0 || t[0] != '/'
  {
    var t := TailText(l);
    if l.extras.Some? {
      assert t[0] == '[';
    } else if l.version != "" {
      assert t[0] == l.version[0];
    } else if l.env.Some? {
      assert t[0] == ';';
    }
  }

  /** The newline-free text after the extras. */
  lemma VersionEnvText(l: Line)
    requires Readable(l)
    ensures NoNewline(l.version + EnvText(l.env))
    ensures l.extras.Some? ==> ']' !in l.version + EnvText(l.env)
  {
    var ve := l.version + EnvText(l.env);
    forall k | 0 <= k < |ve| ensures ve[k] != '\n' && (l.extras.Some? ==> ve[k] != ']') {
      if k < |l.version| {
        assert ve[k] == l.version[k];
      } else {
        assert ve[k] == EnvText(l.env)[k - |l.version|];
        if k > |l.version| {
          assert ve[k] == l.env.value[k - |l.version| - 1];
        }
      }
    }
  }

  /** The extras group reads back the extras, and leaves the version and
      markers. */
  lemma ScanExtras(l: Line)
    requires Readable(l)
    ensures Extras(TailText(l)) == (l.extras, l.version + EnvText(l.env))
  {
    var t := TailText(l);
    var ve := l.version + EnvText(l.env);
    VersionEnvText(l);
    if l.extras.Some? {
      assert t == "[" + l.extras.value + "]" + ve;
      ExtrasOf(l.extras.value, ve);
    } else {
      assert t == ve;
      if 0 < |t| {
        assert t[0] != '[' by { TailStart(l); }
      }
    }
  }

  /** Bracketed extras followed by a text without `]` read back as such,
      whatever the extras hold. */
  lemma ExtrasOf(e: string, ve: string)
    requires NoNewline(e) && NoNewline(ve) && ']' !in ve
    ensures Extras("[" + e + "]" + ve) == (Some(e), ve)
  {
    var t := "[" + e + "]" + ve;
    var u := t[1..];
    assert u == e + "]" + ve;
    JoinNoNewline(e, ve);
    RunUnique(u, NotNewline, |u|);
    assert u[..|u|] == u;
    assert forall k :: |e| < k < |u| ==> u[k] == ve[k - |e| - 1];
    LastBracketAt(u, |e|);
    assert u[..|e|] == e;
    assert u[|e| + 1..] == ve;
  }

  lemma JoinNoNewline(e: string, ve: string)
    requires NoNewline(e) && NoNewline(ve)
    ensures NoNewline(e + "]" + ve)
  {
    var u := e + "]" + ve;
    forall k | 0 <= k < |u| ensures u[k] != '\n' {
      if k < |e| { assert u[k] == e[k]; }
      else if k > |e| { assert u[k] == ve[k - |e| - 1]; }
    }
  }

  /** The version group and the markers group read back their parts. */
  lemma ScanVersionEnv(l: Line)
    requires Readable(l)
    ensures Version(l.version + EnvText(l.env)) == (l.version, EnvText(l.env))
    ensures Flagged(EnvText(l.env), ";").0 == l.env
  {
    var et := EnvText(l.env);
    assert forall k :: 0 <= k < |l.version| ==> InClass(l.version[k], NotSemicolon);
    RunOfConcat(l.version, et, NotSemicolon);
    if l.env.Some? {
      assert NoNewline(et) by {
        forall k | 0 <= k < |et| ensures et[k] != '\n' {
          if k > 0 { assert et[k] == l.env.value[k - 1]; }
        }
      }
      assert et[1..] == l.env.value;
    }
  }

  /** The groups before the name take no part in a readable line. */
  lemma ScanBeforeName(l: Line)
    requires Readable(l)
    ensures var text := LineText(l);
      && Flagged(text, "-r") == (None, text) && Flagged(text, "-c") == (None, text)
      && Flagged(text, "-e") == (None, text) && Wheel(text) == (None, text)
      && DistUrl(text) == (None, text)
  {
    var text := LineText(l);
    var tail := TailText(l);
    TailStart(l);
    NotPrefix(l.name, tail, "-r");
    NotPrefix(l.name, tail, "-c");
    NotPrefix(l.name, tail, "-e");
    NotPrefix(l.name, tail, "https://");
    NotPrefix(l.name, tail, "http://");
    assert !(2 <= |text| && text[1] == '/') by {
      if 2 <= |text| {
        if 2 <= |l.name| { assert text[1] == l.name[1]; } else { assert text[1] == tail[0]; }
      }
    }
  }

  /** The groups from the name on read back the parts. */
  lemma ScanFromName(l: Line)
    requires Readable(l)
    ensures Package(LineText(l)) == (Some(l.name), TailText(l))
    ensures Extras(TailText(l)) == (l.extras, l.version + EnvText(l.env))
    ensures Flagged(l.version + EnvText(l.env), "@") == (None, l.version + EnvText(l.env))
    ensures Version(l.version + EnvText(l.env)) == (l.version, EnvText(l.env))
    ensures Flagged(EnvText(l.env), ";").0 == l.env
  {
    ScanPackage(l);
    ScanExtras(l);
    NoPackageUrl(l);
    ScanVersionEnv(l);
  }

  lemma ScanPackage(l: Line)
    requires Readable(l)
    ensures Package(LineText(l)) == (Some(l.name), TailText(l))
  {
    TailStart(l);
    RunOfConcat(l.name, TailText(l), PackageChar);
  }

  /** The version starts with a comparator character and the markers with
      `;`, so no `@` group follows the extras. */
  lemma NoPackageUrl(l: Line)
    requires Readable(l)
    ensures Flagged(l.version + EnvText(l.env), "@") == (None, l.version + EnvText(l.env))
  {
    var ve := l.version + EnvText(l.env);
    assert !StartsWith(ve, "@") by {
      if 0 < |ve| {
        if l.version != "" {
          assert ve[0] == l.version[0];
          assert IsComparatorStart(ve[0]);
        } else {
          assert ve[0] == ';';
        }
        assert ve[..1][0] == ve[0] != '@';
      }
    }
  }

  /** Scanning a readable line gives back its parts, and no other group
      takes part. */
  lemma ScanLine(l: Line)
    requires Readable(l)
    ensures Scan(LineText(l)) ==
      Groups(None, None, None, None, None, Some(l.name), l.extras, None, l.version, l.env)
  {
    ScanBeforeName(l);
    ScanFromName(l);
  }

  /** `ENV_MARKER_PATTERN.match(marker)`: a non-empty run of characters
      other than comparator characters, then the rest of the line. */
  function MarkerMatch(m: string): (r: Option<(string, string)>)
    ensures r.Some? <==> 0 < |m| && InClass(m[0], MarkerKeyChar)
    ensures r.Some? ==> 0 < |r.value.0| && forall k :: 0 <= k < |r.value.0| ==> InClass(r.value.0[k], MarkerKeyChar)
    ensures r.Some? && NoNewline(m) ==> r.value.0 + r.value.1 == m
  {
    var n := Run(m, MarkerKeyChar);
    if n == 0 then None
    else
      var rest := m[n..];
      var v := rest[..LineRun(rest)];
      assert NoNewline(m) ==> LineRun(rest) == |rest| by {
        if NoNewline(m) {
          assert forall k :: 0 <= k < |rest| ==> rest[k] == m[n + k];
          RunUnique(rest, NotNewline, |rest|);
        }
      }
      assert NoNewline(m) ==> m[..n] + v == m by {
        if NoNewline(m) { assert v == rest; }
      }
      Some((m[..n], v))
  }

  /** One marker: quotes removed, then matched. */
  function Marker(part: string): Option<(string, string)> {
    MarkerMatch(RemoveChar(RemoveChar(part, '\''), '"'))
  }

  /** A marker's key is non-empty and free of quotes. */
  lemma MarkerKey(part: string)
    requires Marker(part).Some?
    ensures var k := Marker(part).value.0; 0 < |k| && '\'' !in k && '"' !in k
  {
    var m := RemoveChar(RemoveChar(part, '\''), '"');
    var k := Marker(part).value.0;
    RemoveCharKeeps(RemoveChar(part, '\''), '"', '\'');
    assert k == m[..|k|];
  }

  /** The marker loop: each match is stored under its key, a later marker
      overwriting an earlier one with the same key; markers that do not
      match are skipped. */
  function AddMarkers(parts: seq<string>, acc: map<string, string>): (r: map<string, string>)
    ensures forall k :: k in acc ==> k in r
    ensures forall k :: k in r && k !in acc ==> 0 < |k| && '\'' !in k && '"' !in k
    decreases |parts|
  {
    if |parts| == 0 then acc
    else if Marker(parts[0]).None? then AddMarkers(parts[1..], acc)
    else
      var kv := Marker(parts[0]).value;
      MarkerKey(parts[0]);
      AddMarkers(parts[1..], acc[kv.0 := kv.1])
  }

  /** The environment markers of one line, from the text after `;`. */
  function Markers(env: string): map<string, string> {
    AddMarkers(Split(env, ','), map[])
  }

  /** A marker `key` + `value` as written in a requirements file: a key of
      non-comparator characters, a value that starts with a comparator
      character, and neither holding a quote, a comma or a newline. */
  predicate PlainMarker(kv: (string, string)) {
    && 0 < |kv.0|
    && (forall k :: 0 <= k < |kv.0| ==> InClass(kv.0[k], MarkerKeyChar))
    && '\'' !in kv.0 + kv.1 && '"' !in kv.0 + kv.1 && ',' !in kv.0 + kv.1
    && NoNewline(kv.1)
    && (kv.1 == "" || !InClass(kv.1[0], MarkerKeyChar))
  }

  function MarkerTexts(pairs: seq<(string, string)>): (texts: seq<string>)
    ensures |texts| == |pairs|
    ensures forall i :: 0 <= i < |pairs| ==> texts[i] == pairs[i].0 + pairs[i].1
  {
    seq(|pairs|, i requires 0 <= i < |pairs| => pairs[i].0 + pairs[i].1)
  }

  /** Reference definition: the pairs stored in order into a dictionary. */
  function StorePairs(pairs: seq<(string, string)>, acc: map<string, string>): map<string, string>
    decreases |pairs|
  {
    if |pairs| == 0 then acc else StorePairs(pairs[1..], acc[pairs[0].0 := pairs[0].1])
  }

  /** A plain marker is matched as its key and value. */
  lemma ReadMarker(kv: (string, string))
    requires PlainMarker(kv)
    ensures Marker(kv.0 + kv.1) == Some(kv)
  {
    var m := kv.0 + kv.1;
    RemoveCharAbsent(m, '\'');
    RemoveCharAbsent(m, '"');
    RunOfConcat(kv.0, kv.1, MarkerKeyChar);
    RunUnique(kv.1, NotNewline, |kv.1|);
    assert kv.1[..|kv.1|] == kv.1;
  }

  lemma {:induction false} AddPlainMarkers(pairs: seq<(string, string)>, acc: map<string, string>)
    requires forall i :: 0 <= i < |pairs| ==> PlainMarker(pairs[i])
    ensures AddMarkers(MarkerTexts(pairs), acc) == StorePairs(pairs, acc)
    decreases |pairs|
  {
    if 0 < |pairs| {
      ReadMarker(pairs[0]);
      assert MarkerTexts(pairs)[1..] == MarkerTexts(pairs[1..]);
      AddPlainMarkers(pairs[1..], acc[pairs[0].0 := pairs[0].1]);
    }
  }

  /** Markers written out and parsed again give the dictionary of the
      pairs, a later value winning for a repeated key. */
  lemma MarkersRoundTrip(pairs: seq<(string, string)>)
    requires 0 < |pairs| && forall i :: 0 <= i < |pairs| ==> PlainMarker(pairs[i])
    ensures Markers(Join(MarkerTexts(pairs), ',')) == StorePairs(pairs, map[])
  {
    var texts := MarkerTexts(pairs);
    assert forall i :: 0 <= i < |texts| ==> ',' !in texts[i];
    JoinSplit(texts, ',');
    AddPlainMarkers(pairs, map[]);
  }

  /** A marker that starts with a comparator character has no key and is
      skipped. */
  lemma MarkerWithoutKey(env: string)
    requires 0 < |env| && !InClass(env[0], MarkerKeyChar)
    requires ',' !in env && '\'' !in env && '"' !in env
    ensures Markers(env) == map[]
  {
    assert Join([env], ',') == env;
    JoinSplit([env], ',');
    RemoveCharAbsent(env, '\'');
    RemoveCharAbsent(env, '"');
    assert Marker(env).None?;
    assert [env][1..] == [];
    assert AddMarkers([env], map[]) == AddMarkers([], map[]);
  }
}
