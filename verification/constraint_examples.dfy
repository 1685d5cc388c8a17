/** The behaviour the constraint tests describe, derived from the general
    lemmas: parsing goes through the rendering round trip, and comparison
    through the first differing key field. */
module ConstraintExamples {
  import opened Text
  import opened Results
  import opened ConstraintScan
  import opened Constraints
  import opened ConstraintRender
  import Lex
  import ConstraintProperties

  const M := MAX_VERSION

  /** The candidate `major.minor.patch`, as `likes_version` parses it. */
  function V(major: nat, minor: nat, patch: nat): Constraint {
    Constraint(Eq, 0, major, minor, patch, M, M, M, M, M, M, 3)
  }

  /** The text of a constraint written with three release numbers and no
      epoch. */
  lemma ThreePart(c: Constraint)
    requires c.epoch == 0 && c.specificity == 3
    ensures Render(c) == OpText(c.op) + (DecimalText(c.major) + ("." + DecimalText(c.minor)
                         + ("." + DecimalText(c.patch))) + SuffixText(c))
  {
    var ns := SegmentsOf(c);
    assert ns == [c.major, c.minor, c.patch];
    ThreeNumbers(ns);
    assert EpochText(c) == "";
    assert VersionText(c) == BodyText(c);
  }

  lemma ThreeNumbers(ns: seq<nat>)
    requires |ns| == 3
    ensures ReleaseText(ns) == DecimalText(ns[0]) + ("." + DecimalText(ns[1]) + ("." + DecimalText(ns[2])))
  {
    assert ns[1..][0] == ns[1] && ns[1..][1..][0] == ns[2] && ns[1..][1..][1..] == [];
    assert TailText(ns[1..][1..]) == "." + DecimalText(ns[2]);
  }

  /** The text of a test's constraint or candidate, read back. */
  lemma Reads(op: Op, text: string, d: Constraint)
    requires d.op == op && d.epoch == 0 && d.specificity == 3 && Canonical(d)
    requires DecimalText(d.major) + ("." + DecimalText(d.minor) + ("." + DecimalText(d.patch))) + SuffixText(d) == text
    ensures FromString(OpText(op) + text) == Ok(d)
  {
    ThreePart(d);
    RenderRoundTrip(d);
  }

  lemma ParseGe(raw: string)
    requires raw == ">=2.8.2"
    ensures FromString(raw) == Ok(Constraint(Ge, 0, 2, 8, 2, M, M, M, M, M, M, 3))
  {
    var c := Constraint(Ge, 0, 2, 8, 2, M, M, M, M, M, M, 3);
    var text := raw[2..];
    assert raw == OpText(Ge) + text;
    assert SuffixText(c) == "";
    Reads(Ge, text, c);
  }

  lemma ParsePrerelease(raw: string)
    requires raw == ">=2.8.2a5.post3"
    ensures FromString(raw) == Ok(Constraint(Ge, 0, 2, 8, 2, 5, M, M, M, 3, M, 3))
  {
    var c := Constraint(Ge, 0, 2, 8, 2, 5, M, M, M, 3, M, 3);
    var text := raw[2..];
    assert raw == OpText(Ge) + text;
    PrereleaseSuffix(c);
    PrereleaseText(c, text);
    Reads(Ge, text, c);
  }

  lemma PrereleaseSuffix(c: Constraint)
    requires c.alpha == 5 && c.beta == M && c.rc == M && c.post1 == M && c.post2 == 3 && c.dev == M
    ensures SuffixText(c) == "a5.post3"
  {
  }

  lemma PrereleaseText(c: Constraint, text: string)
    requires c.major == 2 && c.minor == 8 && c.patch == 2 && SuffixText(c) == "a5.post3"
    requires text == "2.8.2a5.post3"
    ensures DecimalText(c.major) + ("." + DecimalText(c.minor) + ("." + DecimalText(c.patch))) + SuffixText(c) == text
  {
    TwoEightTwo(c);
    var release := DecimalText(c.major) + ("." + DecimalText(c.minor) + ("." + DecimalText(c.patch)));
    Glue(release, SuffixText(c), text);
  }

  lemma Glue(release: string, suffix: string, text: string)
    requires release == "2.8.2" && suffix == "a5.post3" && text == "2.8.2a5.post3"
    ensures release + suffix == text
  {
  }

  lemma TwoEightTwo(c: Constraint)
    requires c.major == 2 && c.minor == 8 && c.patch == 2
    ensures DecimalText(c.major) + ("." + DecimalText(c.minor) + ("." + DecimalText(c.patch))) == "2.8.2"
  {
    assert DecimalText(c.major) == DecimalText(2) == "2";
    assert DecimalText(c.minor) == DecimalText(8) == "8";
    assert DecimalText(c.patch) == "2";
    assert "2" + ("." + "8" + ("." + "2")) == "2.8.2";
  }

  /** `==2.8.*` is read as `~=2.8.0`: the star forces the comparator and
      counts as a zero. */
  lemma ParseWildcard(raw: string)
    requires raw == "==2.8.*"
    ensures FromString(raw) == Ok(V(2, 8, 0).(op := Compatible))
  {
    var m := Match("==", None, ["2", "8", "*"], None, None, None, None, "");
    var c := V(2, 8, 0).(op := Compatible);
    WildcardScan(raw, m);
    assert HasWildcard(m.release) by {
      assert '*' in m.release[2];
    }
    ConstraintProperties.WildcardAsZeros(m);
    ZeroedWildcard(m, c);
    FromMatchOf(c);
  }

  lemma WildcardScan(raw: string, m: Match)
    requires raw == "==2.8.*"
    requires m == Match("==", None, ["2", "8", "*"], None, None, None, None, "")
    ensures Scan(raw) == Some(m)
  {
    var t := "2.8.*";
    assert raw == "==" + t;
    ScanSplit("==", t);
    WildcardVersion(t, m);
  }

  lemma WildcardVersion(t: string, m: Match)
    requires t == "2.8.*"
    requires m == Match("==", None, ["2", "8", "*"], None, None, None, None, "")
    ensures Version("==", t) == m
  {
    WildcardRelease(t);
    assert DigitRun(t) == 1 by {
      RunOfConcat("2", ".8.*", Digit);
    }
    NoTags();
  }

  lemma WildcardRelease(t: string)
    requires t == "2.8.*"
    ensures Release(t) == (["2", "8", "*"], "")
  {
    assert DigitRun(t) == 1 by {
      RunUnique(t, Digit, 1);
    }
    assert t[..1] == "2" && t[1..] == ".8.*";
    WildcardTail(t[1..]);
    ReleaseOf(t, 1, ["8", "*"], "");
    assert ["2"] + ["8", "*"] == ["2", "8", "*"];
  }

  lemma ReleaseOf(t: string, n: nat, tail: seq<string>, rest: string)
    requires 0 < |t| && IsDigit(t[0]) && DigitRun(t) == n
    requires ReleaseTail(t[n..]) == (tail, rest)
    ensures Release(t) == ([t[..n]] + tail, rest)
  {
  }

  lemma WildcardTail(t: string)
    requires t == ".8.*"
    ensures ReleaseTail(t) == (["8", "*"], "")
  {
    var u := t[1..];
    RunUnique(u, DigitOrStar, 1);
    assert u[..1] == "8" && u[1..] == ".*";
    StarTail(u[1..]);
    assert [u[..1]] + ["*"] == ["8", "*"];
  }

  lemma StarTail(t: string)
    requires t == ".*"
    ensures ReleaseTail(t) == (["*"], "")
  {
    var u := t[1..];
    RunUnique(u, DigitOrStar, 1);
    assert u[..1] == "*" && u[1..] == "";
    var (segs, rest) := ReleaseTail(u[1..]);
    assert segs == [] && rest == "";
    assert [u[..1]] + segs == ["*"];
  }

  /** Nothing after the release: no pre-release, post-release or dev
      group. */
  lemma NoTags()
    ensures PreRelease("") == (None, "")
    ensures PostRelease("") == (None, None, "")
    ensures DevRelease("") == (None, "")
  {
    NoLabelStarts("", PreLabels);
    NoLabelStarts("", PostLabels);
  }

  lemma ZeroedWildcard(m: Match, c: Constraint)
    requires m == Match("==", None, ["2", "8", "*"], None, None, None, None, "")
    requires c == V(2, 8, 0).(op := Compatible)
    ensures ConstraintProperties.Zeroed(m) == MatchOf(c)
  {
    StarsZeroed(m.release);
    ThreeTexts(c);
  }

  lemma StarsZeroed(segs: seq<string>)
    requires segs == ["2", "8", "*"]
    ensures ConstraintProperties.ZeroStars(segs) == ["2", "8", "0"]
  {
    assert ReplaceChar("*", '*', '0') == "0";
    ReplaceCharAbsent("2", '*', '0');
    ReplaceCharAbsent("8", '*', '0');
  }

  lemma ThreeTexts(c: Constraint)
    requires c == V(2, 8, 0).(op := Compatible)
    ensures Texts(SegmentsOf(c)) == ["2", "8", "0"]
  {
    assert SegmentsOf(c) == [2, 8, 0];
    assert DecimalText(2) == "2" && DecimalText(8) == "8" && DecimalText(0) == "0";
  }

  /** `likes_version` on a version whose parse is known. */
  lemma Likes(c: Constraint, version: string, d: Constraint)
    requires FromString("==" + version) == Ok(d)
    ensures LikesVersion(c, version) == Ok(Accepts(c, d.AsTuple()))
  {
  }

  /** A bound's verdict on the development release `2.8.N.dev0` of a test. */
  lemma LikesDev(c: Constraint, patch: nat, version: string)
    requires (patch == 2 && version == "2.8.2.dev0") || (patch == 3 && version == "2.8.3.dev0")
    ensures LikesVersion(c, version) == Ok(Accepts(c, V(2, 8, patch).(dev := 0).AsTuple()))
  {
    ReadsDev(patch, version);
    Likes(c, version, V(2, 8, patch).(dev := 0));
  }

  /** The candidate versions of the tests, as `from_string` reads them. */
  lemma ReadsPlain(major: nat, minor: nat, patch: nat, version: string)
    requires major < 10 && minor < 10 && patch < 10
    requires version == [('0' as int + major) as char, '.', ('0' as int + minor) as char, '.', ('0' as int + patch) as char]
    ensures FromString("==" + version) == Ok(V(major, minor, patch))
  {
    var d := V(major, minor, patch);
    assert SuffixText(d) == "";
    Reads(Eq, version, d);
  }

  lemma ReadsRc(version: string)
    requires version == "2.8.1rc9"
    ensures FromString("==" + version) == Ok(V(2, 8, 1).(rc := 9))
  {
    var d := V(2, 8, 1).(rc := 9);
    assert SuffixText(d) == "rc9";
    Reads(Eq, version, d);
  }

  lemma ReadsDev(patch: nat, version: string)
    requires patch < 10 && version == ['2', '.', '8', '.', ('0' as int + patch) as char] + ".dev0"
    ensures FromString("==" + version) == Ok(V(2, 8, patch).(dev := 0))
  {
    var d := V(2, 8, patch).(dev := 0);
    assert SuffixText(d) == ".dev0";
    Reads(Eq, version, d);
  }

  lemma ReadsAlpha(op: Op, version: string)
    requires version == "2.8.2a1"
    ensures FromString(OpText(op) + version) == Ok(V(2, 8, 2).(op := op, alpha := 1))
  {
    var d := V(2, 8, 2).(op := op, alpha := 1);
    assert SuffixText(d) == "a1";
    Reads(op, version, d);
  }

  lemma ReadsBeta(op: Op, version: string)
    requires version == "2.8.2b1"
    ensures FromString(OpText(op) + version) == Ok(V(2, 8, 2).(op := op, beta := 1))
  {
    var d := V(2, 8, 2).(op := op, beta := 1);
    assert SuffixText(d) == "b1";
    Reads(op, version, d);
  }

  lemma ReadsRcOne(op: Op, version: string)
    requires version == "2.8.2rc1"
    ensures FromString(OpText(op) + version) == Ok(V(2, 8, 2).(op := op, rc := 1))
  {
    var d := V(2, 8, 2).(op := op, rc := 1);
    assert SuffixText(d) == "rc1";
    Reads(op, version, d);
  }

  /** The bound `2.8.2` behind any comparator, as `from_string` reads it. */
  lemma ReadsBound(op: Op, version: string)
    requires version == "2.8.2"
    ensures FromString(OpText(op) + version) == Ok(V(2, 8, 2).(op := op))
  {
    var c := V(2, 8, 2).(op := op);
    assert SuffixText(c) == "";
    Reads(op, version, c);
  }

  /** Keys of equal length ordered by their first difference, seen from
      both sides. */
  lemma Below(a: seq<int>, b: seq<int>, i: nat)
    requires |a| == |b| && i < |a| && a[..i] == b[..i] && a[i] < b[i]
    ensures Lex.Less(a, b, Lex.IntLess) && !Lex.LessEq(b, a, Lex.IntLess)
  {
    Lex.DecidedAt(a, b, i, Lex.IntLess);
    Lex.IntLessIsStrictTotal();
    Lex.LessEqIffNotGreater(b, a, Lex.IntLess);
  }

  lemma NotBelowItself(a: seq<int>)
    ensures !Lex.Less(a, a, Lex.IntLess)
  {
    Lex.IntLessIsStrictTotal();
    Lex.Irreflexive(a, Lex.IntLess);
  }

  /** Two constraints with the same release that differ first in the patch
      number. */
  lemma PatchBelow(a: Constraint, b: Constraint)
    requires a.epoch == b.epoch && a.major == b.major && a.minor == b.minor && a.patch < b.patch
    ensures Lex.Less(a.AsTuple(), b.AsTuple(), Lex.IntLess)
    ensures !Lex.LessEq(b.AsTuple(), a.AsTuple(), Lex.IntLess)
  {
    Below(a.AsTuple(), b.AsTuple(), 3);
  }

  /** ... that differ first in the `a` field. */
  lemma AlphaBelow(a: Constraint, b: Constraint)
    requires a.epoch == b.epoch && a.major == b.major && a.minor == b.minor && a.patch == b.patch
    requires a.alpha < b.alpha
    ensures Lex.Less(a.AsTuple(), b.AsTuple(), Lex.IntLess)
    ensures !Lex.LessEq(b.AsTuple(), a.AsTuple(), Lex.IntLess)
  {
    Below(a.AsTuple(), b.AsTuple(), 4);
  }

  /** ... that differ first in the `b` field. */
  lemma BetaBelow(a: Constraint, b: Constraint)
    requires a.epoch == b.epoch && a.major == b.major && a.minor == b.minor && a.patch == b.patch
    requires a.alpha == b.alpha && a.beta < b.beta
    ensures Lex.Less(a.AsTuple(), b.AsTuple(), Lex.IntLess)
    ensures !Lex.LessEq(b.AsTuple(), a.AsTuple(), Lex.IntLess)
  {
    Below(a.AsTuple(), b.AsTuple(), 5);
  }

  /** ... that differ only in the dev field. */
  lemma DevBelow(a: Constraint, b: Constraint)
    requires a.epoch == b.epoch && a.major == b.major && a.minor == b.minor && a.patch == b.patch
    requires a.alpha == b.alpha && a.beta == b.beta && a.rc == b.rc
    requires a.post1 == b.post1 && a.post2 == b.post2 && a.dev < b.dev
    ensures Lex.Less(a.AsTuple(), b.AsTuple(), Lex.IntLess)
    ensures !Lex.LessEq(b.AsTuple(), a.AsTuple(), Lex.IntLess)
  {
    Below(a.AsTuple(), b.AsTuple(), 9);
  }

  lemma GreaterLikesNextPatch(bound: string, version: string)
    requires bound == ">2.8.2" && version == "2.8.3"
    ensures FromString(bound) == Ok(V(2, 8, 2).(op := Gt))
    ensures LikesVersion(FromString(bound).value, version) == Ok(true)
  {
    var c := V(2, 8, 2).(op := Gt);
    assert FromString(bound) == Ok(c) by {
      assert bound == OpText(Gt) + bound[1..];
      ReadsBound(Gt, bound[1..]);
    }
    var d := V(2, 8, 3);
    assert LikesVersion(c, version) == Ok(Accepts(c, d.AsTuple())) by {
      ReadsPlain(2, 8, 3, version);
      Likes(c, version, d);
    }
    PatchBelow(c, d);
    assert Accepts(c, d.AsTuple());
  }

  lemma GreaterRejectsItself(bound: string, version: string)
    requires bound == ">2.8.2" && version == "2.8.2"
    ensures FromString(bound) == Ok(V(2, 8, 2).(op := Gt))
    ensures LikesVersion(FromString(bound).value, version) == Ok(false)
  {
    var c := V(2, 8, 2).(op := Gt);
    assert FromString(bound) == Ok(c) by {
      assert bound == OpText(Gt) + bound[1..];
      ReadsBound(Gt, bound[1..]);
    }
    var d := V(2, 8, 2);
    assert LikesVersion(c, version) == Ok(Accepts(c, d.AsTuple())) by {
      ReadsPlain(2, 8, 2, version);
      Likes(c, version, d);
    }
    assert d.AsTuple() == c.AsTuple();
    NotBelowItself(c.AsTuple());
    assert !Accepts(c, d.AsTuple());
  }

  lemma GreaterRejectsEarlierRc(bound: string, version: string)
    requires bound == ">2.8.2" && version == "2.8.1rc9"
    ensures FromString(bound) == Ok(V(2, 8, 2).(op := Gt))
    ensures LikesVersion(FromString(bound).value, version) == Ok(false)
  {
    var c := V(2, 8, 2).(op := Gt);
    assert FromString(bound) == Ok(c) by {
      assert bound == OpText(Gt) + bound[1..];
      ReadsBound(Gt, bound[1..]);
    }
    var d := V(2, 8, 1).(rc := 9);
    assert LikesVersion(c, version) == Ok(Accepts(c, d.AsTuple())) by {
      ReadsRc(version);
      Likes(c, version, d);
    }
    PatchBelow(d, c);
    assert !Accepts(c, d.AsTuple());
  }

  lemma GreaterLikesLaterDev(bound: string, version: string)
    requires bound == ">2.8.2" && version == "2.8.3.dev0"
    ensures FromString(bound) == Ok(V(2, 8, 2).(op := Gt))
    ensures LikesVersion(FromString(bound).value, version) == Ok(true)
  {
    var c := V(2, 8, 2).(op := Gt);
    assert FromString(bound) == Ok(c) by {
      assert bound == OpText(Gt) + bound[1..];
      ReadsBound(Gt, bound[1..]);
    }
    var d := V(2, 8, 3).(dev := 0);
    LikesDev(c, 3, version);
    PatchBelow(c, d);
    assert Accepts(c, d.AsTuple());
  }

  lemma LessLikesOwnDev(bound: string, version: string)
    requires bound == "<2.8.2" && version == "2.8.2.dev0"
    ensures FromString(bound) == Ok(V(2, 8, 2).(op := Lt))
    ensures LikesVersion(FromString(bound).value, version) == Ok(true)
  {
    var c := V(2, 8, 2).(op := Lt);
    assert FromString(bound) == Ok(c) by {
      assert bound == OpText(Lt) + bound[1..];
      ReadsBound(Lt, bound[1..]);
    }
    var d := V(2, 8, 2).(dev := 0);
    LikesDev(c, 2, version);
    DevBelow(d, c);
    assert Accepts(c, d.AsTuple());
  }

  lemma CompatibleLikesNextPatch(bound: string, version: string)
    requires bound == "~=2.8.2" && version == "2.8.3"
    ensures FromString(bound) == Ok(V(2, 8, 2).(op := Compatible))
    ensures LikesVersion(FromString(bound).value, version) == Ok(true)
  {
    var c := V(2, 8, 2).(op := Compatible);
    assert FromString(bound) == Ok(c) by {
      assert bound == OpText(Compatible) + bound[2..];
      ReadsBound(Compatible, bound[2..]);
    }
    var d := V(2, 8, 3);
    assert LikesVersion(c, version) == Ok(Accepts(c, d.AsTuple())) by {
      ReadsPlain(2, 8, 3, version);
      Likes(c, version, d);
    }
    ConstraintProperties.CompatibleRelease(c, d);
    PatchBelow(c, d);
    assert Accepts(c, d.AsTuple());
  }

  lemma CompatibleRejectsEarlierPatch(bound: string, version: string)
    requires bound == "~=2.8.2" && version == "2.8.1"
    ensures FromString(bound) == Ok(V(2, 8, 2).(op := Compatible))
    ensures LikesVersion(FromString(bound).value, version) == Ok(false)
  {
    var c := V(2, 8, 2).(op := Compatible);
    assert FromString(bound) == Ok(c) by {
      assert bound == OpText(Compatible) + bound[2..];
      ReadsBound(Compatible, bound[2..]);
    }
    var d := V(2, 8, 1);
    assert LikesVersion(c, version) == Ok(Accepts(c, d.AsTuple())) by {
      ReadsPlain(2, 8, 1, version);
      Likes(c, version, d);
    }
    ConstraintProperties.CompatibleRelease(c, d);
    PatchBelow(d, c);
    assert !Accepts(c, d.AsTuple());
  }

  lemma CompatibleRejectsNextMinor(bound: string, version: string)
    requires bound == "~=2.8.2" && version == "2.9.2"
    ensures FromString(bound) == Ok(V(2, 8, 2).(op := Compatible))
    ensures LikesVersion(FromString(bound).value, version) == Ok(false)
  {
    var c := V(2, 8, 2).(op := Compatible);
    assert FromString(bound) == Ok(c) by {
      assert bound == OpText(Compatible) + bound[2..];
      ReadsBound(Compatible, bound[2..]);
    }
    var d := V(2, 9, 2);
    assert LikesVersion(c, version) == Ok(Accepts(c, d.AsTuple())) by {
      ReadsPlain(2, 9, 2, version);
      Likes(c, version, d);
    }
    ConstraintProperties.CompatibleRelease(c, d);
    assert !Accepts(c, d.AsTuple());
  }

  lemma CompatibleRejectsOwnDev(bound: string, version: string)
    requires bound == "~=2.8.2" && version == "2.8.2.dev0"
    ensures FromString(bound) == Ok(V(2, 8, 2).(op := Compatible))
    ensures LikesVersion(FromString(bound).value, version) == Ok(false)
  {
    var c := V(2, 8, 2).(op := Compatible);
    assert FromString(bound) == Ok(c) by {
      assert bound == OpText(Compatible) + bound[2..];
      ReadsBound(Compatible, bound[2..]);
    }
    var d := V(2, 8, 2).(dev := 0);
    LikesDev(c, 2, version);
    ConstraintProperties.CompatibleRelease(c, d);
    DevBelow(d, c);
    assert !Accepts(c, d.AsTuple());
  }

  lemma AlphaBoundLikesBeta(bound: string, version: string)
    requires bound == ">=2.8.2a1" && version == "2.8.2b1"
    ensures FromString(bound) == Ok(V(2, 8, 2).(op := Ge, alpha := 1))
    ensures LikesVersion(FromString(bound).value, version) == Ok(true)
  {
    var c := V(2, 8, 2).(op := Ge, alpha := 1);
    assert FromString(bound) == Ok(c) by {
      assert bound == OpText(Ge) + bound[2..];
      ReadsAlpha(Ge, bound[2..]);
    }
    var d := V(2, 8, 2).(beta := 1);
    assert LikesVersion(c, version) == Ok(Accepts(c, d.AsTuple())) by {
      ReadsBeta(Eq, version);
      Likes(c, version, d);
    }
    AlphaBelow(c, d);
    assert Accepts(c, d.AsTuple());
  }

  lemma BetaBoundRejectsAlpha(bound: string, version: string)
    requires bound == ">=2.8.2b1" && version == "2.8.2a1"
    ensures FromString(bound) == Ok(V(2, 8, 2).(op := Ge, beta := 1))
    ensures LikesVersion(FromString(bound).value, version) == Ok(false)
  {
    var c := V(2, 8, 2).(op := Ge, beta := 1);
    assert FromString(bound) == Ok(c) by {
      assert bound == OpText(Ge) + bound[2..];
      ReadsBeta(Ge, bound[2..]);
    }
    var d := V(2, 8, 2).(alpha := 1);
    assert LikesVersion(c, version) == Ok(Accepts(c, d.AsTuple())) by {
      ReadsAlpha(Eq, version);
      Likes(c, version, d);
    }
    AlphaBelow(d, c);
    assert !Accepts(c, d.AsTuple());
  }

  lemma RcBoundRejectsBeta(bound: string, version: string)
    requires bound == ">=2.8.2rc1" && version == "2.8.2b1"
    ensures FromString(bound) == Ok(V(2, 8, 2).(op := Ge, rc := 1))
    ensures LikesVersion(FromString(bound).value, version) == Ok(false)
  {
    var c := V(2, 8, 2).(op := Ge, rc := 1);
    assert FromString(bound) == Ok(c) by {
      assert bound == OpText(Ge) + bound[2..];
      ReadsRcOne(Ge, bound[2..]);
    }
    var d := V(2, 8, 2).(beta := 1);
    assert LikesVersion(c, version) == Ok(Accepts(c, d.AsTuple())) by {
      ReadsBeta(Eq, version);
      Likes(c, version, d);
    }
    BetaBelow(d, c);
    assert !Accepts(c, d.AsTuple());
  }
}
