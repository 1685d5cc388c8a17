/** Writing a constraint back as text, and the proof that `from_string`
    reads every constraint it can produce back from that text: the parser
    loses nothing but the spelling. */
module ConstraintRender {
  import opened Text
  import opened Results
  import opened ConstraintScan
  import opened Constraints

  /** The decimal text of each number. */
  function Texts(ns: seq<nat>): (r: seq<string>)
    ensures |r| == |ns|
    ensures forall i :: 0 <= i < |ns| ==> r[i] == DecimalText(ns[i])
  {
    if |ns| == 0 then [] else [DecimalText(ns[0])] + Texts(ns[1..])
  }

  /** `.N` for each release number after the first. */
  function TailText(ns: seq<nat>): string {
    if |ns| == 0 then "" else "." + DecimalText(ns[0]) + TailText(ns[1..])
  }

  function ReleaseText(ns: seq<nat>): (s: string)
    requires 0 < |ns|
    ensures 0 < |s| && IsDigit(s[0])
  {
    DecimalText(ns[0]) + TailText(ns[1..])
  }

  /** The release numbers a constraint was written with. */
  function SegmentsOf(c: Constraint): (ns: seq<nat>)
    ensures |ns| == c.specificity
    ensures forall i :: 0 <= i < |ns| ==> ns[i] == ReleaseField(c, i)
  {
    seq(c.specificity, i requires 0 <= i => ReleaseField(c, i))
  }

  function EpochText(c: Constraint): string {
    if c.epoch == 0 then "" else DecimalText(c.epoch) + "!"
  }

  function PreText(c: Constraint): string {
    if c.alpha != MAX_VERSION then "a" + DecimalText(c.alpha)
    else if c.beta != MAX_VERSION then "b" + DecimalText(c.beta)
    else if c.rc != MAX_VERSION then "rc" + DecimalText(c.rc)
    else ""
  }

  function PostText(c: Constraint): string {
    if c.post1 != MAX_VERSION then "-" + DecimalText(c.post1)
    else if c.post2 != MAX_VERSION then ".post" + DecimalText(c.post2)
    else ""
  }

  function DevText(c: Constraint): string {
    if c.dev != MAX_VERSION then ".dev" + DecimalText(c.dev) else ""
  }

  /** Everything after the release. */
  function SuffixText(c: Constraint): string {
    PreText(c) + PostText(c) + DevText(c)
  }

  /** The text of a constraint: comparator, epoch when not `0`, the release
      numbers written, then the pre-, post- and dev-release parts that are
      not the sentinel. */
  function Render(c: Constraint): string
    requires 1 <= c.specificity
  {
    OpText(c.op) + VersionText(c)
  }

  function VersionText(c: Constraint): string
    requires 1 <= c.specificity
  {
    EpochText(c) + BodyText(c)
  }

  /** The release and what follows it. */
  function BodyText(c: Constraint): (s: string)
    requires 1 <= c.specificity
    ensures 0 < |s| && IsDigit(s[0])
  {
    ReleaseText(SegmentsOf(c)) + SuffixText(c)
  }

  /** The groups the scanner is expected to capture from `Render(c)`. */
  function PreOf(c: Constraint): Option<PreTag> {
    if c.alpha != MAX_VERSION then Some(PreTag("a", Some(DecimalText(c.alpha))))
    else if c.beta != MAX_VERSION then Some(PreTag("b", Some(DecimalText(c.beta))))
    else if c.rc != MAX_VERSION then Some(PreTag("rc", Some(DecimalText(c.rc))))
    else None
  }

  function NumberOf(n: nat): Option<string> {
    if n != MAX_VERSION then Some(DecimalText(n)) else None
  }

  function MatchOf(c: Constraint): Match {
    Match(OpText(c.op),
      if c.epoch == 0 then None else Some(DecimalText(c.epoch)),
      Texts(SegmentsOf(c)),
      PreOf(c),
      NumberOf(c.post1),
      if c.post1 == MAX_VERSION then NumberOf(c.post2) else None,
      NumberOf(c.dev),
      "")
  }

  // ----- reading lemmas, one per scanner stage -----

  lemma NotStartsWith(t: string, lit: string, k: nat)
    requires k < |lit|
    requires k >= |t| || t[k] != lit[k]
    ensures !StartsWith(t, lit)
  {
    if |lit| <= |t| {
      assert t[..|lit|][k] == t[k];
    }
  }

  /** `[-_\.]?[0-9]+` after a label, on a number followed by a non-digit. */
  lemma ReadTagNumber(n: nat, rest: string)
    requires |rest| == 0 || !IsDigit(rest[0])
    ensures TagNumber(DecimalText(n) + rest) == (Some(DecimalText(n)), rest)
  {
    var t := DecimalText(n) + rest;
    assert t[0] == DecimalText(n)[0];
    assert SkipSep(t) == t;
    ReadNumber(n, rest);
  }

  /** Text after which the release group stops. */
  predicate EndsRelease(rest: string) {
    && (|rest| == 0 || !InClass(rest[0], DigitOrStar))
    && !(1 < |rest| && rest[0] == '.' && InClass(rest[1], DigitOrStar))
  }

  lemma {:induction false} ReadTail(ns: seq<nat>, rest: string)
    requires EndsRelease(rest)
    ensures ReleaseTail(TailText(ns) + rest) == (Texts(ns), rest)
    decreases |ns|
  {
    if |ns| == 0 {
      assert TailText(ns) + rest == rest;
    } else {
      var d := DecimalText(ns[0]);
      var after := TailText(ns[1..]) + rest;
      var t := TailText(ns) + rest;
      assert TailText(ns) == "." + d + TailText(ns[1..]);
      Regroup(".", d, TailText(ns[1..]), rest);
      TailStart(ns[1..], rest);
      assert forall k :: 0 <= k < |d| ==> InClass(d[k], DigitOrStar);
      RunOfConcat(d, after, DigitOrStar);
      ReadTail(ns[1..], rest);
      TailStep(t, d, after);
    }
  }

  /** The text after a release number starts with `.` or ends the
      release. */
  lemma TailStart(ns: seq<nat>, rest: string)
    requires EndsRelease(rest)
    ensures var after := TailText(ns) + rest;
      |after| == 0 || !InClass(after[0], DigitOrStar)
  {
    if |ns| > 0 {
      assert TailText(ns) == "." + DecimalText(ns[0]) + TailText(ns[1..]);
      assert (TailText(ns) + rest)[0] == '.';
    } else {
      assert TailText(ns) + rest == rest;
    }
  }

  lemma Regroup(a: string, b: string, c: string, d: string)
    ensures a + b + c + d == a + (b + (c + d))
  {
  }

  lemma Regroup3(a: string, b: string, c: string)
    ensures a + b + c == a + (b + c)
  {
  }

  /** One step of the `(?:\.[0-9*]+)*` loop. */
  lemma TailStep(t: string, d: string, after: string)
    requires t == "." + (d + after) && 0 < |d|
    requires forall k :: 0 <= k < |d| ==> InClass(d[k], DigitOrStar)
    requires |after| == 0 || !InClass(after[0], DigitOrStar)
    ensures ReleaseTail(t) == ([d] + ReleaseTail(after).0, ReleaseTail(after).1)
  {
    var u := t[1..];
    assert u == d + after;
    assert t[1] == d[0];
    RunOfConcat(d, after, DigitOrStar);
  }

  lemma ReadRelease(ns: seq<nat>, rest: string)
    requires 0 < |ns| && EndsRelease(rest)
    ensures Release(ReleaseText(ns) + rest) == (Texts(ns), rest)
  {
    var d := DecimalText(ns[0]);
    var after := TailText(ns[1..]) + rest;
    assert ReleaseText(ns) + rest == d + after;
    assert |after| == 0 || !IsDigit(after[0]) by {
      if |ns[1..]| > 0 {
        assert after[0] == '.';
      } else {
        assert after == rest;
      }
    }
    ReadNumber(ns[0], after);
    ReadTail(ns[1..], rest);
    assert Texts(ns) == [d] + Texts(ns[1..]);
  }

  lemma ReadDev(c: Constraint)
    ensures DevRelease(DevText(c)) == (NumberOf(c.dev), "")
  {
    if c.dev != MAX_VERSION {
      var d := DecimalText(c.dev);
      var t := DevText(c);
      assert SkipSep(t) == "dev" + d;
      assert ("dev" + d)[3..] == d + "";
      ReadTagNumber(c.dev, "");
    }
  }

  lemma NoLabelStarts(t: string, labels: seq<string>)
    requires forall i :: 0 <= i < |labels| ==> !StartsWith(t, labels[i])
    ensures FirstLabel(t, labels) == None
  {
  }

  lemma NoPostLabel(u: string)
    requires |u| == 0 || u[0] == 'd'
    ensures FirstLabel(u, PostLabels) == None
  {
    NotStartsWith(u, PostLabels[0], 0);
    NotStartsWith(u, PostLabels[1], 0);
    NotStartsWith(u, PostLabels[2], 0);
  }

  lemma ReadDashNumber(n: nat, rest: string)
    requires |rest| == 0 || !IsDigit(rest[0])
    ensures PostRelease("-" + (DecimalText(n) + rest)) == (Some(DecimalText(n)), None, rest)
  {
    var d := DecimalText(n);
    var t := "-" + (d + rest);
    assert t[1] == d[0];
    assert t[1..] == d + rest;
    ReadNumber(n, rest);
  }

  lemma ReadVerbosePost(n: nat, rest: string)
    requires |rest| == 0 || !IsDigit(rest[0])
    ensures PostRelease(".post" + (DecimalText(n) + rest)) == (None, Some(DecimalText(n)), rest)
  {
    var d := DecimalText(n);
    var t := ".post" + (d + rest);
    var u := SkipSep(t);
    assert u == t[1..];
    assert u == "post" + (d + rest);
    assert StartsWith(u, PostLabels[0]);
    assert u[4..] == d + rest;
    ReadTagNumber(n, rest);
  }

  lemma ReadPost(c: Constraint)
    ensures PostRelease(PostText(c) + DevText(c))
      == (NumberOf(c.post1), if c.post1 == MAX_VERSION then NumberOf(c.post2) else None, DevText(c))
  {
    var dev := DevText(c);
    assert |dev| == 0 || dev[0] == '.';
    if c.post1 != MAX_VERSION {
      var d := DecimalText(c.post1);
      Regroup3("-", d, dev);
      ReadDashNumber(c.post1, dev);
    } else if c.post2 != MAX_VERSION {
      var d := DecimalText(c.post2);
      Regroup3(".post", d, dev);
      ReadVerbosePost(c.post2, dev);
    } else {
      assert PostText(c) + dev == dev;
      NoPostLabel(SkipSep(dev));
    }
  }

  /** No pre-release label starts at the text that can follow the release
      when there is no pre-release part. */
  lemma NoPreLabel(u: string)
    requires |u| == 0 || IsDigit(u[0]) || u[0] == 'd' || StartsWith(u, "post")
    ensures FirstLabel(u, PreLabels) == None
  {
    var po := StartsWith(u, "post");
    if po {
      PostStart(u);
    }
    forall i | 0 <= i < |PreLabels|
      ensures !StartsWith(u, PreLabels[i])
    {
      NotPreLabel(u, i, po);
    }
    NoLabelStarts(u, PreLabels);
  }

  lemma PostStart(u: string)
    requires StartsWith(u, "post")
    ensures 1 < |u| && u[0] == 'p' && u[1] == 'o'
  {
    assert u[..4][0] == 'p' && u[..4][1] == 'o';
  }

  /** Label by label: the first six differ from such a text in their first
      character, `pre` and `preview` in their second. */
  lemma NotPreLabel(u: string, i: nat, po: bool)
    requires i < |PreLabels|
    requires po ==> 1 < |u| && u[0] == 'p' && u[1] == 'o'
    requires !po ==> |u| == 0 || IsDigit(u[0]) || u[0] == 'd'
    ensures !StartsWith(u, PreLabels[i])
  {
    var lab := PreLabels[i];
    if i < 6 {
      assert lab[0] in {'a', 'b', 'c', 'r'};
      NotStartsWith(u, lab, 0);
    } else {
      assert lab[0] == 'p' && lab[1] == 'r';
      if po {
        NotStartsWith(u, lab, 1);
      } else {
        NotStartsWith(u, lab, 0);
      }
    }
  }

  /** The alternation picks the first label the text starts with. */
  lemma {:induction false} FirstLabelAt(t: string, labels: seq<string>, k: nat)
    requires k < |labels| && StartsWith(t, labels[k])
    requires forall i :: 0 <= i < k ==> !StartsWith(t, labels[i])
    ensures FirstLabel(t, labels) == Some(k)
    decreases k
  {
    if k > 0 {
      assert !StartsWith(t, labels[0]);
      forall i | 0 <= i < k - 1
        ensures !StartsWith(t, labels[1..][i])
      {
        assert labels[1..][i] == labels[i + 1];
      }
      FirstLabelAt(t, labels[1..], k - 1);
    }
  }

  /** A pre-release label with its number, followed by text that does not
      start with a digit. */
  lemma ReadPreLabel(lab: string, k: nat, n: nat, rest: string)
    requires k < |PreLabels| && PreLabels[k] == lab && 0 < |lab| && !IsSeparator(lab[0])
    requires FirstLabel(lab + (DecimalText(n) + rest), PreLabels) == Some(k)
    requires |rest| == 0 || !IsDigit(rest[0])
    ensures PreRelease(lab + (DecimalText(n) + rest)) == (Some(PreTag(lab, Some(DecimalText(n)))), rest)
  {
    var t := lab + (DecimalText(n) + rest);
    assert t[0] == lab[0];
    assert SkipSep(t) == t;
    assert t[|lab|..] == DecimalText(n) + rest;
    ReadTagNumber(n, rest);
  }

  lemma ReadPre(c: Constraint)
    ensures PreRelease(SuffixText(c)) == (PreOf(c), PostText(c) + DevText(c))
  {
    var r := PostText(c) + DevText(c);
    assert |r| == 0 || !IsDigit(r[0]) by {
      if |PostText(c)| > 0 {
        assert r[0] == PostText(c)[0];
      } else {
        assert r == DevText(c);
      }
    }
    Regroup3(PreText(c), PostText(c), DevText(c));
    if c.alpha != MAX_VERSION {
      ReadPreTagged("a", 0, c.alpha, r);
    } else if c.beta != MAX_VERSION {
      ReadPreTagged("b", 1, c.beta, r);
    } else if c.rc != MAX_VERSION {
      ReadPreTagged("rc", 3, c.rc, r);
    } else {
      ReadNoPre(c);
    }
  }

  /** `a`, `b` and `rc` with their number are read as that label: no
      earlier alternative starts the text. */
  lemma ReadPreTagged(lab: string, k: nat, n: nat, r: string)
    requires k < |PreLabels| && PreLabels[k] == lab && (k == 0 || k == 1 || k == 3)
    requires |r| == 0 || !IsDigit(r[0])
    ensures PreRelease(lab + DecimalText(n) + r) == (Some(PreTag(lab, Some(DecimalText(n)))), r)
  {
    var t := lab + DecimalText(n) + r;
    Regroup3(lab, DecimalText(n), r);
    if k == 1 {
      NotStartsWith(t, PreLabels[0], 0);
    } else if k == 3 {
      NotStartsWith(t, PreLabels[0], 0);
      NotStartsWith(t, PreLabels[1], 0);
      NotStartsWith(t, PreLabels[2], 0);
      assert t[..2] == "rc";
    }
    assert StartsWith(t, PreLabels[k]);
    FirstLabelAt(t, PreLabels, k);
    ReadPreLabel(lab, k, n, r);
  }

  /** Without a pre-release part, the text after the release starts no
      label, so the optional group is skipped. */
  lemma ReadNoPre(c: Constraint)
    requires c.alpha == MAX_VERSION && c.beta == MAX_VERSION && c.rc == MAX_VERSION
    ensures PreRelease(SuffixText(c)) == (None, PostText(c) + DevText(c))
  {
    Regroup3(PreText(c), PostText(c), DevText(c));
    assert SuffixText(c) == PostText(c) + DevText(c);
    AfterSeparator(c);
    NoPreLabel(SkipSep(PostText(c) + DevText(c)));
  }

  /** What the post- and dev-release parts leave once the optional
      separator is skipped: a digit, `post`, `dev`, or nothing. */
  lemma AfterSeparator(c: Constraint)
    ensures var u := SkipSep(PostText(c) + DevText(c));
      |u| == 0 || IsDigit(u[0]) || u[0] == 'd' || StartsWith(u, "post")
  {
    var t := PostText(c) + DevText(c);
    var u := SkipSep(t);
    if c.post1 != MAX_VERSION {
      Regroup3("-", DecimalText(c.post1), DevText(c));
      assert t[0] == '-' && t[1..] == DecimalText(c.post1) + DevText(c);
      assert u[0] == DecimalText(c.post1)[0];
    } else if c.post2 != MAX_VERSION {
      Regroup3(".post", DecimalText(c.post2), DevText(c));
      assert t[0] == '.' && t[1..] == "post" + (DecimalText(c.post2) + DevText(c));
      assert u[..4] == "post";
    } else if c.dev != MAX_VERSION {
      assert t == ".dev" + DecimalText(c.dev);
      assert t[0] == '.' && t[1..] == "dev" + DecimalText(c.dev);
      assert u[0] == 'd';
    } else {
      assert t == "";
    }
  }

  /** Everything that can follow the release stops it. */
  lemma SuffixEndsRelease(c: Constraint)
    ensures EndsRelease(SuffixText(c))
  {
    if |PreText(c)| > 0 {
      PreEndsRelease(c);
    } else if |PostText(c)| > 0 {
      PostEndsRelease(c);
    } else {
      DevEndsRelease(c);
    }
  }

  /** A part that starts with neither a digit nor `.` and a digit stops the
      release, whatever follows it. */
  lemma LeadEnds(p: string, q: string)
    requires 2 <= |p| && !InClass(p[0], DigitOrStar)
    requires p[0] == '.' ==> !InClass(p[1], DigitOrStar)
    ensures EndsRelease(p + q)
  {
    assert (p + q)[0] == p[0] && (p + q)[1] == p[1];
  }

  lemma PreEndsRelease(c: Constraint)
    requires |PreText(c)| > 0
    ensures EndsRelease(SuffixText(c))
  {
    var p := PreText(c);
    assert p[0] in {'a', 'b', 'r'} && 2 <= |p|;
    Regroup3(p, PostText(c), DevText(c));
    LeadEnds(p, PostText(c) + DevText(c));
  }

  lemma PostEndsRelease(c: Constraint)
    requires |PreText(c)| == 0 && |PostText(c)| > 0
    ensures EndsRelease(SuffixText(c))
  {
    var p := PostText(c);
    assert p[0] == '-' || (p[0] == '.' && p[1] == 'p');
    assert SuffixText(c) == p + DevText(c);
    LeadEnds(p, DevText(c));
  }

  lemma DevEndsRelease(c: Constraint)
    requires |PreText(c)| == 0 && |PostText(c)| == 0
    ensures EndsRelease(SuffixText(c))
  {
    var p := DevText(c);
    assert SuffixText(c) == p + "";
    if |p| > 0 {
      assert p[0] == '.' && p[1] == 'd';
      LeadEnds(p, "");
    }
  }

  /** The digits of a non-zero epoch are followed by `!` and a digit; the
      first release number is not followed by `!`. */
  lemma ReadEpoch(c: Constraint)
    requires 1 <= c.specificity
    ensures var t := VersionText(c);
            var e := DigitRun(t);
            && ((e + 1 < |t| && t[e] == '!' && IsDigit(t[e + 1])) <==> c.epoch != 0)
            && (c.epoch != 0 ==> t[..e] == DecimalText(c.epoch) && t[e + 1..] == BodyText(c))
  {
    var ns := SegmentsOf(c);
    var body := BodyText(c);
    var t := VersionText(c);
    if c.epoch != 0 {
      var e := DecimalText(c.epoch);
      Regroup3(e, "!", body);
      ReadNumber(c.epoch, "!" + body);
      assert t[|e|] == '!' && t[|e| + 1] == body[0];
      assert t[|e| + 1..] == body;
    } else {
      var d := DecimalText(ns[0]);
      var after := TailText(ns[1..]) + SuffixText(c);
      Regroup3(d, TailText(ns[1..]), SuffixText(c));
      assert t == d + after;
      assert |after| == 0 || (after[0] != '!' && !IsDigit(after[0])) by {
        if |ns[1..]| > 0 {
          assert after[0] == '.';
        } else {
          assert after == SuffixText(c);
          SuffixEndsRelease(c);
        }
      }
      ReadNumber(ns[0], after);
    }
  }

  lemma ReadVersion(c: Constraint)
    requires 1 <= c.specificity
    ensures Version(OpText(c.op), VersionText(c)) == MatchOf(c)
  {
    var t := VersionText(c);
    var e := DigitRun(t);
    var withEpoch := e + 1 < |t| && t[e] == '!' && IsDigit(t[e + 1]);
    EpochPart(c);
    var t1 := if withEpoch then t[e + 1..] else t;
    SuffixEndsRelease(c);
    ReadRelease(SegmentsOf(c), SuffixText(c));
    ReadPre(c);
    ReadPost(c);
    ReadDev(c);
  }

  /** What the epoch stage captures and what it leaves. */
  lemma EpochPart(c: Constraint)
    requires 1 <= c.specificity
    ensures var t := VersionText(c);
            var e := DigitRun(t);
            var withEpoch := e + 1 < |t| && t[e] == '!' && IsDigit(t[e + 1]);
            && (if withEpoch then Some(t[..e]) else None) == MatchOf(c).epoch
            && (if withEpoch then t[e + 1..] else t) == BodyText(c)
  {
    ReadEpoch(c);
  }

  lemma ScanRender(c: Constraint)
    requires 1 <= c.specificity
    ensures Scan(Render(c)) == Some(MatchOf(c))
  {
    var v := VersionText(c);
    assert 0 < |v| && IsDigit(v[0]) by {
      if c.epoch != 0 {
        assert v[0] == DecimalText(c.epoch)[0];
      } else {
        assert v[0] == BodyText(c)[0];
      }
    }
    OpTextShape(c.op);
    ScanSplit(OpText(c.op), v);
    ReadVersion(c);
  }

  /** The comparator is read as written when a digit follows it. */
  lemma ScanSplit(op: string, v: string)
    requires 1 <= |op| <= 2
    requires forall k :: 0 <= k < |op| ==> IsComparatorChar(op[k])
    requires 0 < |v| && IsDigit(v[0])
    ensures Scan(op + v) == Some(Version(op, v))
  {
    var s := op + v;
    assert s[..|op|] == op && s[|op|..] == v;
    assert s[0] == op[0];
    if |op| == 2 {
      assert s[1] == op[1];
    } else {
      assert s[1] == v[0];
    }
    assert s[|op|] == v[0];
    var cl := if 2 <= |s| && IsComparatorChar(s[1]) then 2 else 1;
    assert cl == |op|;
    assert s[..cl] == op && s[cl..] == v;
  }

  /** The comparator only chooses the operation: any comparator in front
      of a version without a wildcard gives the constraint `==` gives, with
      that operation. */
  lemma ComparatorOnlyOp(op: Op, v: string)
    requires FromString("==" + v).Ok? && !HasWildcard(Scan("==" + v).value.release)
    ensures FromString(OpText(op) + v) == Ok(FromString("==" + v).value.(op := op))
  {
    assert ("==" + v)[2] == v[0];
    OpTextShape(op);
    OpTextShape(Eq);
    ScanSplit(OpText(op), v);
    ScanSplit("==", v);
    VersionComparator("==", OpText(op), v);
    OpOfText(op);
    SameButComparator(Version("==", v), Version(OpText(op), v), op);
  }

  /** The version groups do not depend on the comparator. */
  lemma VersionComparator(c1: string, c2: string, t: string)
    requires 1 <= |c1| <= 2 && 1 <= |c2| <= 2
    requires forall k :: 0 <= k < |c1| ==> IsComparatorChar(c1[k])
    requires forall k :: 0 <= k < |c2| ==> IsComparatorChar(c2[k])
    requires 0 < |t| && IsDigit(t[0])
    ensures Version(c2, t) == Version(c1, t).(comparator := c2)
  {
  }

  lemma SameButComparator(m: Match, m2: Match, op: Op)
    requires WellFormed(m) && WellFormed(m2) && !HasWildcard(m.release)
    requires m2 == m.(comparator := OpText(op)) && OpOf(OpText(op)) == Some(op)
    requires FromMatch(m).Ok?
    ensures FromMatch(m2) == Ok(FromMatch(m).value.(op := op))
  {
  }

  lemma OpTextShape(op: Op)
    ensures 1 <= |OpText(op)| <= 2
    ensures forall k :: 0 <= k < |OpText(op)| ==> IsComparatorChar(OpText(op)[k])
  {
  }

  lemma SegmentValueOfText(n: nat)
    ensures SegmentValue(DecimalText(n)) == n
  {
    ReplaceCharAbsent(DecimalText(n), '*', '0');
    DecimalRoundTrip(n);
  }

  lemma NoWildcard(ns: seq<nat>)
    ensures !HasWildcard(Texts(ns))
  {
    forall i | 0 <= i < |ns|
      ensures '*' !in Texts(ns)[i]
    {
      var d := DecimalText(ns[i]);
      assert forall k :: 0 <= k < |d| ==> d[k] != '*';
    }
  }

  lemma OpOfText(op: Op)
    ensures OpOf(OpText(op)) == Some(op)
  {
  }

  lemma NumberOfValue(n: nat)
    ensures NumberText(NumberOf(n)) && NumberOr(NumberOf(n), MAX_VERSION) == n
  {
    if n != MAX_VERSION {
      DecimalRoundTrip(n);
    }
  }

  lemma ReleaseOf(c: Constraint)
    requires Canonical(c) && WellFormed(MatchOf(c))
    ensures ReleaseAt(MatchOf(c), 0) == c.major
    ensures ReleaseAt(MatchOf(c), 1) == c.minor
    ensures ReleaseAt(MatchOf(c), 2) == c.patch
  {
    var m := MatchOf(c);
    var ns := SegmentsOf(c);
    forall i: nat | i < 3
      ensures ReleaseAt(m, i) == ReleaseField(c, i)
    {
      if i < |ns| {
        SegmentValueOfText(ns[i]);
      }
    }
  }

  lemma PreOfValues(c: Constraint)
    requires PreExclusive(c) && WellFormed(MatchOf(c))
    ensures PreField(MatchOf(c), "a") == c.alpha
    ensures PreField(MatchOf(c), "b") == c.beta
    ensures PreField(MatchOf(c), "rc") == c.rc
  {
    if c.alpha != MAX_VERSION { DecimalRoundTrip(c.alpha); }
    if c.beta != MAX_VERSION { DecimalRoundTrip(c.beta); }
    if c.rc != MAX_VERSION { DecimalRoundTrip(c.rc); }
  }

  lemma FromMatchOf(c: Constraint)
    requires Canonical(c)
    ensures WellFormed(MatchOf(c))
    ensures FromMatch(MatchOf(c)) == Ok(c)
  {
    ScanRender(c);
    var m := MatchOf(c);
    NoWildcard(SegmentsOf(c));
    OpOfText(c.op);
    assert EffectiveComparator(m) == OpText(c.op);
    NumberOfValue(c.post1);
    NumberOfValue(c.post2);
    NumberOfValue(c.dev);
    DecimalRoundTrip(c.epoch);
    assert NumberOr(m.epoch, 0) == c.epoch;
    assert NumberOr(m.postN2, MAX_VERSION) == c.post2;
    ReleaseOf(c);
    PreOfValues(c);
  }

  /** The round trip: every constraint `from_string` can produce is read
      back from its rendering. */
  lemma RenderRoundTrip(c: Constraint)
    requires Canonical(c)
    ensures FromString(Render(c)) == Ok(c)
  {
    ScanRender(c);
    FromMatchOf(c);
  }

  /** The constraints `from_string` produces are exactly the canonical
      ones. */
  lemma CanonicalIsImage(c: Constraint)
    ensures Canonical(c) <==> exists raw :: FromString(raw) == Ok(c)
  {
    if Canonical(c) {
      RenderRoundTrip(c);
    }
  }
}
