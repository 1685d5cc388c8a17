/** A deterministic scanner for the constraint grammar (a PEP 440 public
    version identifier behind one or two comparator characters), reproducing
    what Python's backtracking `re.match` returns for it: alternatives are
    tried left to right, quantifiers are greedy, and the match need only
    cover a prefix of the text. Each stage reads the unmatched remainder and
    returns what it captured and the new remainder. Both the current and the
    legacy constraint parsers use this grammar. */
module ConstraintScan {
  import opened Text
  import opened Results

  /** Characters of the comparator group `[<>~=!@]{1,2}`. */
  predicate IsComparatorChar(c: char) {
    c in {'<', '>', '~', '=', '!', '@'}
  }

  /** Characters of the optional separator `[-_\.]?`. */
  predicate IsSeparator(c: char) {
    c in {'-', '_', '.'}
  }

  /** The pre-release alternation, in the order Python tries it; `alpha`,
      `beta` and `preview` can never be chosen, because `a`, `b` and `pre`
      come first and already match their beginnings. */
  const PreLabels: seq<string> := ["a", "b", "c", "rc", "alpha", "beta", "pre", "preview"]

  /** The verbose post-release alternation, in the order Python tries it. */
  const PostLabels: seq<string> := ["post", "rev", "r"]

  datatype PreTag = PreTag(tag: string, number: Option<string>)

  /** The groups of one match: the comparator text, the epoch digits, the
      release group split on `.`, the pre-release tag with its optional
      number, the two post-release numbers (`-N` and `post N`), the dev
      number, and the text after the match. The local-version group is not
      kept: nothing reads it, and it cannot make the match fail. */
  datatype Match = Match(
    comparator: string,
    epoch: Option<string>,
    release: seq<string>,
    pre: Option<PreTag>,
    postN1: Option<string>,
    postN2: Option<string>,
    devN: Option<string>,
    rest: string)

  predicate AllDigits(ds: string) {
    forall k :: 0 <= k < |ds| ==> IsDigit(ds[k])
  }

  /** Release segments after splitting on `.`: non-empty runs of `[0-9*]`. */
  predicate SegmentsText(segs: seq<string>) {
    forall i :: 0 <= i < |segs| ==>
      (0 < |segs[i]| && forall k :: 0 <= k < |segs[i]| ==> InClass(segs[i][k], DigitOrStar))
  }

  predicate NumberText(ds: Option<string>) {
    ds.Some? ==> 0 < |ds.value| && AllDigits(ds.value)
  }

  /** What every match satisfies: the shapes of its groups. */
  ghost predicate WellFormed(m: Match) {
    && 1 <= |m.comparator| <= 2
    && (forall k :: 0 <= k < |m.comparator| ==> IsComparatorChar(m.comparator[k]))
    && NumberText(m.epoch)
    && 0 < |m.release|
    && 0 < |m.release[0]| && AllDigits(m.release[0])
    && SegmentsText(m.release)
    && (m.pre.Some? ==> m.pre.value.tag in {"a", "b", "c", "rc", "pre"} && NumberText(m.pre.value.number))
    && NumberText(m.postN1) && NumberText(m.postN2) && NumberText(m.devN)
    && !(m.postN1.Some? && m.postN2.Some?)
  }

  /** The regex matches at the start of `s` exactly when one or two
      comparator characters are followed by a digit: everything after the
      first release number is optional. */
  predicate Matches(s: string) {
    && 2 <= |s| && IsComparatorChar(s[0])
    && (IsDigit(s[1]) || (3 <= |s| && IsComparatorChar(s[1]) && IsDigit(s[2])))
  }

  /** `[-_\.]?`, greedy: the text after an optional separator. */
  function SkipSep(t: string): (r: string)
    ensures r == t || (0 < |t| && IsSeparator(t[0]) && r == t[1..])
  {
    if 0 < |t| && IsSeparator(t[0]) then t[1..] else t
  }

  /** The index of the first of `labels` that `t` starts with, as a
      left-to-right alternation picks it. */
  function FirstLabel(t: string, labels: seq<string>): (r: Option<nat>)
    ensures r.Some? ==> r.value < |labels| && StartsWith(t, labels[r.value])
    ensures r.Some? ==> forall i :: 0 <= i < r.value ==> !StartsWith(t, labels[i])
    ensures r.None? ==> forall i :: 0 <= i < |labels| ==> !StartsWith(t, labels[i])
  {
    if |labels| == 0 then None
    else if StartsWith(t, labels[0]) then Some(0)
    else match FirstLabel(t, labels[1..])
      case None => None
      case Some(i) => Some(i + 1)
  }

  /** An alternative that extends an earlier one can never be chosen. */
  lemma Shadowed(t: string, labels: seq<string>, later: nat, earlier: nat)
    requires earlier < later < |labels|
    requires |labels[earlier]| <= |labels[later]|
    requires labels[later][..|labels[earlier]|] == labels[earlier]
    ensures FirstLabel(t, labels) != Some(later)
  {
  }

  /** `[-_\.]?(?P<n>[0-9]+)?` after a label: the number, if any, and the
      remainder. A trailing separator is consumed even without a number. */
  function TagNumber(t: string): (r: (Option<string>, string))
    ensures |r.1| <= |t| && NumberText(r.0)
  {
    var u := SkipSep(t);
    var n := DigitRun(u);
    if 0 < n then (Some(u[..n]), u[n..]) else (None, u)
  }

  /** A digit-or-star segment in front of valid segments keeps them valid. */
  lemma SegmentsCons(head: string, segs: seq<string>)
    requires 0 < |head| && forall k :: 0 <= k < |head| ==> InClass(head[k], DigitOrStar)
    requires SegmentsText(segs)
    ensures SegmentsText([head] + segs)
  {
    assert forall i :: 1 <= i < |[head] + segs| ==> ([head] + segs)[i] == segs[i - 1];
  }

  /** `(?:\.[0-9*]+)*` after the first release number: the further segments
      and the remainder. */
  function ReleaseTail(t: string): (r: (seq<string>, string))
    ensures |r.1| <= |t|
    ensures SegmentsText(r.0)
    decreases |t|
  {
    if 1 < |t| && t[0] == '.' && InClass(t[1], DigitOrStar) then
      var u := t[1..];
      var n := Run(u, DigitOrStar);
      var (segs, rest) := ReleaseTail(u[n..]);
      SegmentsCons(u[..n], segs);
      ([u[..n]] + segs, rest)
    else ([], t)
  }

  /** The release group `[0-9]+(?:\.[0-9*]+)*`, split on `.`. */
  function Release(t: string): (r: (seq<string>, string))
    requires 0 < |t| && IsDigit(t[0])
    ensures |r.1| < |t|
    ensures 0 < |r.0| && SegmentsText(r.0) && AllDigits(r.0[0])
  {
    var n := DigitRun(t);
    var (tail, rest) := ReleaseTail(t[n..]);
    var segs := [t[..n]] + tail;
    assert forall i :: 1 <= i < |segs| ==> segs[i] == tail[i - 1];
    (segs, rest)
  }

  /** `alpha`, `beta` and `preview` extend `a`, `b` and `pre`, which are
      tried first, so the chosen pre-release label is always a short one. */
  lemma PreLabelChosen(u: string, i: nat)
    requires FirstLabel(u, PreLabels) == Some(i)
    ensures PreLabels[i] in {"a", "b", "c", "rc", "pre"}
  {
    assert i < 7 by {
      if i == 7 { Shadowed(u, PreLabels, 7, 6); }
    }
    assert i != 4 by {
      if i == 4 { Shadowed(u, PreLabels, 4, 0); }
    }
    assert i != 5 by {
      if i == 5 { Shadowed(u, PreLabels, 5, 1); }
    }
  }

  /** The optional pre-release group. If a leading separator is consumed but
      no label follows, backtracking to the separator cannot help either,
      since no label starts with a separator. */
  function PreRelease(t: string): (r: (Option<PreTag>, string))
    ensures |r.1| <= |t|
    ensures r.0.Some? ==> r.0.value.tag in {"a", "b", "c", "rc", "pre"} && NumberText(r.0.value.number)
  {
    var u := SkipSep(t);
    match FirstLabel(u, PreLabels)
    case None => (None, t)
    case Some(i) =>
      PreLabelChosen(u, i);
      var (n, rest) := TagNumber(u[|PreLabels[i]|..]);
      (Some(PreTag(PreLabels[i], n)), rest)
  }

  /** The optional post-release group: `-N` is tried first, then the
      verbose `post`/`rev`/`r` form. Returns the `-N` number, the verbose
      number and the remainder. */
  function PostRelease(t: string): (r: (Option<string>, Option<string>, string))
    ensures |r.2| <= |t|
    ensures NumberText(r.0) && NumberText(r.1) && !(r.0.Some? && r.1.Some?)
  {
    if 1 < |t| && t[0] == '-' && IsDigit(t[1]) then
      var u := t[1..];
      var n := DigitRun(u);
      (Some(u[..n]), None, u[n..])
    else
      var u := SkipSep(t);
      match FirstLabel(u, PostLabels)
      case None => (None, None, t)
      case Some(i) =>
        var (n, rest) := TagNumber(u[|PostLabels[i]|..]);
        (None, n, rest)
  }

  /** The optional dev-release group. */
  function DevRelease(t: string): (r: (Option<string>, string))
    ensures |r.1| <= |t| && NumberText(r.0)
  {
    var u := SkipSep(t);
    if StartsWith(u, "dev") then TagNumber(u[3..]) else (None, t)
  }

  /** The version that follows the comparator. The epoch is taken when its
      digits are followed by `!` and a digit; otherwise Python backtracks
      and reads those digits as the release. */
  function Version(comparator: string, t: string): (m: Match)
    requires 1 <= |comparator| <= 2
    requires forall k :: 0 <= k < |comparator| ==> IsComparatorChar(comparator[k])
    requires 0 < |t| && IsDigit(t[0])
    ensures WellFormed(m) && m.comparator == comparator && |m.rest| < |t|
  {
    var e := DigitRun(t);
    var withEpoch := e + 1 < |t| && t[e] == '!' && IsDigit(t[e + 1]);
    var epoch := if withEpoch then Some(t[..e]) else None;
    assert NumberText(epoch) by {
      if withEpoch {
        assert forall k :: 0 <= k < e ==> t[..e][k] == t[k];
      }
    }
    var t1 := if withEpoch then t[e + 1..] else t;
    assert 0 < |t1| && IsDigit(t1[0]) && |t1| <= |t|;
    Groups(comparator, epoch, t1)
  }

  /** The release, pre-, post- and dev-release groups, in pattern order,
      read from the text after the epoch. */
  function Groups(comparator: string, epoch: Option<string>, t: string): (m: Match)
    requires 1 <= |comparator| <= 2
    requires forall k :: 0 <= k < |comparator| ==> IsComparatorChar(comparator[k])
    requires NumberText(epoch) && 0 < |t| && IsDigit(t[0])
    ensures WellFormed(m) && m.comparator == comparator && m.epoch == epoch && |m.rest| < |t|
  {
    var (release, t2) := Release(t);
    var (pre, t3) := PreRelease(t2);
    var (n1, n2, t4) := PostRelease(t3);
    var (dev, t5) := DevRelease(t4);
    Match(comparator, epoch, release, pre, n1, n2, dev, t5)
  }

  /** `CONSTRAINT_PATTERN.match(s)`. The comparator takes two characters
      when the second is also a comparator character; giving one back can
      never help, because the version must then start at a comparator
      character, not a digit. */
  function Scan(s: string): (m: Option<Match>)
    ensures m.Some? <==> Matches(s)
    ensures m.Some? ==> WellFormed(m.value)
    ensures m.Some? ==> StartsWith(s, m.value.comparator) && |m.value.rest| < |s|
    ensures m.Some? && IsComparatorChar(s[1]) ==> m.value.comparator == s[..2]
  {
    if |s| == 0 || !IsComparatorChar(s[0]) then None
    else
      var cl := if 2 <= |s| && IsComparatorChar(s[1]) then 2 else 1;
      if cl < |s| && IsDigit(s[cl]) then Some(Version(s[..cl], s[cl..])) else None
  }
}
