/** The local-version label. `+` belongs to no class of the constraint
    grammar, so a text that starts with it stops every stage of the scanner
    exactly where the end of the text would: whatever follows a version,
    from `+` on, is left unread, and `re.match` needs no more than a prefix.
    The `(?:\+(?P<local>…))?` group that reads it is optional and comes
    last, so it cannot change an earlier group either. */
module LocalVersion {
  import opened Text
  import opened Results
  import opened ConstraintScan
  import opened Constraints
  import ConstraintRender
  import Legacy = LegacyConstraints

  /** A tail the grammar never reads: it starts with `+`. */
  predicate LocalTail(w: string) {
    0 < |w| && w[0] == '+'
  }

  // ----- one lemma per scanner stage: the tail is carried along -----

  lemma RunStops(t: string, w: string, cls: CharClass)
    requires LocalTail(w) && (cls == Digit || cls == DigitOrStar)
    ensures Run(t + w, cls) == Run(t, cls)
  {
    var n := Run(t, cls);
    assert forall k :: 0 <= k < n ==> (t + w)[k] == t[k];
    assert (t + w)[n] == (if n < |t| then t[n] else w[0]);
    RunUnique(t + w, cls, n);
  }

  lemma DigitRunStops(t: string, w: string)
    requires LocalTail(w)
    ensures DigitRun(t + w) == DigitRun(t)
  {
    RunStops(t, w, Digit);
  }

  /** Slicing a text after its first `n` characters keeps the tail. */
  lemma SliceKeepsTail(t: string, w: string, n: nat)
    requires n <= |t|
    ensures (t + w)[..n] == t[..n] && (t + w)[n..] == t[n..] + w
  {
  }

  lemma SkipSepStops(t: string, w: string)
    requires LocalTail(w)
    ensures SkipSep(t + w) == SkipSep(t) + w
  {
    if 0 < |t| {
      assert (t + w)[0] == t[0];
      SliceKeepsTail(t, w, 1);
    }
  }

  lemma StartsStops(t: string, w: string, lab: string)
    requires LocalTail(w) && '+' !in lab
    ensures StartsWith(t + w, lab) <==> StartsWith(t, lab)
  {
    if |lab| <= |t| {
      SliceKeepsTail(t, w, |lab|);
    } else if |lab| <= |t + w| {
      assert (t + w)[..|lab|][|t|] == '+';
      assert lab[|t|] in lab;
    }
  }

  /** Labels the tail cannot complete. */
  predicate Plain(labels: seq<string>) {
    forall i :: 0 <= i < |labels| ==> '+' !in labels[i]
  }

  lemma {:induction false} FirstLabelStops(t: string, w: string, labels: seq<string>)
    requires LocalTail(w) && Plain(labels)
    ensures FirstLabel(t + w, labels) == FirstLabel(t, labels)
    decreases |labels|
  {
    if |labels| > 0 {
      StartsStops(t, w, labels[0]);
      assert Plain(labels[1..]) by {
        forall i | 0 <= i < |labels[1..]| ensures '+' !in labels[1..][i] {
          assert labels[1..][i] == labels[i + 1];
        }
      }
      FirstLabelStops(t, w, labels[1..]);
    }
  }

  lemma LabelsPlain()
    ensures Plain(PreLabels) && Plain(PostLabels)
  {
  }

  lemma TagNumberStops(t: string, w: string)
    requires LocalTail(w)
    ensures TagNumber(t + w) == (TagNumber(t).0, TagNumber(t).1 + w)
  {
    var u := SkipSep(t);
    SkipSepStops(t, w);
    DigitRunStops(u, w);
    SliceKeepsTail(u, w, DigitRun(u));
  }

  lemma {:induction false} ReleaseTailStops(t: string, w: string)
    requires LocalTail(w)
    ensures ReleaseTail(t + w) == (ReleaseTail(t).0, ReleaseTail(t).1 + w)
    decreases |t|
  {
    var tw := t + w;
    if 2 <= |t| {
      assert tw[0] == t[0] && tw[1] == t[1];
      if t[0] == '.' && InClass(t[1], DigitOrStar) {
        var u := t[1..];
        SliceKeepsTail(t, w, 1);
        RunStops(u, w, DigitOrStar);
        var n := Run(u, DigitOrStar);
        SliceKeepsTail(u, w, n);
        ReleaseTailStops(u[n..], w);
      }
    } else if |t| == 1 {
      assert tw[1] == '+';
    } else {
      assert tw[0] == '+';
    }
  }

  lemma ReleaseStops(t: string, w: string)
    requires LocalTail(w) && 0 < |t| && IsDigit(t[0])
    ensures Release(t + w) == (Release(t).0, Release(t).1 + w)
  {
    DigitRunStops(t, w);
    var n := DigitRun(t);
    SliceKeepsTail(t, w, n);
    ReleaseTailStops(t[n..], w);
  }

  lemma PreReleaseStops(t: string, w: string)
    requires LocalTail(w)
    ensures PreRelease(t + w) == (PreRelease(t).0, PreRelease(t).1 + w)
  {
    var u := SkipSep(t);
    SkipSepStops(t, w);
    LabelsPlain();
    FirstLabelStops(u, w, PreLabels);
    match FirstLabel(u, PreLabels)
    case None =>
    case Some(i) =>
      SliceKeepsTail(u, w, |PreLabels[i]|);
      TagNumberStops(u[|PreLabels[i]|..], w);
  }

  lemma PostReleaseStops(t: string, w: string)
    requires LocalTail(w)
    ensures var (a, b, r) := PostRelease(t); PostRelease(t + w) == (a, b, r + w)
  {
    var tw := t + w;
    var dash := 1 < |t| && t[0] == '-' && IsDigit(t[1]);
    assert dash <==> 1 < |tw| && tw[0] == '-' && IsDigit(tw[1]) by {
      if 2 <= |t| {
        assert tw[0] == t[0] && tw[1] == t[1];
      } else if |t| == 1 {
        assert tw[1] == '+';
      } else {
        assert tw[0] == '+';
      }
    }
    if dash {
      var u := t[1..];
      SliceKeepsTail(t, w, 1);
      DigitRunStops(u, w);
      SliceKeepsTail(u, w, DigitRun(u));
    } else {
      var u := SkipSep(t);
      SkipSepStops(t, w);
      LabelsPlain();
      FirstLabelStops(u, w, PostLabels);
      match FirstLabel(u, PostLabels)
      case None =>
      case Some(i) =>
        SliceKeepsTail(u, w, |PostLabels[i]|);
        TagNumberStops(u[|PostLabels[i]|..], w);
    }
  }

  lemma DevReleaseStops(t: string, w: string)
    requires LocalTail(w)
    ensures DevRelease(t + w) == (DevRelease(t).0, DevRelease(t).1 + w)
  {
    var u := SkipSep(t);
    SkipSepStops(t, w);
    StartsStops(u, w, "dev");
    if StartsWith(u, "dev") {
      SliceKeepsTail(u, w, 3);
      TagNumberStops(u[3..], w);
    }
  }

  /** The epoch test sees the same characters with or without the tail. */
  lemma EpochStops(t: string, w: string)
    requires LocalTail(w)
    ensures var e := DigitRun(t);
            (e + 1 < |t| && t[e] == '!' && IsDigit(t[e + 1]))
              <==> (e + 1 < |t + w| && (t + w)[e] == '!' && IsDigit((t + w)[e + 1]))
  {
    var e := DigitRun(t);
    var tw := t + w;
    if e + 1 < |t| {
      assert tw[e] == t[e] && tw[e + 1] == t[e + 1];
    } else if e + 1 == |t| {
      assert tw[e + 1] == '+';
    } else {
      assert tw[e] == '+';
    }
  }

  lemma GroupsStops(comparator: string, epoch: Option<string>, t: string, w: string)
    requires LocalTail(w)
    requires 1 <= |comparator| <= 2
    requires forall k :: 0 <= k < |comparator| ==> IsComparatorChar(comparator[k])
    requires NumberText(epoch) && 0 < |t| && IsDigit(t[0])
    ensures Groups(comparator, epoch, t + w) == Groups(comparator, epoch, t).(rest := Groups(comparator, epoch, t).rest + w)
  {
    assert (t + w)[0] == t[0];
    ReleaseStops(t, w);
    var t2 := Release(t).1;
    PreReleaseStops(t2, w);
    var t3 := PreRelease(t2).1;
    PostReleaseStops(t3, w);
    var t4 := PostRelease(t3).2;
    DevReleaseStops(t4, w);
  }

  lemma VersionStops(comparator: string, t: string, w: string)
    requires LocalTail(w)
    requires 1 <= |comparator| <= 2
    requires forall k :: 0 <= k < |comparator| ==> IsComparatorChar(comparator[k])
    requires 0 < |t| && IsDigit(t[0])
    ensures Version(comparator, t + w) == Version(comparator, t).(rest := Version(comparator, t).rest + w)
  {
    var tw := t + w;
    assert tw[0] == t[0];
    DigitRunStops(t, w);
    EpochStops(t, w);
    var e := DigitRun(t);
    var withEpoch := e + 1 < |t| && t[e] == '!' && IsDigit(t[e + 1]);
    var epoch := if withEpoch then Some(t[..e]) else None;
    var t1 := if withEpoch then t[e + 1..] else t;
    if withEpoch {
      SliceKeepsTail(t, w, e);
      SliceKeepsTail(t, w, e + 1);
    }
    assert (if withEpoch then tw[e + 1..] else tw) == t1 + w;
    assert Version(comparator, t) == Groups(comparator, epoch, t1);
    assert Version(comparator, tw) == Groups(comparator, epoch, t1 + w);
    GroupsStops(comparator, epoch, t1, w);
  }

  /** The pattern matches a text with a local tail exactly when it
      matches the text without it: the tail's `+` is neither a comparator
      character nor a digit. */
  lemma MatchesStops(s: string, w: string)
    requires LocalTail(w)
    ensures Matches(s + w) <==> Matches(s)
  {
    var sw := s + w;
    if |s| == 0 {
      assert sw[0] == '+';
    } else {
      assert sw[0] == s[0];
      if |s| == 1 {
        assert sw[1] == '+';
      } else {
        assert sw[1] == s[1];
        if |s| == 2 {
          assert sw[2] == '+';
        } else {
          assert sw[2] == s[2];
        }
      }
    }
  }

  /** `CONSTRAINT_PATTERN.match` on a text with a local tail: the same
      groups as without it, the tail left over. */
  lemma ScanStops(s: string, w: string)
    requires LocalTail(w) && Matches(s)
    ensures Scan(s + w) == Some(Scan(s).value.(rest := Scan(s).value.rest + w))
  {
    var sw := s + w;
    assert sw[0] == s[0] && sw[1] == s[1];
    var cl := if IsComparatorChar(s[1]) then 2 else 1;
    assert cl < |s| && IsDigit(s[cl]);
    assert sw[cl] == s[cl];
    SliceKeepsTail(s, w, cl);
    assert Scan(s) == Some(Version(s[..cl], s[cl..]));
    assert Scan(sw) == Some(Version(s[..cl], s[cl..] + w));
    VersionStops(s[..cl], s[cl..], w);
  }

  /** The constructor never reads the text after the match. */
  lemma FromMatchIgnoresRest(m: Match, rest: string)
    requires WellFormed(m)
    ensures WellFormed(m.(rest := rest))
    ensures FromMatch(m.(rest := rest)) == FromMatch(m)
    ensures Legacy.FromMatch(m.(rest := rest)) == Legacy.FromMatch(m)
  {
  }

  /** A local label never changes a constraint: `>=1.0+abc` reads as
      `>=1.0`, and a text without a match stays without one. */
  lemma LocalIgnored(raw: string, local: string)
    ensures Matches(raw + "+" + local) <==> Matches(raw)
    ensures Matches(raw) ==> FromString(raw + "+" + local) == FromString(raw)
  {
    var w := "+" + local;
    assert raw + "+" + local == raw + w;
    MatchesStops(raw, w);
    if Matches(raw) {
      ScanStops(raw, w);
      FromMatchIgnoresRest(Scan(raw).value, Scan(raw).value.rest + w);
    }
  }

  /** The same for the legacy constraint, which uses the same pattern. */
  lemma LegacyLocalIgnored(raw: string, local: string)
    ensures Matches(raw) ==> Legacy.FromString(raw + "+" + local) == Legacy.FromString(raw)
  {
    var w := "+" + local;
    assert raw + "+" + local == raw + w;
    MatchesStops(raw, w);
    if Matches(raw) {
      ScanStops(raw, w);
      FromMatchIgnoresRest(Scan(raw).value, Scan(raw).value.rest + w);
    }
  }

  /** Every canonical constraint, rendered and given any local label, is
      read back unchanged. */
  lemma RenderedLocal(c: Constraint, local: string)
    requires Canonical(c)
    ensures FromString(ConstraintRender.Render(c) + "+" + local) == Ok(c)
  {
    ConstraintRender.RenderRoundTrip(c);
    LocalIgnored(ConstraintRender.Render(c), local);
  }

  /** A candidate version's local label never changes a verdict. */
  lemma LikesLocal(c: Constraint, version: string, local: string)
    requires Matches("==" + version)
    ensures LikesVersion(c, version + "+" + local) == LikesVersion(c, version)
  {
    assert "==" + (version + "+" + local) == ("==" + version) + "+" + local;
    LocalIgnored("==" + version, local);
  }
}
