/** Character classes, spans and the handful of Python string operations
    (`split`, `replace`, `strip`, `startswith`, `int`) that the parsers use. */
module Text {

  predicate IsDigit(c: char) {
    '0' <= c <= '9'
  }

  /** The regex character classes the two line grammars use. */
  datatype CharClass =
    | Digit         // [0-9]
    | DigitOrStar   // [0-9*]
    | NotNewline    // .
    | PackageChar   // [^\[<>~=!@;]
    | NotSemicolon  // [^;]
    | MarkerKeyChar // [^<>~=!]

  predicate InClass(c: char, cls: CharClass) {
    match cls
    case Digit => IsDigit(c)
    case DigitOrStar => IsDigit(c) || c == '*'
    case NotNewline => c != '\n'
    case PackageChar => c !in {'[', '<', '>', '~', '=', '!', '@', ';'}
    case NotSemicolon => c != ';'
    case MarkerKeyChar => c !in {'<', '>', '~', '=', '!'}
  }

  /** Python's `str.isspace`: the characters `str.strip()` removes. */
  predicate IsSpace(c: char) {
    || '\U{9}' <= c <= '\U{D}' || '\U{1C}' <= c <= '\U{20}'
    || c == '\U{85}' || c == '\U{A0}' || c == '\U{1680}'
    || '\U{2000}' <= c <= '\U{200A}' || c == '\U{2028}' || c == '\U{2029}'
    || c == '\U{202F}' || c == '\U{205F}' || c == '\U{3000}'
  }

  /** Python's `t.startswith(lit)`. */
  predicate StartsWith(t: string, lit: string) {
    |lit| <= |t| && t[..|lit|] == lit
  }

  /** The length of the longest prefix of `t` made of `cls` characters: the
      regex `[...]*` matched greedily. */
  function Run(t: string, cls: CharClass): (n: nat)
    ensures n <= |t|
    ensures forall k :: 0 <= k < n ==> InClass(t[k], cls)
    ensures n == |t| || !InClass(t[n], cls)
  {
    if |t| == 0 || !InClass(t[0], cls) then 0 else 1 + Run(t[1..], cls)
  }

  /** Any prefix that satisfies the two characterising conditions is the run. */
  lemma {:induction false} RunUnique(t: string, cls: CharClass, n: nat)
    requires n <= |t|
    requires forall k :: 0 <= k < n ==> InClass(t[k], cls)
    requires n == |t| || !InClass(t[n], cls)
    ensures Run(t, cls) == n
  {
    if 0 < n {
      RunUnique(t[1..], cls, n - 1);
    }
  }

  /** A run of `cls` characters followed by text that does not start with
      one is read back exactly. */
  lemma RunOfConcat(x: string, y: string, cls: CharClass)
    requires forall k :: 0 <= k < |x| ==> InClass(x[k], cls)
    requires |y| == 0 || !InClass(y[0], cls)
    ensures Run(x + y, cls) == |x|
    ensures (x + y)[..|x|] == x && (x + y)[|x|..] == y
  {
    RunUnique(x + y, cls, |x|);
  }

  /** Length of the greedy run of ASCII digits at the start of `t`. */
  function DigitRun(t: string): (n: nat)
    ensures n <= |t|
    ensures forall k :: 0 <= k < n ==> IsDigit(t[k])
    ensures n == |t| || !IsDigit(t[n])
  {
    Run(t, Digit)
  }

  /** Length of the greedy `.*` at the start of `t`: `.` does not match `\n`. */
  function LineRun(t: string): (n: nat)
    ensures n <= |t|
    ensures forall k :: 0 <= k < n ==> t[k] != '\n'
    ensures n == |t| || t[n] == '\n'
  {
    Run(t, NotNewline)
  }

  predicate NoNewline(s: string) {
    forall k :: 0 <= k < |s| ==> s[k] != '\n'
  }

  /** Python's `int` on a non-empty run of ASCII digits. */
  function DecimalValue(ds: string): (n: nat)
    requires forall k :: 0 <= k < |ds| ==> IsDigit(ds[k])
    ensures |ds| == 0 ==> n == 0
  {
    if |ds| == 0 then 0
    else
      var d := ds[|ds| - 1];
      assert IsDigit(d);
      DecimalValue(ds[..|ds| - 1]) * 10 + (d as int - '0' as int)
  }

  /** Decimal text of `n`, no leading zeros (Python's `str(n)`). */
  function DecimalText(n: nat): (ds: string)
    ensures 0 < |ds|
    ensures forall k :: 0 <= k < |ds| ==> IsDigit(ds[k])
  {
    if n < 10 then [('0' as int + n) as char]
    else DecimalText(n / 10) + [('0' as int + n % 10) as char]
  }

  lemma {:induction false} DecimalRoundTrip(n: nat)
    ensures DecimalValue(DecimalText(n)) == n
  {
    if n >= 10 {
      var ds := DecimalText(n);
      assert ds[..|ds| - 1] == DecimalText(n / 10);
      DecimalRoundTrip(n / 10);
    }
  }

  /** The decimal text of a number, followed by text that does not start
      with a digit, is read back as that number's digits. */
  lemma ReadNumber(n: nat, rest: string)
    requires |rest| == 0 || !IsDigit(rest[0])
    ensures DigitRun(DecimalText(n) + rest) == |DecimalText(n)|
    ensures (DecimalText(n) + rest)[..|DecimalText(n)|] == DecimalText(n)
    ensures (DecimalText(n) + rest)[|DecimalText(n)|..] == rest
  {
    RunOfConcat(DecimalText(n), rest, Digit);
  }

  /** Python's `s.replace(old, new)` for single characters. */
  function ReplaceChar(s: string, from: char, to: char): (r: string)
    ensures |r| == |s|
    ensures forall k :: 0 <= k < |s| ==> r[k] == (if s[k] == from then to else s[k])
  {
    if |s| == 0 then [] else ReplaceChar(s[..|s| - 1], from, to) + [if s[|s| - 1] == from then to else s[|s| - 1]]
  }

  /** Replacing a character the text does not hold changes nothing. */
  lemma ReplaceCharAbsent(s: string, from: char, to: char)
    requires from !in s
    ensures ReplaceChar(s, from, to) == s
  {
    assert forall k :: 0 <= k < |s| ==> s[k] != from;
  }

  /** Python's `s.replace(c, "")`. */
  function RemoveChar(s: string, c: char): (r: string)
    ensures c !in r
    ensures |r| <= |s|
  {
    if |s| == 0 then []
    else if s[0] == c then RemoveChar(s[1..], c)
    else [s[0]] + RemoveChar(s[1..], c)
  }

  /** Removing a character is the identity on text that does not hold it,
      so a second removal changes nothing. */
  lemma {:induction false} RemoveCharAbsent(s: string, c: char)
    requires c !in s
    ensures RemoveChar(s, c) == s
  {
    if |s| > 0 {
      assert s[0] != c;
      assert c !in s[1..];
      RemoveCharAbsent(s[1..], c);
      assert s == [s[0]] + s[1..];
    }
  }

  lemma RemoveCharIdempotent(s: string, c: char)
    ensures RemoveChar(RemoveChar(s, c), c) == RemoveChar(s, c)
  {
    RemoveCharAbsent(RemoveChar(s, c), c);
  }

  /** Removal keeps every other character, in order. */
  lemma {:induction false} RemoveCharAppend(a: string, b: string, c: char)
    ensures RemoveChar(a + b, c) == RemoveChar(a, c) + RemoveChar(b, c)
  {
    if |a| > 0 {
      assert (a + b)[1..] == a[1..] + b;
      RemoveCharAppend(a[1..], b, c);
    } else {
      assert a + b == b;
    }
  }

  /** Removing one character adds no other. */
  lemma {:induction false} RemoveCharKeeps(s: string, c: char, d: char)
    requires d !in s
    ensures d !in RemoveChar(s, c)
    decreases |s|
  {
    if |s| > 0 {
      assert d !in s[1..];
      RemoveCharKeeps(s[1..], c, d);
    }
  }

  /** Python's `str.split(sep)`: the pieces between occurrences of `sep`,
      always at least one. */
  function Split(s: string, sep: char): (parts: seq<string>)
    ensures 0 < |parts|
    ensures forall k :: 0 <= k < |parts| ==> sep !in parts[k]
    decreases |s|
  {
    if |s| == 0 then [""]
    else
      var rest := Split(s[1..], sep);
      if s[0] == sep then [""] + rest
      else [[s[0]] + rest[0]] + rest[1..]
  }

  /** Text without the separator splits into itself alone. */
  lemma {:induction false} SplitAbsent(s: string, sep: char)
    requires sep !in s
    ensures Split(s, sep) == [s]
    decreases |s|
  {
    if |s| > 0 {
      assert sep !in s[1..];
      SplitAbsent(s[1..], sep);
      assert s == [s[0]] + s[1..];
    }
  }

  /** Python's `sep.join(parts)`. */
  function Join(parts: seq<string>, sep: char): string
    requires 0 < |parts|
  {
    if |parts| == 1 then parts[0] else parts[0] + [sep] + Join(parts[1..], sep)
  }

  /** Splitting loses nothing: joining the pieces gives the text back. */
  lemma {:induction false} SplitJoin(s: string, sep: char)
    ensures Join(Split(s, sep), sep) == s
    decreases |s|
  {
    if |s| > 0 {
      var rest := Split(s[1..], sep);
      SplitJoin(s[1..], sep);
      if s[0] == sep {
        assert Split(s, sep)[1..] == rest;
        assert s == [sep] + s[1..];
      } else {
        var parts := Split(s, sep);
        if |rest| == 1 {
          assert parts == [[s[0]] + rest[0]];
          assert s == [s[0]] + s[1..];
        } else {
          assert parts[1..] == rest[1..];
          assert Join(rest, sep) == rest[0] + [sep] + Join(rest[1..], sep);
          assert s == [s[0]] + s[1..];
        }
      }
    }
  }

  /** Joining pieces that do not hold the separator and splitting again gives
      the pieces back. */
  lemma {:induction false} JoinSplit(parts: seq<string>, sep: char)
    requires 0 < |parts|
    requires forall k :: 0 <= k < |parts| ==> sep !in parts[k]
    ensures Split(Join(parts, sep), sep) == parts
    decreases |parts|, |parts[0]|
  {
    if |parts[0]| > 0 {
      var p := parts[0];
      var parts' := [p[1..]] + parts[1..];
      assert sep !in p[1..];
      assert forall k :: 0 <= k < |parts'| ==> sep !in parts'[k] by {
        forall k | 0 <= k < |parts'| ensures sep !in parts'[k] {
          if k > 0 { assert parts'[k] == parts[k]; }
        }
      }
      JoinSplit(parts', sep);
      var j := Join(parts, sep);
      JoinHead(parts, sep);
      assert j[0] == p[0] && p[0] != sep;
      assert j[1..] == Join(parts', sep);
      assert [p[0]] + p[1..] == p;
      assert [p] + parts[1..] == parts;
    } else if |parts| > 1 {
      var j := Join(parts, sep);
      JoinSplit(parts[1..], sep);
      assert j == [sep] + Join(parts[1..], sep);
      assert j[1..] == Join(parts[1..], sep);
      assert [""] + parts[1..] == parts;
    }
  }

  /** Joining peels off the first character of a non-empty first piece. */
  lemma JoinHead(parts: seq<string>, sep: char)
    requires 0 < |parts| && 0 < |parts[0]|
    ensures Join(parts, sep) == [parts[0][0]] + Join([parts[0][1..]] + parts[1..], sep)
  {
    var p := parts[0];
    var parts' := [p[1..]] + parts[1..];
    assert p == [p[0]] + p[1..];
    if |parts| > 1 {
      assert parts'[1..] == parts[1..];
    }
  }

  /** First index at or after `i` that does not hold whitespace. */
  function SkipSpaces(s: string, i: nat): (j: nat)
    requires i <= |s|
    ensures i <= j <= |s|
    ensures forall k :: i <= k < j ==> IsSpace(s[k])
    ensures j == |s| || !IsSpace(s[j])
    decreases |s| - i
  {
    if i == |s| || !IsSpace(s[i]) then i else SkipSpaces(s, i + 1)
  }

  /** Last index `j`, down to `lo`, such that `s[j - 1]` is not whitespace. */
  function SkipSpacesBack(s: string, lo: nat, j: nat): (r: nat)
    requires lo <= j <= |s|
    ensures lo <= r <= j
    ensures forall k :: r <= k < j ==> IsSpace(s[k])
    ensures r == lo || !IsSpace(s[r - 1])
    decreases j
  {
    if j == lo || !IsSpace(s[j - 1]) then j else SkipSpacesBack(s, lo, j - 1)
  }

  /** Python's `str.strip()`: the text between the leading and trailing
      whitespace. */
  function Strip(s: string): (r: string)
    ensures |r| == 0 || (!IsSpace(r[0]) && !IsSpace(r[|r| - 1]))
    ensures exists i, j :: 0 <= i <= j <= |s| && r == s[i..j]
              && (forall k :: 0 <= k < i ==> IsSpace(s[k]))
              && (forall k :: j <= k < |s| ==> IsSpace(s[k]))
  {
    var i := SkipSpaces(s, 0);
    var j := SkipSpacesBack(s, i, |s|);
    assert forall k :: j <= k < |s| ==> IsSpace(s[k]);
    s[i..j]
  }

  /** Text without whitespace is its own strip. */
  lemma StripNoSpace(s: string)
    requires forall k :: 0 <= k < |s| ==> !IsSpace(s[k])
    ensures Strip(s) == s
  {
    assert SkipSpaces(s, 0) == 0;
    assert SkipSpacesBack(s, 0, |s|) == |s|;
    assert s[0..|s|] == s;
  }

  /** Stripping adds no newline. */
  lemma StripNoNewline(s: string)
    requires NoNewline(s)
    ensures NoNewline(Strip(s))
  {
    var i := SkipSpaces(s, 0);
    var j := SkipSpacesBack(s, i, |s|);
    assert Strip(s) == s[i..j];
    assert forall k :: 0 <= k < j - i ==> s[i..j][k] == s[i + k];
  }

  /** `SkipSpaces` stops at the first non-whitespace character. */
  lemma {:induction false} SkipSpacesAt(s: string, i: nat, n: nat)
    requires i <= n <= |s|
    requires forall k :: i <= k < n ==> IsSpace(s[k])
    requires n == |s| || !IsSpace(s[n])
    ensures SkipSpaces(s, i) == n
    decreases n - i
  {
    if i < n {
      SkipSpacesAt(s, i + 1, n);
    }
  }

  /** `SkipSpacesBack` stops after the last non-whitespace character. */
  lemma {:induction false} SkipSpacesBackAt(s: string, lo: nat, j: nat, m: nat)
    requires lo <= m <= j <= |s|
    requires forall k :: m <= k < j ==> IsSpace(s[k])
    requires m == lo || !IsSpace(s[m - 1])
    ensures SkipSpacesBack(s, lo, j) == m
    decreases j
  {
    if m < j {
      SkipSpacesBackAt(s, lo, j - 1, m);
    }
  }

  /** Whitespace around a text that neither starts nor ends with
      whitespace is exactly what `strip` removes. */
  lemma StripOf(p: string, m: string, q: string)
    requires forall k :: 0 <= k < |p| ==> IsSpace(p[k])
    requires forall k :: 0 <= k < |q| ==> IsSpace(q[k])
    requires |m| == 0 || (!IsSpace(m[0]) && !IsSpace(m[|m| - 1]))
    ensures Strip(p + m + q) == m
  {
    var s := p + m + q;
    if |m| == 0 {
      assert forall k :: 0 <= k < |s| ==> IsSpace(s[k]) by {
        forall k | 0 <= k < |s| ensures IsSpace(s[k]) {
          if k < |p| { assert s[k] == p[k]; } else { assert s[k] == q[k - |p|]; }
        }
      }
      SkipSpacesAt(s, 0, |s|);
      SkipSpacesBackAt(s, |s|, |s|, |s|);
    } else {
      var i := |p|;
      var j := |p| + |m|;
      assert forall k :: 0 <= k < i ==> s[k] == p[k];
      assert s[i] == m[0] && s[j - 1] == m[|m| - 1];
      SkipSpacesAt(s, 0, i);
      assert forall k :: j <= k < |s| ==> s[k] == q[k - j];
      SkipSpacesBackAt(s, i, |s|, j);
      assert s[i..j] == m;
    }
  }

  /** Removing a character from whitespace leaves whitespace. */
  lemma {:induction false} RemoveCharSpaces(s: string, c: char)
    requires forall k :: 0 <= k < |s| ==> IsSpace(s[k])
    ensures forall k :: 0 <= k < |RemoveChar(s, c)| ==> IsSpace(RemoveChar(s, c)[k])
    decreases |s|
  {
    if |s| > 0 {
      RemoveCharSpaces(s[1..], c);
    }
  }

  /** Removal keeps the first and the last character when neither is the
      removed one. */
  lemma RemoveCharEnds(s: string, c: char)
    requires 0 < |s| && s[0] != c && s[|s| - 1] != c
    ensures var r := RemoveChar(s, c); 0 < |r| && r[0] == s[0] && r[|r| - 1] == s[|s| - 1]
  {
    var n := |s| - 1;
    assert s == s[..n] + [s[n]];
    RemoveCharAppend(s[..n], [s[n]], c);
    assert RemoveChar([s[n]], c) == [s[n]];
  }

  /** Python's `s.strip().replace(" ", "")` equals
      `s.replace(" ", "").strip()`: removing spaces and stripping commute. */
  lemma StripRemoveSpaces(s: string)
    ensures Strip(RemoveChar(s, ' ')) == RemoveChar(Strip(s), ' ')
  {
    var p, q := StripParts(s);
    RemoveAround(p, Strip(s), q);
  }

  /** The whitespace `strip` removes, on either side. */
  lemma StripParts(s: string) returns (p: string, q: string)
    ensures s == p + Strip(s) + q
    ensures AllSpace(p) && AllSpace(q)
  {
    var i, j := StripBounds(s);
    ThreeSlices(s, i, j);
    p := s[..i];
    q := s[j..];
  }

  lemma StripBounds(s: string) returns (i: nat, j: nat)
    ensures i <= j <= |s| && Strip(s) == s[i..j]
    ensures AllSpace(s[..i]) && AllSpace(s[j..])
  {
    i := SkipSpaces(s, 0);
    j := SkipSpacesBack(s, i, |s|);
    SliceSpaces(s, 0, i);
    SliceSpaces(s, j, |s|);
    assert s[..i] == s[0..i] && s[j..] == s[j..|s|];
  }

  lemma ThreeSlices(s: string, i: nat, j: nat)
    requires i <= j <= |s|
    ensures s == s[..i] + s[i..j] + s[j..]
  {
    assert s[i..] == s[i..j] + s[j..];
    assert s == s[..i] + s[i..];
  }

  predicate AllSpace(t: string) {
    forall k :: 0 <= k < |t| ==> IsSpace(t[k])
  }

  lemma SliceSpaces(s: string, i: nat, j: nat)
    requires i <= j <= |s| && forall k :: i <= k < j ==> IsSpace(s[k])
    ensures AllSpace(s[i..j])
  {
    forall k | 0 <= k < j - i ensures IsSpace(s[i..j][k]) { assert s[i..j][k] == s[i + k]; }
  }

  lemma RemoveAround(p: string, m: string, q: string)
    requires AllSpace(p) && AllSpace(q)
    requires |m| == 0 || (!IsSpace(m[0]) && !IsSpace(m[|m| - 1]))
    ensures Strip(RemoveChar(p + m + q, ' ')) == RemoveChar(m, ' ')
  {
    RemoveCharAppend(p + m, q, ' ');
    RemoveCharAppend(p, m, ' ');
    RemoveCharSpaces(p, ' ');
    RemoveCharSpaces(q, ' ');
    if |m| > 0 {
      assert IsSpace(' ');
      RemoveCharEnds(m, ' ');
    }
    StripOf(RemoveChar(p, ' '), RemoveChar(m, ' '), RemoveChar(q, ' '));
  }

  /** The lines of a file: `\n` splits them. */
  function Lines(text: string): (lines: seq<string>)
    ensures forall i :: 0 <= i < |lines| ==> NoNewline(lines[i])
  {
    var lines := Split(text, '\n');
    assert forall i :: 0 <= i < |lines| ==> '\n' !in lines[i];
    lines
  }
}
