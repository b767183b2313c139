/**
 * The "negative number" regular expression of fixpet.py,
 * `-\d+\.?\d*([eE][-+]?\d+)?`, with `re.sub(..., '0', line)` and
 * `len(re.findall(...))` over it.
 *
 * Every part of the expression after the leading `-\d` is optional, so the
 * backtracking matcher keeps its first, greedy choice at every step: the
 * match at a position is unique and its length is computed directly.  The
 * one retreat is inside the exponent group: when `e`, a sign and no digit
 * follow, the whole group is dropped.  `\d` is taken over ASCII digits.
 */
module NegativePattern {
  import opened Text

  /** End of the run of digits starting at position `i` (`\d*`). */
  function DigitsEnd(s: string, i: nat): (j: nat)
    requires i <= |s|
    ensures i <= j <= |s|
    ensures forall k :: i <= k < j ==> IsDigit(s[k])
    ensures j < |s| ==> !IsDigit(s[j])
    decreases |s| - i
  {
    if i == |s| || !IsDigit(s[i]) then i else DigitsEnd(s, i + 1)
  }

  /** Characters a match can consist of. */
  predicate NumberChar(c: char) {
    IsDigit(c) || c == '-' || c == '+' || c == '.' || c == 'e' || c == 'E'
  }

  /** End of the optional group `([eE][-+]?\d+)?` starting at `i`: `i`
      itself when no exponent with at least one digit is there. */
  function ExponentEnd(s: string, i: nat): (j: nat)
    requires i <= |s|
    ensures i <= j <= |s|
    ensures j > i ==> j >= i + 2 && (s[i] == 'e' || s[i] == 'E')
  {
    if i == |s| || (s[i] != 'e' && s[i] != 'E') then i
    else
      var k := if i + 1 < |s| && (s[i + 1] == '-' || s[i + 1] == '+') then i + 2 else i + 1;
      var e := DigitsEnd(s, k);
      if e == k then i else e
  }

  /** End of `\d*([eE][-+]?\d+)?` starting at `i`. */
  function FractionEnd(s: string, i: nat): (j: nat)
    requires i <= |s|
    ensures i <= j <= |s|
  {
    ExponentEnd(s, DigitsEnd(s, i))
  }

  /** End of `\.?\d*([eE][-+]?\d+)?` starting at `i`. */
  function PointEnd(s: string, i: nat): (j: nat)
    requires i <= |s|
    ensures i <= j <= |s|
  {
    if i < |s| && s[i] == '.' then FractionEnd(s, i + 1) else FractionEnd(s, i)
  }

  /** Length of the match anchored at the start of `s`, or 0 when the
      expression does not match there. */
  function MatchLen(s: string): (r: nat)
    ensures r <= |s|
    ensures r > 0 <==> |s| >= 2 && s[0] == '-' && IsDigit(s[1])
    ensures r > 0 ==> r >= 2
  {
    if |s| < 2 || s[0] != '-' || !IsDigit(s[1]) then 0
    else PointEnd(s, DigitsEnd(s, 1))
  }

  /** How far the scan moves from the start of a non-empty `s`: past the
      match, or one character when there is none. */
  function Step(s: string): (r: nat)
    requires |s| > 0
    ensures 1 <= r <= |s|
  {
    if MatchLen(s) > 0 then MatchLen(s) else 1
  }

  /** What the substitution writes for that step: `0` for a match, the
      character itself otherwise. */
  function Emit(s: string): char
    requires |s| > 0
  {
    if MatchLen(s) > 0 then '0' else s[0]
  }

  /** `re.sub(pattern, '0', s)`: scanning left to right, each match is
      replaced by `0` and the scan resumes after it. */
  function Sanitize(s: string): (r: string)
    ensures |r| <= |s|
    decreases |s|
  {
    if |s| == 0 then [] else [Emit(s)] + Sanitize(s[Step(s)..])
  }

  /** `len(re.findall(pattern, s))`: the number of matches the same scan finds. */
  function CountMatches(s: string): (n: nat)
    ensures 2 * n <= |s|
    decreases |s|
  {
    if |s| == 0 then 0
    else (if MatchLen(s) > 0 then 1 else 0) + CountMatches(s[Step(s)..])
  }

  /** Reference definition: a minus sign immediately followed by a digit. */
  predicate HasDashDigit(s: string) {
    exists i :: 0 <= i < |s| - 1 && s[i] == '-' && IsDigit(s[i + 1])
  }

  /** Every match shrinks to one character, so the sanitized text is shorter
      than the input by at least the number of matches. */
  lemma {:induction false} SanitizeShrinks(s: string)
    ensures |Sanitize(s)| + CountMatches(s) <= |s|
    decreases |s|
  {
    if |s| > 0 {
      SanitizeShrinks(s[Step(s)..]);
    }
  }

  /** The scan finds a match exactly when some minus sign is followed by a
      digit: a match can start at any such position the scan lands on, and
      a position the scan jumps over lies inside a match. */
  lemma {:induction false} CountZeroIffNoDashDigit(s: string)
    ensures CountMatches(s) == 0 <==> !HasDashDigit(s)
    decreases |s|
  {
    if |s| > 0 {
      if MatchLen(s) > 0 {
        assert s[0] == '-' && IsDigit(s[1]);
      } else {
        CountZeroIffNoDashDigit(s[1..]);
        if HasDashDigit(s) {
          var i :| 0 <= i < |s| - 1 && s[i] == '-' && IsDigit(s[i + 1]);
          assert i != 0;
          assert s[1..][i - 1] == '-' && IsDigit(s[1..][i]);
        }
        if HasDashDigit(s[1..]) {
          var i :| 0 <= i < |s[1..]| - 1 && s[1..][i] == '-' && IsDigit(s[1..][i + 1]);
          assert s[i + 1] == '-' && IsDigit(s[i + 2]);
        }
      }
    }
  }

  /** The sanitizer changes a line exactly when it finds a match in it. */
  lemma SanitizeUnchangedIffNoMatch(s: string)
    ensures Sanitize(s) == s <==> CountMatches(s) == 0
  {
    SanitizeShrinks(s);
    if CountMatches(s) == 0 {
      SanitizeWithoutMatch(s);
    }
  }

  lemma {:induction false} SanitizeWithoutMatch(s: string)
    requires CountMatches(s) == 0
    ensures Sanitize(s) == s
    decreases |s|
  {
    if |s| > 0 {
      SanitizeWithoutMatch(s[1..]);
    }
  }

  lemma NoDoubleDashInSuffix(s: string, k: nat)
    requires k <= |s| && !Contains(s, "--")
    ensures !Contains(s[k..], "--")
  {
    var t := s[k..];
    forall i: nat | i <= |t| ensures !OccursAt("--", t, i) {
      if i + 2 <= |t| {
        assert t[i..i + 2] == s[i + k..i + k + 2];
        assert !OccursAt("--", s, i + k);
      }
    }
  }

  /** The first two characters of the output do not form a match. */
  lemma CleanHead(s: string)
    requires |s| > 0 && !Contains(s, "--")
    ensures var t := s[Step(s)..];
      |t| > 0 ==> !(Emit(s) == '-' && IsDigit(Emit(t)))
  {
    var t := s[Step(s)..];
    if |t| > 0 && MatchLen(s) == 0 && s[0] == '-' {
      assert t[0] == s[1];
      assert !OccursAt("--", s, 0);
      assert s[0..2] == [s[0], s[1]];
    }
  }

  /** Without a doubled minus sign in the input, no match is left in the
      output: a minus sign copied to the output was not followed by a
      digit, and the `0` written for a match is never preceded by a minus
      sign, since that sign would have started a `--`. */
  lemma {:induction false} SanitizeCleanWithoutDoubleDash(s: string)
    requires !Contains(s, "--")
    ensures !HasDashDigit(Sanitize(s))
    decreases |s|
  {
    if |s| > 0 {
      var t := s[Step(s)..];
      NoDoubleDashInSuffix(s, Step(s));
      SanitizeCleanWithoutDoubleDash(t);
      CleanHead(s);
      var rest := Sanitize(t);
      PrependClean(Emit(s), rest, if |t| > 0 then Emit(t) else ' ');
    }
  }

  /** A character put in front of a text without a match adds none, unless
      it is a minus sign before a digit. */
  lemma PrependClean(c: char, rest: string, first: char)
    requires !HasDashDigit(rest)
    requires |rest| > 0 ==> rest[0] == first
    requires |rest| > 0 ==> !(c == '-' && IsDigit(first))
    ensures !HasDashDigit([c] + rest)
  {
    var out := [c] + rest;
    forall i | 0 <= i < |out| - 1 ensures !(out[i] == '-' && IsDigit(out[i + 1])) {
      if i > 0 {
        assert out[i] == rest[i - 1] && out[i + 1] == rest[i];
      }
    }
  }

  /** The counterexample to a clean output: `--5` sanitizes to `-0`, which
      the same expression matches again. */
  lemma DoubleDashLeavesMatch()
    ensures Sanitize("--5") == "-0"
    ensures CountMatches("--5") == 1 && CountMatches("-0") == 1
  {
    assert MatchLen("--5") == 0;
    assert "--5"[1..] == "-5";
    assert MatchLen("-5") == 2;
    assert MatchLen("-0") == 2;
  }

  /** A match only covers number characters, so a match starting inside a
      piece that ends in some other character (a space, a newline) does not
      depend on what follows the piece. */
  lemma {:induction false} DigitsStopAtSeparator(x: string, b: string, i: nat)
    requires i < |x| && !NumberChar(x[|x| - 1])
    ensures DigitsEnd(x + b, i) == DigitsEnd(x, i) < |x|
    decreases |x| - i
  {
    assert (x + b)[i] == x[i];
    if IsDigit(x[i]) {
      DigitsStopAtSeparator(x, b, i + 1);
    }
  }

  lemma ExponentStopsAtSeparator(x: string, b: string, i: nat)
    requires i < |x| && !NumberChar(x[|x| - 1])
    ensures ExponentEnd(x + b, i) == ExponentEnd(x, i) < |x|
  {
    var s := x + b;
    assert s[i] == x[i];
    if x[i] == 'e' || x[i] == 'E' {
      assert s[i + 1] == x[i + 1];
      var k := if x[i + 1] == '-' || x[i + 1] == '+' then i + 2 else i + 1;
      DigitsStopAtSeparator(x, b, k);
    }
  }

  lemma FractionStopsAtSeparator(x: string, b: string, i: nat)
    requires i < |x| && !NumberChar(x[|x| - 1])
    ensures FractionEnd(x + b, i) == FractionEnd(x, i) < |x|
  {
    DigitsStopAtSeparator(x, b, i);
    ExponentStopsAtSeparator(x, b, DigitsEnd(x, i));
  }

  lemma PointStopsAtSeparator(x: string, b: string, i: nat)
    requires i < |x| && !NumberChar(x[|x| - 1])
    ensures PointEnd(x + b, i) == PointEnd(x, i) < |x|
  {
    assert (x + b)[i] == x[i];
    if x[i] == '.' {
      FractionStopsAtSeparator(x, b, i + 1);
    } else {
      FractionStopsAtSeparator(x, b, i);
    }
  }

  lemma MatchStopsAtSeparator(x: string, b: string)
    requires |x| > 0 && !NumberChar(x[|x| - 1])
    ensures MatchLen(x + b) == MatchLen(x) < |x|
  {
    var s := x + b;
    assert s[0] == x[0];
    if |x| >= 2 {
      assert s[1] == x[1];
      if x[0] == '-' && IsDigit(x[1]) {
        DigitsStopAtSeparator(x, b, 1);
        PointStopsAtSeparator(x, b, DigitsEnd(x, 1));
      }
    }
  }

  lemma StepStopsAtSeparator(a: string, b: string)
    requires |a| > 0 && !NumberChar(a[|a| - 1])
    ensures Step(a + b) == Step(a) && Emit(a + b) == Emit(a)
    ensures (a + b)[Step(a)..] == a[Step(a)..] + b
  {
    MatchStopsAtSeparator(a, b);
    var m := MatchLen(a);
    assert MatchLen(a + b) == m;
    var k := if m > 0 then m else 1;
    assert Step(a) == k && Step(a + b) == k;
    assert (a + b)[0] == a[0];
    SliceOfAppend(a, b, k);
  }

  lemma SliceOfAppend(a: string, b: string, k: nat)
    requires k <= |a|
    ensures (a + b)[k..] == a[k..] + b
  {
  }

  /** One step of the scan, for the substitution and for the count. */
  lemma ScanUnfold(s: string)
    requires |s| > 0
    ensures Sanitize(s) == [Emit(s)] + Sanitize(s[Step(s)..])
    ensures CountMatches(s) == (if MatchLen(s) > 0 then 1 else 0) + CountMatches(s[Step(s)..])
  {
  }

  /** Sanitizing a piece that ends in a separator (such as a line with its
      newline) and then the rest is the same as sanitizing the whole text;
      matches are counted the same way. */
  lemma SanitizeSplitsAtSeparator(a: string, b: string)
    requires |a| > 0 && !NumberChar(a[|a| - 1])
    ensures Sanitize(a + b) == Sanitize(a) + Sanitize(b)
    ensures CountMatches(a + b) == CountMatches(a) + CountMatches(b)
  {
    SanitizeOfJoined(a, b);
    CountOfJoined(a, b);
  }

  lemma {:induction false} SanitizeOfJoined(a: string, b: string)
    requires |a| > 0 && !NumberChar(a[|a| - 1])
    ensures Sanitize(a + b) == Sanitize(a) + Sanitize(b)
    decreases |a|
  {
    FirstStep(a, b);
    ScanUnfold(a);
    var rest := a[Step(a)..];
    SuffixEnd(a, Step(a));
    if Step(a) < |a| {
      SanitizeOfJoined(rest, b);
    } else {
      SanitizeEmptyHead(b);
    }
    Glue(Sanitize(a + b), Sanitize(a), Sanitize(b), [Emit(a)], Sanitize(rest + b), Sanitize(rest));
  }

  lemma SuffixEnd(a: string, k: nat)
    requires k <= |a|
    ensures k < |a| ==> |a[k..]| > 0 && a[k..][|a[k..]| - 1] == a[|a| - 1]
    ensures k == |a| ==> a[k..] == []
  {
  }

  lemma SanitizeEmptyHead(b: string)
    ensures Sanitize([] + b) == Sanitize([]) + Sanitize(b)
  {
    assert [] + b == b;
  }

  lemma FirstStep(a: string, b: string)
    requires |a| > 0 && !NumberChar(a[|a| - 1])
    ensures Step(a) <= |a|
    ensures Sanitize(a + b) == [Emit(a)] + Sanitize(a[Step(a)..] + b)
  {
    StepStopsAtSeparator(a, b);
    ScanUnfold(a + b);
  }

  lemma Glue(whole: string, left: string, right: string, e: string, tail: string, mid: string)
    requires whole == e + tail && left == e + mid && tail == mid + right
    ensures whole == left + right
  {
  }

  lemma {:induction false} CountOfJoined(a: string, b: string)
    requires |a| > 0 && !NumberChar(a[|a| - 1])
    ensures CountMatches(a + b) == CountMatches(a) + CountMatches(b)
    decreases |a|
  {
    StepStopsAtSeparator(a, b);
    MatchStopsAtSeparator(a, b);
    var k := Step(a);
    var rest := a[k..];
    ScanUnfold(a + b);
    ScanUnfold(a);
    if k < |a| {
      assert rest[|rest| - 1] == a[|a| - 1];
      CountOfJoined(rest, b);
    } else {
      assert rest + b == b;
    }
  }

  /** A character other than a minus sign is copied and the scan moves on. */
  lemma ScanCopies(s: string)
    requires |s| > 0 && s[0] != '-'
    ensures Sanitize(s) == [s[0]] + Sanitize(s[1..])
    ensures CountMatches(s) == CountMatches(s[1..])
  {
  }

  /** A match is replaced by `0` and the scan resumes after it. */
  lemma ScanMatches(s: string)
    requires MatchLen(s) > 0
    ensures Sanitize(s) == "0" + Sanitize(s[MatchLen(s)..])
    ensures CountMatches(s) == 1 + CountMatches(s[MatchLen(s)..])
  {
  }

  /** A prefix without a minus sign is copied as it is. */
  lemma {:induction false} SanitizeDashFreePrefix(p: string, rest: string)
    requires '-' !in p
    ensures Sanitize(p + rest) == p + Sanitize(rest)
    ensures CountMatches(p + rest) == CountMatches(rest)
    decreases |p|
  {
    if |p| == 0 {
      assert p + rest == rest;
    } else {
      var s := p + rest;
      ScanCopies(s);
      assert s[1..] == p[1..] + rest;
      SanitizeDashFreePrefix(p[1..], rest);
      HeadThenTail(p, Sanitize(rest));
    }
  }


  lemma FirstNegativeTokenLength()
    ensures MatchLen("-3.4 ") == 4
  {
    var s := "-3.4 ";
    assert DigitsEnd(s, 1) == 2;
    assert DigitsEnd(s, 3) == 4;
    assert ExponentEnd(s, 4) == 4;
  }

  lemma FirstNegativeToken()
    ensures Sanitize("-3.4 ") == "0 " && CountMatches("-3.4 ") == 1
  {
    FirstNegativeTokenLength();
    OneMatchThenSpace("-3.4 ");
  }

  lemma SecondNegativeTokenLength()
    ensures MatchLen("-5.6e-2 ") == 7
  {
    var s := "-5.6e-2 ";
    assert DigitsEnd(s, 1) == 2;
    assert DigitsEnd(s, 3) == 4;
    assert DigitsEnd(s, 6) == 7;
    assert ExponentEnd(s, 4) == 7;
  }

  lemma SecondNegativeToken()
    ensures Sanitize("-5.6e-2 ") == "0 " && CountMatches("-5.6e-2 ") == 1
  {
    SecondNegativeTokenLength();
    OneMatchThenSpace("-5.6e-2 ");
  }

  lemma SingleSpace(t: string)
    requires t == " "
    ensures Sanitize(t) == " " && CountMatches(t) == 0
  {
    ScanCopies(t);
    assert t[1..] == [];
  }

  /** A text made of one match followed by a single space. */
  lemma OneMatchThenSpace(s: string)
    requires |s| >= 3 && MatchLen(s) == |s| - 1 && s[|s| - 1] == ' '
    ensures Sanitize(s) == "0 " && CountMatches(s) == 1
  {
    ScanMatches(s);
    SingleSpace(s[|s| - 1..]);
  }

  lemma DashFreeTokens()
    ensures '-' !in "1.2 " && '-' !in "7.8" && '-' !in "1.2e"
  {
  }

  lemma LastToken()
    ensures Sanitize("7.8") == "7.8" && CountMatches("7.8") == 0
  {
    DashFreeTokens();
    SanitizeDashFreePrefix("7.8", "");
    assert "7.8" + "" == "7.8";
  }

  lemma TokenSpellings()
    ensures "1.2 " + ("-3.4 " + ("-5.6e-2 " + "7.8")) == "1.2 -3.4 -5.6e-2 7.8"
    ensures "1.2 " + ("0 " + ("0 " + "7.8")) == "1.2 0 0 7.8"
  {
  }

  lemma NegativeTokensTail()
    ensures Sanitize("-3.4 " + ("-5.6e-2 " + "7.8")) == "0 " + ("0 " + "7.8")
    ensures CountMatches("-3.4 " + ("-5.6e-2 " + "7.8")) == 2
  {
    var tail := "-5.6e-2 " + "7.8";
    LastToken();
    SecondNegativeToken();
    SanitizeSplitsAtSeparator("-5.6e-2 ", "7.8");
    assert Sanitize(tail) == "0 " + "7.8" && CountMatches(tail) == 1;
    FirstNegativeToken();
    SanitizeSplitsAtSeparator("-3.4 ", tail);
  }

  /** Two negative tokens, one in scientific notation, each become `0`; the
      positive tokens and the spaces are copied. */
  lemma NegativeTokensZeroed()
    ensures Sanitize("1.2 -3.4 -5.6e-2 7.8") == "1.2 0 0 7.8"
    ensures CountMatches("1.2 -3.4 -5.6e-2 7.8") == 2
  {
    var tail := "-3.4 " + ("-5.6e-2 " + "7.8");
    NegativeTokensTail();
    DashFreeTokens();
    SanitizeDashFreePrefix("1.2 ", tail);
    TokenSpellings();
  }

  lemma ExponentSpellings()
    ensures "1.2e" + "-3" == "1.2e-3" && "1.2e" + "0" == "1.2e0"
    ensures MatchLen("-3") == 2
  {
    assert DigitsEnd("-3", 1) == 2;
  }

  /** A negative exponent inside a positive number is itself a match: only
      the `-3` is replaced. */
  lemma NegativeExponentZeroed()
    ensures Sanitize("1.2e-3") == "1.2e0" && CountMatches("1.2e-3") == 1
  {
    ExponentSpellings();
    DashFreeTokens();
    ScanMatches("-3");
    assert "-3"[2..] == [];
    SanitizeDashFreePrefix("1.2e", "-3");
  }

  /** Line by line sanitizing, as the fixer does it. */
  function SanitizeLines(lines: seq<string>): (r: seq<string>)
    ensures |r| == |lines|
    ensures forall k :: 0 <= k < |lines| ==> r[k] == Sanitize(lines[k])
  {
    if |lines| == 0 then [] else [Sanitize(lines[0])] + SanitizeLines(lines[1..])
  }

  /** Matches counted line by line, as the fixer accumulates them. */
  function CountLines(lines: seq<string>): nat {
    if |lines| == 0 then 0 else CountMatches(lines[0]) + CountLines(lines[1..])
  }

  /** A piece of text split into lines that each end in a newline, except
      possibly the last one. */
  predicate NewlineTerminated(lines: seq<string>) {
    forall k :: 0 <= k < |lines| - 1 ==> |lines[k]| > 0 && lines[k][|lines[k]| - 1] == '\n'
  }

  /** Sanitizing the lines one at a time gives the sanitized text of the
      whole data region, and the per-line counts add up to its count. */
  lemma {:induction false} LinewiseIsWhole(lines: seq<string>)
    requires NewlineTerminated(lines)
    ensures Concat(SanitizeLines(lines)) == Sanitize(Concat(lines))
    ensures CountLines(lines) == CountMatches(Concat(lines))
    decreases |lines|
  {
    if |lines| == 1 {
      assert Concat(lines) == lines[0];
      assert Concat(SanitizeLines(lines)) == Sanitize(lines[0]);
    } else if |lines| > 1 {
      LinewiseIsWhole(lines[1..]);
      assert SanitizeLines(lines)[1..] == SanitizeLines(lines[1..]);
      SanitizeSplitsAtSeparator(lines[0], Concat(lines[1..]));
    }
  }
}
