/**
 * The soil-code remapper of batch_replace_soil.py: nine literal
 * `str.replace` calls, in a fixed order, over the whole text of an ASCII
 * grid file.  Each digit is looked for in three delimited spellings:
 * space-digit-space, newline-digit-space and space-digit-newline.
 *
 * Modelled as written: the 8 -> 7 pass runs before the 7 -> 3 pass, so a
 * lone 8 ends as 3 (the docstring promises 7), and replacement does not
 * overlap, so in a run of equal tokens sharing their spaces only every
 * other one is rewritten.
 */
module SoilRemap {
  import opened Wrappers
  import opened Text
  import opened Replace

  function Spaced(d: char): string { [' ', d, ' '] }
  function LineStart(d: char): string { ['\n', d, ' '] }
  function LineEnd(d: char): string { [' ', d, '\n'] }

  /** The character before and after position `i` form one of the three
      delimited spellings the script searches for. */
  predicate DelimitedAt(s: string, i: nat) {
    0 < i && i + 1 < |s| &&
    ((s[i - 1] == ' ' && s[i + 1] == ' ') ||
     (s[i - 1] == '\n' && s[i + 1] == ' ') ||
     (s[i - 1] == ' ' && s[i + 1] == '\n'))
  }

  lemma OnlyChangesTrans(s: string, t: string, u: string, a: char, b: char)
    requires OnlyChanges(s, t, a, b) && OnlyChanges(t, u, a, b)
    ensures OnlyChanges(s, u, a, b)
  {
  }

  /** One digit's three `replace` calls, in the script's order
      (lines 55-57, 60-62 and 65-67 each have this shape). */
  function ReplaceValue(s: string, d: char, e: char): (r: string)
    ensures OnlyChanges(s, r, d, e)
  {
    var s1 := ReplaceAll(s, Spaced(d), Spaced(e));
    var s2 := ReplaceAll(s1, LineStart(d), LineStart(e));
    var s3 := ReplaceAll(s2, LineEnd(d), LineEnd(e));
    ReplaceOnlyChanges(s, Spaced(d), Spaced(e), d, e);
    ReplaceOnlyChanges(s1, LineStart(d), LineStart(e), d, e);
    ReplaceOnlyChanges(s2, LineEnd(d), LineEnd(e), d, e);
    OnlyChangesTrans(s, s1, s2, d, e);
    OnlyChangesTrans(s, s2, s3, d, e);
    s3
  }

  /** The whole rewrite: 9 -> 6, then 8 -> 7, then 7 -> 3.  The length is
      kept, characters other than 7, 8 and 9 never move or change, a 9 can
      only become 6, an 8 can become 7 or 3, a 7 can become 3. */
  function RemapSoil(content: string): (r: string)
    ensures |r| == |content|
    ensures forall i :: 0 <= i < |content| && content[i] !in "789" ==> r[i] == content[i]
    ensures forall i :: 0 <= i < |content| && content[i] == '9' ==> r[i] in "96"
    ensures forall i :: 0 <= i < |content| && content[i] == '8' ==> r[i] in "873"
    ensures forall i :: 0 <= i < |content| && content[i] == '7' ==> r[i] in "73"
  {
    var a := ReplaceValue(content, '9', '6');
    var b := ReplaceValue(a, '8', '7');
    var c := ReplaceValue(b, '7', '3');
    ThreePasses(content, a, b, c);
    c
  }

  lemma ThreePasses(s: string, a: string, b: string, c: string)
    requires OnlyChanges(s, a, '9', '6') && OnlyChanges(a, b, '8', '7') && OnlyChanges(b, c, '7', '3')
    ensures |c| == |s|
    ensures forall i :: 0 <= i < |s| && s[i] !in "789" ==> c[i] == s[i]
    ensures forall i :: 0 <= i < |s| && s[i] == '9' ==> c[i] in "96"
    ensures forall i :: 0 <= i < |s| && s[i] == '8' ==> c[i] in "873"
    ensures forall i :: 0 <= i < |s| && s[i] == '7' ==> c[i] in "73"
  {
    forall i | 0 <= i < |s|
      ensures s[i] !in "789" ==> c[i] == s[i]
      ensures s[i] == '9' ==> c[i] in "96"
      ensures s[i] == '8' ==> c[i] in "873"
      ensures s[i] == '7' ==> c[i] in "73"
    {
      assert a[i] == s[i] || (s[i] == '9' && a[i] == '6');
      assert b[i] == a[i] || (a[i] == '8' && b[i] == '7');
      assert c[i] == b[i] || (b[i] == '7' && c[i] == '3');
    }
  }

  /** Delimiters are never rewritten, so a position delimited after a pass
      was delimited before it. */
  lemma DelimitedBack(s: string, t: string, a: char, b: char, i: nat)
    requires OnlyChanges(s, t, a, b) && IsDigit(b)
    requires DelimitedAt(t, i)
    ensures DelimitedAt(s, i)
  {
    assert t[i - 1] != b && t[i + 1] != b;
  }

  /** A single `replace` over a delimited spelling only changes a digit that
      sits between the spelling's two delimiters. */
  lemma ReplaceChangeDelimited(s: string, pat: string, rep: string, i: nat)
    requires |pat| == 3 && |rep| == 3 && rep[0] == pat[0] && rep[2] == pat[2]
    requires (pat[0] == ' ' && pat[2] == ' ') || (pat[0] == '\n' && pat[2] == ' ') ||
             (pat[0] == ' ' && pat[2] == '\n')
    requires i < |s| && ReplaceAll(s, pat, rep)[i] != s[i]
    ensures DelimitedAt(s, i)
  {
    var p := ChangeInsideOccurrence(s, pat, rep, i);
    assert i - p != 0 && i - p != 2;
    var occ := s[p..p + 3];
    assert occ == pat;
    assert s[i - 1] == occ[0] && s[i + 1] == occ[2];
  }

  lemma ReplaceValueChangeDelimited(s: string, d: char, e: char, i: nat)
    requires IsDigit(e)
    requires i < |s| && ReplaceValue(s, d, e)[i] != s[i]
    ensures DelimitedAt(s, i)
  {
    var s1 := ReplaceAll(s, Spaced(d), Spaced(e));
    var s2 := ReplaceAll(s1, LineStart(d), LineStart(e));
    var s3 := ReplaceAll(s2, LineEnd(d), LineEnd(e));
    ReplaceOnlyChanges(s, Spaced(d), Spaced(e), d, e);
    ReplaceOnlyChanges(s1, LineStart(d), LineStart(e), d, e);
    OnlyChangesTrans(s, s1, s2, d, e);
    if s1[i] != s[i] {
      ReplaceChangeDelimited(s, Spaced(d), Spaced(e), i);
    } else if s2[i] != s1[i] {
      ReplaceChangeDelimited(s1, LineStart(d), LineStart(e), i);
      DelimitedBack(s, s1, d, e, i);
    } else {
      ReplaceChangeDelimited(s2, LineEnd(d), LineEnd(e), i);
      DelimitedBack(s, s2, d, e, i);
    }
  }

  /** Only a digit standing between two of the searched-for delimiters can
      change: a value at the very start of the text, inside a multi-digit
      token such as 17 or 79, or next to a tab is left as it is. */
  lemma {:induction false} RemapChangesOnlyDelimited(content: string, i: nat)
    requires i < |content| && RemapSoil(content)[i] != content[i]
    ensures DelimitedAt(content, i)
  {
    var a := ReplaceValue(content, '9', '6');
    var b := ReplaceValue(a, '8', '7');
    var c := ReplaceValue(b, '7', '3');
    assert RemapSoil(content) == c;
    if a[i] != content[i] {
      ReplaceValueChangeDelimited(content, '9', '6', i);
    } else if b[i] != a[i] {
      ReplaceValueChangeDelimited(a, '8', '7', i);
      DelimitedBack(content, a, '9', '6', i);
    } else {
      ReplaceValueChangeDelimited(b, '7', '3', i);
      DelimitedBack(a, b, '8', '7', i);
      DelimitedBack(content, a, '9', '6', i);
    }
  }

  /** A pass over text without its digit leaves the text as it is. */
  lemma PassWithoutDigit(s: string, d: char, e: char)
    requires d !in s
    ensures ReplaceValue(s, d, e) == s
  {
    AbsentByChar(s, Spaced(d), d);
    AbsentByChar(s, LineStart(d), d);
    AbsentByChar(s, LineEnd(d), d);
    ReplaceAbsent(s, Spaced(d), Spaced(e));
    ReplaceAbsent(s, LineStart(d), LineStart(e));
    ReplaceAbsent(s, LineEnd(d), LineEnd(e));
  }

  /** A pass over text without newlines only uses its first spelling. */
  lemma PassWithoutNewline(s: string, d: char, e: char)
    requires '\n' !in s && e != '\n'
    ensures ReplaceValue(s, d, e) == ReplaceAll(s, Spaced(d), Spaced(e))
  {
    var s1 := ReplaceAll(s, Spaced(d), Spaced(e));
    ReplaceOnlyChanges(s, Spaced(d), Spaced(e), d, e);
    forall i | 0 <= i < |s1| ensures s1[i] != '\n' {
      assert s1[i] == s[i] || s1[i] == e;
    }
    AbsentByChar(s1, LineStart(d), '\n');
    AbsentByChar(s1, LineEnd(d), '\n');
    ReplaceAbsent(s1, LineStart(d), LineStart(e));
    ReplaceAbsent(s1, LineEnd(d), LineEnd(e));
  }

  lemma EightPassOnLoneEight()
    ensures ReplaceValue(" 8 ", '8', '7') == " 7 "
  {
    PassWithoutNewline(" 8 ", '8', '7');
    ReplaceFirst("", "", Spaced('8'), Spaced('7'));
    assert "" + Spaced('8') + "" == " 8 ";
    assert "" + Spaced('7') + "" == " 7 ";
  }

  lemma SevenPassOnLoneSeven()
    ensures ReplaceValue(" 7 ", '7', '3') == " 3 "
  {
    PassWithoutNewline(" 7 ", '7', '3');
    ReplaceFirst("", "", Spaced('7'), Spaced('3'));
    assert "" + Spaced('7') + "" == " 7 ";
    assert "" + Spaced('3') + "" == " 3 ";
  }

  /** A lone space-delimited 8 is rewritten twice and ends as 3, not 7. */
  lemma LoneEightBecomesThree()
    ensures RemapSoil(" 8 ") == " 3 "
  {
    PassWithoutDigit(" 8 ", '9', '6');
    EightPassOnLoneEight();
    SevenPassOnLoneSeven();
  }

  lemma NinePassOnAdjacentNines()
    ensures ReplaceValue(" 9 9 ", '9', '6') == " 6 9 "
  {
    PassWithoutNewline(" 9 9 ", '9', '6');
    ReplaceFirst("", "9 ", Spaced('9'), Spaced('6'));
    assert "" + Spaced('9') + "9 " == " 9 9 ";
    assert ReplaceAll("9 ", Spaced('9'), Spaced('6')) == "9 ";
    assert "" + Spaced('6') + "9 " == " 6 9 ";
  }

  /** Two 9s sharing one space: only the first is rewritten. */
  lemma AdjacentNinesHalfReplaced()
    ensures RemapSoil(" 9 9 ") == " 6 9 "
  {
    NinePassOnAdjacentNines();
    PassWithoutDigit(" 6 9 ", '8', '7');
    PassWithoutDigit(" 6 9 ", '7', '3');
  }

  lemma NineAbsentAfterFirstToken()
    ensures ReplaceAll("7 8 4 ", Spaced('9'), Spaced('6')) == "7 8 4 "
  {
    AbsentByChar("7 8 4 ", Spaced('9'), '9');
    ReplaceAbsent("7 8 4 ", Spaced('9'), Spaced('6'));
  }

  lemma NinePassOnMixed()
    ensures ReplaceValue(" 9 7 8 4 ", '9', '6') == " 6 7 8 4 "
  {
    PassWithoutNewline(" 9 7 8 4 ", '9', '6');
    NineAbsentAfterFirstToken();
    ReplaceFirst("", "7 8 4 ", Spaced('9'), Spaced('6'));
    MixedSpellings();
  }

  lemma EightNotBeforeThirdToken()
    ensures forall p: nat :: p < 4 ==> !OccursAt(Spaced('8'), " 6 7" + Spaced('8') + "4 ", p)
  {
    forall p: nat | p < 4 ensures !OccursAt(Spaced('8'), " 6 7" + Spaced('8') + "4 ", p) {
      var s := " 6 7" + Spaced('8') + "4 ";
      assert s[p..p + 3][1] == s[p + 1];
    }
  }

  lemma EightAbsentAfterThirdToken()
    ensures ReplaceAll("4 ", Spaced('8'), Spaced('7')) == "4 "
  {
    AbsentByChar("4 ", Spaced('8'), '8');
    ReplaceAbsent("4 ", Spaced('8'), Spaced('7'));
  }

  lemma EightPassOnMixed()
    ensures ReplaceValue(" 6 7 8 4 ", '8', '7') == " 6 7 7 4 "
  {
    PassWithoutNewline(" 6 7 8 4 ", '8', '7');
    EightNotBeforeThirdToken();
    EightAbsentAfterThirdToken();
    ReplaceFirst(" 6 7", "4 ", Spaced('8'), Spaced('7'));
    MixedSpellings();
  }

  lemma SevenNotBeforeSecondToken()
    ensures forall p: nat :: p < 2 ==> !OccursAt(Spaced('7'), " 6" + Spaced('7') + "7 4 ", p)
  {
    forall p: nat | p < 2 ensures !OccursAt(Spaced('7'), " 6" + Spaced('7') + "7 4 ", p) {
      var s := " 6" + Spaced('7') + "7 4 ";
      assert s[p..p + 3][1] == s[p + 1];
    }
  }

  lemma SevenAbsentAfterSecondToken()
    ensures ReplaceAll("7 4 ", Spaced('7'), Spaced('3')) == "7 4 "
  {
    forall p: nat | p <= 4 ensures !OccursAt(Spaced('7'), "7 4 ", p) {
      if p + 3 <= 4 {
        assert "7 4 "[p..p + 3][1] == "7 4 "[p + 1];
      }
    }
    ReplaceAbsent("7 4 ", Spaced('7'), Spaced('3'));
  }

  lemma SevenPassOnMixed()
    ensures ReplaceValue(" 6 7 7 4 ", '7', '3') == " 6 3 7 4 "
  {
    PassWithoutNewline(" 6 7 7 4 ", '7', '3');
    SevenNotBeforeSecondToken();
    SevenAbsentAfterSecondToken();
    ReplaceFirst(" 6", "7 4 ", Spaced('7'), Spaced('3'));
    MixedSpellings();
  }

  /** The intermediate texts of the example, spelled as prefix, token and rest. */
  lemma MixedSpellings()
    ensures "" + Spaced('9') + "7 8 4 " == " 9 7 8 4 "
    ensures "" + Spaced('6') + "7 8 4 " == " 6 7 8 4 "
    ensures " 6 7" + Spaced('8') + "4 " == " 6 7 8 4 "
    ensures " 6 7" + Spaced('7') + "4 " == " 6 7 7 4 "
    ensures " 6" + Spaced('7') + "7 4 " == " 6 7 7 4 "
    ensures " 6" + Spaced('3') + "7 4 " == " 6 3 7 4 "
  {
  }

  /** The token stream 9 7 8 4: the 9 becomes 6 and the 7 becomes 3, but the
      8 (turned into 7 by the second pass) shares its space with the 7 before
      it and is left as 7; the 4 is untouched. */
  lemma MixedTokens()
    ensures RemapSoil(" 9 7 8 4 ") == " 6 3 7 4 "
  {
    NinePassOnMixed();
    EightPassOnMixed();
    SevenPassOnMixed();
  }

  /** A header line ending in digit `d`, with no other `d`: only the
      space-digit-newline spelling applies. */
  lemma PassOnHeaderLine(name: string, d: char, e: char)
    requires IsDigit(d) && d !in name && ' ' !in name && '\n' !in name && |name| > 0
    ensures ReplaceValue(name + [' ', d, '\n'], d, e) == name + [' ', e, '\n']
  {
    var s := name + [' ', d, '\n'];
    assert s == name + " " + [d, '\n'];
    NoSpacedBeforeNewline(name + " ", d);
    ReplaceAbsent(s, Spaced(d), Spaced(e));
    assert s == (name + [' ', d]) + ['\n'];
    NoLineStartAtEnd(name + [' ', d], d);
    ReplaceAbsent(s, LineStart(d), LineStart(e));
    forall p: nat | p < |name| ensures !OccursAt(LineEnd(d), name + LineEnd(d) + "", p) {
      var t := name + LineEnd(d) + "";
      assert t[p..p + 3][0] == t[p] == name[p];
    }
    ReplaceFirst(name, "", LineEnd(d), LineEnd(e));
    assert name + LineEnd(d) + "" == s;
    assert name + LineEnd(e) + "" == name + [' ', e, '\n'];
  }

  /** The ASC header is not protected: a header value of 8 is rewritten,
      and twice, so it ends as 3. */
  lemma HeaderNotProtected()
    ensures RemapSoil("ncols 8\n") == "ncols 3\n"
  {
    HeaderSpellings();
    PassWithoutDigit("ncols 8\n", '9', '6');
    PassOnHeaderLine("ncols", '8', '7');
    PassOnHeaderLine("ncols", '7', '3');
  }

  lemma HeaderSpellings()
    ensures "ncols" + [' ', '8', '\n'] == "ncols 8\n"
    ensures "ncols" + [' ', '7', '\n'] == "ncols 7\n"
    ensures "ncols" + [' ', '3', '\n'] == "ncols 3\n"
    ensures '8' !in "ncols" && '7' !in "ncols" && ' ' !in "ncols" && '\n' !in "ncols"
    ensures '9' !in "ncols 8\n"
  {
  }

  /** `a` followed by a digit and a final newline, with no digit `d` in `a`,
      holds no space-digit-space spelling of `d`. */
  lemma NoSpacedBeforeNewline(a: string, d: char)
    requires d !in a
    ensures !Contains(a + [d, '\n'], Spaced(d))
  {
    var s := a + [d, '\n'];
    forall i: nat | i <= |s| ensures !OccursAt(Spaced(d), s, i) {
      if i + 3 <= |s| {
        assert s[i..i + 3][1] == s[i + 1] && s[i..i + 3][2] == s[i + 2];
        if i + 1 < |a| {
          assert s[i + 1] == a[i + 1];
        }
      }
    }
  }

  /** Text whose only newline is its last character holds no
      newline-digit-space spelling. */
  lemma NoLineStartAtEnd(a: string, d: char)
    requires '\n' !in a
    ensures !Contains(a + ['\n'], LineStart(d))
  {
    var s := a + ['\n'];
    forall i: nat | i <= |s| ensures !OccursAt(LineStart(d), s, i) {
      if i + 3 <= |s| {
        assert s[i..i + 3][0] == s[i] == a[i];
      }
    }
  }

  /** `content.count(' d ') + content.count('\nd ') + content.count(' d\n')`
      (lines 36-41 and 70-75). */
  function ValueCount(content: string, d: char): (n: nat)
    ensures n <= |content|
  {
    CountOf(content, Spaced(d)) + CountOf(content, LineStart(d)) + CountOf(content, LineEnd(d))
  }

  /** A digit's printed count is zero exactly when none of its three
      spellings occurs in the text. */
  lemma ValueCountZeroIff(content: string, d: char)
    ensures ValueCount(content, d) == 0 <==>
      !Contains(content, Spaced(d)) && !Contains(content, LineStart(d)) && !Contains(content, LineEnd(d))
  {
    CountZeroIffAbsent(content, Spaced(d));
    CountZeroIffAbsent(content, LineStart(d));
    CountZeroIffAbsent(content, LineEnd(d));
  }

  /** A digit's pass leaves the text untouched exactly when that digit's
      printed count is zero. */
  lemma {:induction false} PassUnchangedIffNotCounted(s: string, d: char, e: char)
    requires d != e
    ensures ReplaceValue(s, d, e) == s <==> ValueCount(s, d) == 0
  {
    var s1 := ReplaceAll(s, Spaced(d), Spaced(e));
    var s2 := ReplaceAll(s1, LineStart(d), LineStart(e));
    var s3 := ReplaceAll(s2, LineEnd(d), LineEnd(e));
    assert ReplaceValue(s, d, e) == s3;
    ReplaceOnlyChanges(s, Spaced(d), Spaced(e), d, e);
    ReplaceOnlyChanges(s1, LineStart(d), LineStart(e), d, e);
    ReplaceOnlyChanges(s2, LineEnd(d), LineEnd(e), d, e);
    assert Spaced(d) != Spaced(e) by { assert Spaced(d)[1] != Spaced(e)[1]; }
    assert LineStart(d) != LineStart(e) by { assert LineStart(d)[1] != LineStart(e)[1]; }
    assert LineEnd(d) != LineEnd(e) by { assert LineEnd(d)[1] != LineEnd(e)[1]; }
    ReplaceChangesIffCounted(s, Spaced(d), Spaced(e));
    ReplaceChangesIffCounted(s1, LineStart(d), LineStart(e));
    ReplaceChangesIffCounted(s2, LineEnd(d), LineEnd(e));
    if s1 != s {
      var i :| 0 <= i < |s| && s1[i] != s[i];
      assert s3[i] == e != s[i];
    } else if s2 != s1 {
      var i :| 0 <= i < |s| && s2[i] != s1[i];
      assert s3[i] == e != s[i];
    }
  }

  /** A count of a digit that no pass reads or writes (4 in the script) is
      the same before and after the rewrite. */
  lemma {:induction false} UntouchedValueCountKept(content: string, d: char)
    requires d != '3' && d != '6' && d != '7' && d != '8' && d != '9'
    ensures ValueCount(RemapSoil(content), d) == ValueCount(content, d)
  {
    var a := ReplaceValue(content, '9', '6');
    var b := ReplaceValue(a, '8', '7');
    var c := ReplaceValue(b, '7', '3');
    forall pat | pat in [Spaced(d), LineStart(d), LineEnd(d)]
      ensures CountOf(c, pat) == CountOf(content, pat)
    {
      SameOccurrencesUnderChanges(content, a, '9', '6', pat);
      SameOccurrencesUnderChanges(a, b, '8', '7', pat);
      SameOccurrencesUnderChanges(b, c, '7', '3', pat);
      CountBySameOccurrences(content, c, pat);
    }
    assert CountOf(c, Spaced(d)) == CountOf(content, Spaced(d));
    assert CountOf(c, LineStart(d)) == CountOf(content, LineStart(d));
    assert CountOf(c, LineEnd(d)) == CountOf(content, LineEnd(d));
  }

  /** What one call of `batch_replace_soil_values` does.  `read` is the
      input file's text, or None when it cannot be read; `writeOk` says
      whether writing the target succeeds. */
  datatype SoilRun = SoilRun(
    ok: bool,
    target: string,
    written: Option<string>,
    originalCounts: map<char, nat>,
    newCounts: map<char, nat>)

  /** The printed table: one entry per listed digit, holding the sum of the
      three `str.count` calls for that digit. */
  function CountsOf(content: string, digits: string): (m: map<char, nat>)
    ensures forall d :: d in m <==> d in digits
    ensures forall d :: d in m ==>
      m[d] == CountOf(content, Spaced(d)) + CountOf(content, LineStart(d)) + CountOf(content, LineEnd(d))
  {
    map d | d in digits :: ValueCount(content, d)
  }

  function BatchReplaceSoilValues(inputFile: string, outputFile: Option<string>,
                                  read: Option<string>, writeOk: bool): (run: SoilRun)
    ensures run.target == (if outputFile.None? then inputFile else outputFile.value)
    ensures run.ok <==> read.Some? && writeOk
    ensures run.written.Some? <==> run.ok
    ensures run.ok ==> run.written.value == RemapSoil(read.value)
    ensures run.ok ==> |run.written.value| == |read.value|
    ensures read.Some? ==> run.originalCounts.Keys == {'7', '8', '9', '4'}
    ensures read.Some? ==> run.newCounts.Keys == {'3', '6', '7', '4'}
    ensures read.Some? ==> run.originalCounts == CountsOf(read.value, "7894")
    ensures read.Some? ==> run.newCounts == CountsOf(RemapSoil(read.value), "3674")
    ensures read.Some? ==> run.newCounts['4'] == run.originalCounts['4']
  {
    var target := outputFile.GetOr(inputFile);
    match read
    case None => SoilRun(false, target, None, map[], map[])
    case Some(content) =>
      var result := RemapSoil(content);
      var original := CountsOf(content, "7894");
      var updated := CountsOf(result, "3674");
      UntouchedValueCountKept(content, '4');
      SoilRun(writeOk, target, if writeOk then Some(result) else None, original, updated)
  }
}
