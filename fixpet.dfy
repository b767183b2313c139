/**
 * `fix_pet_file` and `verify_no_negatives` of fixpet.py over the text of a
 * PET grid: a 6-line header copied verbatim, then data lines in which every
 * match of the negative-number expression becomes `0`.
 *
 * File contents are parameters: `read` is the text of the input file, or
 * None when opening or reading it raises; `writeOk` says whether creating
 * the output directory and writing the output succeed.
 */
module FixPet {
  import opened Wrappers
  import opened Text
  import opened NegativePattern

  /** Number of header lines kept verbatim. */
  const HeaderLines: nat := 6

  /** The data region as `fix_pet_file` sees it: the lines after the header. */
  function DataText(content: string): string
    requires |ReadLines(content)| >= HeaderLines
  {
    Concat(ReadLines(content)[HeaderLines..])
  }

  /** The header region: the first six lines, newlines included. */
  function HeaderText(content: string): string
    requires |ReadLines(content)| >= HeaderLines
  {
    Concat(ReadLines(content)[..HeaderLines])
  }

  /** The file `fix_pet_file` writes: the header lines, then the data
      lines each sanitized. */
  function FixedText(content: string): (r: string)
    requires |ReadLines(content)| >= HeaderLines
    ensures HeaderText(content) <= r
  {
    var lines := ReadLines(content);
    ConcatAppend(lines[..HeaderLines], SanitizeLines(lines[HeaderLines..]));
    Concat(lines[..HeaderLines] + SanitizeLines(lines[HeaderLines..]))
  }

  lemma ReadLinesSplit(content: string)
    requires |ReadLines(content)| >= HeaderLines
    ensures content == HeaderText(content) + DataText(content)
    ensures NewlineTerminated(ReadLines(content)[HeaderLines..])
  {
    var lines := ReadLines(content);
    ConcatSplitAt(lines, HeaderLines);
    LaterLinesTerminated(lines, HeaderLines);
  }

  /** Every line but the last of what `readlines` returns ends in a newline,
      and so does every line but the last of a suffix of it. */
  lemma LaterLinesTerminated(lines: seq<string>, n: nat)
    requires WellFormedLines(lines) && n <= |lines|
    ensures NewlineTerminated(lines[n..])
  {
    var data := lines[n..];
    forall k | 0 <= k < |data| - 1
      ensures |data[k]| > 0 && data[k][|data[k]| - 1] == '\n'
    {
      assert data[k] == lines[k + n];
    }
  }

  /** The fixed file is the header followed by the sanitized data region:
      sanitizing line by line is sanitizing the data text as a whole. */
  lemma FixedIsHeaderThenSanitizedData(content: string)
    requires |ReadLines(content)| >= HeaderLines
    ensures FixedText(content) == HeaderText(content) + Sanitize(DataText(content))
  {
    var lines := ReadLines(content);
    ReadLinesSplit(content);
    ConcatAppend(lines[..HeaderLines], SanitizeLines(lines[HeaderLines..]));
    LinewiseIsWhole(lines[HeaderLines..]);
  }

  /** `fix_pet_file`: fails without writing when the file cannot be read,
      has fewer than 6 lines, or cannot be written; otherwise writes the
      header and the sanitized data lines and reports how many matches it
      replaced. */
  method FixPetFile(read: Option<string>, writeOk: bool)
    returns (ok: bool, written: Option<string>, negativeCount: nat)
    ensures ok <==> read.Some? && |ReadLines(read.value)| >= HeaderLines && writeOk
    ensures written.Some? <==> ok
    ensures ok ==> written.value == FixedText(read.value)
    ensures ok ==> negativeCount == CountMatches(DataText(read.value))
  {
    if read.None? {
      return false, None, 0;
    }
    var lines := ReadLines(read.value);
    if |lines| < HeaderLines {
      return false, None, 0;
    }
    var header := lines[..HeaderLines];
    var data := lines[HeaderLines..];
    negativeCount := 0;
    var processed: seq<string> := [];
    var i := 0;
    while i < |data|
      invariant 0 <= i <= |data|
      invariant processed == SanitizeLines(data[..i])
      invariant negativeCount == CountLines(data[..i])
    {
      LinesAppend(data[..i], data[i]);
      assert data[..i + 1] == data[..i] + [data[i]];
      processed := processed + [Sanitize(data[i])];
      negativeCount := negativeCount + CountMatches(data[i]);
      i := i + 1;
    }
    assert data[..i] == data;
    if !writeOk {
      return false, None, negativeCount;
    }
    DataCount(read.value);
    ok := true;
    written := Some(Concat(header + processed));
  }

  /** One more line processed: one more sanitized line, and its matches
      added to the count. */
  lemma {:induction false} LinesAppend(lines: seq<string>, line: string)
    ensures SanitizeLines(lines + [line]) == SanitizeLines(lines) + [Sanitize(line)]
    ensures CountLines(lines + [line]) == CountLines(lines) + CountMatches(line)
    decreases |lines|
  {
    if |lines| == 0 {
      assert lines + [line] == [line];
    } else {
      assert (lines + [line])[1..] == lines[1..] + [line];
      LinesAppend(lines[1..], line);
    }
  }

  /** The count accumulated line by line is the count over the data text. */
  lemma DataCount(content: string)
    requires |ReadLines(content)| >= HeaderLines
    ensures CountLines(ReadLines(content)[HeaderLines..]) == CountMatches(DataText(content))
  {
    ReadLinesSplit(content);
    LinewiseIsWhole(ReadLines(content)[HeaderLines..]);
  }

  /** Python's `lines[6:]`: empty when there are no more than six. */
  function DropHeader(pieces: seq<string>): (r: seq<string>)
    ensures |pieces| > HeaderLines ==> r == pieces[HeaderLines..]
    ensures |pieces| <= HeaderLines ==> r == []
  {
    if |pieces| <= HeaderLines then [] else pieces[HeaderLines..]
  }

  /** `verify_no_negatives`: splits the text at newlines, drops six pieces,
      joins the rest with newlines and accepts when no match is found; a
      file that cannot be read is rejected. */
  function VerifyNoNegatives(read: Option<string>): (ok: bool)
    ensures read.None? ==> !ok
    ensures read.Some? ==> (ok <==> !HasDashDigit(Join(DropHeader(Split(read.value, '\n')), '\n')))
  {
    match read
    case None => false
    case Some(content) =>
      var region := Join(DropHeader(Split(content, '\n')), '\n');
      CountZeroIffNoDashDigit(region);
      CountMatches(region) == 0
  }

  /** The text `verify_no_negatives` searches is the data region that
      `fix_pet_file` processes, for any file with a full header. */
  lemma VerifiedRegionIsData(content: string)
    requires |ReadLines(content)| >= HeaderLines
    ensures Join(DropHeader(Split(content, '\n')), '\n') == DataText(content)
  {
    var lines := ReadLines(content);
    ReadLinesSplit(content);
    if |lines| > HeaderLines {
      ClosedPrefix(lines, HeaderLines);
      RegionAfterClosedHeader(lines[..HeaderLines], DataText(content), content);
    } else {
      var h := lines[..HeaderLines - 1];
      var last := lines[HeaderLines - 1];
      ClosedPrefix(lines, HeaderLines - 1);
      LastLineJoined(lines, h, last);
      RegionInLastHeaderLine(h, last, content);
    }
  }

  /** The lines before the last one that `readlines` returns are closed. */
  lemma ClosedPrefix(lines: seq<string>, n: nat)
    requires WellFormedLines(lines) && n < |lines|
    ensures forall k :: 0 <= k < |lines[..n]| ==> IsClosedLine(lines[..n][k])
  {
    forall k | 0 <= k < n ensures IsClosedLine(lines[..n][k]) {
      assert lines[..n][k] == lines[k];
    }
  }

  /** Six lines, the last of them not followed by anything. */
  lemma LastLineJoined(lines: seq<string>, h: seq<string>, last: string)
    requires |lines| == HeaderLines && h == lines[..HeaderLines - 1] && last == lines[HeaderLines - 1]
    ensures Concat(lines[..HeaderLines]) == Concat(h) + last
    ensures Concat(lines[HeaderLines..]) == []
  {
    assert lines[..HeaderLines] == h + [last];
    ConcatAppend(h, [last]);
    assert Concat([last]) == last;
  }

  /** Six closed header lines: the split pieces after the sixth are the
      pieces of the data, joined back into the data. */
  lemma RegionAfterClosedHeader(h: seq<string>, d: string, content: string)
    requires |h| == HeaderLines && forall k :: 0 <= k < |h| ==> IsClosedLine(h[k])
    requires content == Concat(h) + d
    ensures Join(DropHeader(Split(content, '\n')), '\n') == d
  {
    SplitAfterClosedLines(h, d);
  }

  /** Five closed lines and a sixth: nothing follows the header, and at
      most an empty piece follows the sixth split piece. */
  lemma RegionInLastHeaderLine(h: seq<string>, last: string, content: string)
    requires |h| == HeaderLines - 1 && forall k :: 0 <= k < |h| ==> IsClosedLine(h[k])
    requires content == Concat(h) + last
    requires IsLine(last)
    ensures Join(DropHeader(Split(content, '\n')), '\n') == []
  {
    SplitAfterClosedLines(h, last);
  }

  /** The fixer's count is zero exactly when the checker accepts the input
      file as it is. */
  lemma VerifyIffNothingToFix(content: string)
    requires |ReadLines(content)| >= HeaderLines
    ensures VerifyNoNegatives(Some(content)) <==> CountMatches(DataText(content)) == 0
  {
    VerifiedRegionIsData(content);
  }

  /** A fixed file passes the check, unless its data held a doubled minus
      sign, which is the one way a match survives (see
      `DoubleDashLeavesMatch`). */
  lemma FixedFileVerifies(content: string)
    requires |ReadLines(content)| >= HeaderLines
    requires !Contains(DataText(content), "--")
    ensures |ReadLines(FixedText(content))| >= HeaderLines
    ensures VerifyNoNegatives(Some(FixedText(content)))
  {
    var clean := Sanitize(DataText(content));
    SanitizeCleanWithoutDoubleDash(DataText(content));
    CountZeroIffNoDashDigit(clean);
    if |ReadLines(content)| > HeaderLines {
      FixedWithData(content);
    } else {
      FixedHeaderOnly(content);
      VerifyIffNothingToFix(content);
    }
  }

  /** With data lines, the six header lines are closed, so the checker
      splits the fixed file right after them and sees the sanitized data. */
  lemma FixedWithData(content: string)
    requires |ReadLines(content)| > HeaderLines
    ensures |ReadLines(FixedText(content))| >= HeaderLines
    ensures Join(DropHeader(Split(FixedText(content), '\n')), '\n') == Sanitize(DataText(content))
  {
    var lines := ReadLines(content);
    var clean := Sanitize(DataText(content));
    FixedIsHeaderThenSanitizedData(content);
    var h := lines[..HeaderLines];
    forall k | 0 <= k < |h| ensures IsClosedLine(h[k]) {
      assert h[k] == lines[k];
    }
    SplitAfterClosedLines(h, clean);
    ClosedLinesRead(h, clean);
  }

  /** A file of exactly six lines is written back unchanged. */
  lemma FixedHeaderOnly(content: string)
    requires |ReadLines(content)| == HeaderLines
    ensures FixedText(content) == content
  {
    var lines := ReadLines(content);
    assert lines[..HeaderLines] == lines;
    assert SanitizeLines(lines[HeaderLines..]) == [];
    assert lines[..HeaderLines] + SanitizeLines(lines[HeaderLines..]) == lines;
  }

  lemma {:induction false} ClosedLinesRead(h: seq<string>, d: string)
    requires forall k :: 0 <= k < |h| ==> IsClosedLine(h[k])
    ensures |ReadLines(Concat(h) + d)| >= |h|
    decreases |h|
  {
    if |h| > 0 {
      var rest := Concat(h[1..]) + d;
      assert Concat(h) + d == h[0] + rest;
      ClosedLineSplit(h[0], rest);
      ClosedLinesRead(h[1..], d);
    }
  }
}
