/**
 * Python string primitives the scripts rely on: `c.isdigit()` on ASCII,
 * the regular-expression class `\s`, `key in s`, `s.split(sep, maxsplit)`,
 * `s.split('\n')`, `sep.join(parts)`, `s.endswith(suffix)` and
 * `f.readlines()` on text that has already been read.
 */
module Text {
  import opened Wrappers

  /** An ASCII decimal digit (what `\d` and `isdigit` accept on ASCII text). */
  predicate IsDigit(c: char) {
    '0' <= c <= '9'
  }

  /** An ASCII character matched by `\s`: tab, newline, vertical tab, form
      feed, carriage return, the four separators 0x1C-0x1F and space. */
  predicate IsSpace(c: char) {
    ('\t' <= c <= '\r') || ('\U{1C}' <= c <= ' ')
  }

  /** `pat` occurs in `s` starting at index `i`. */
  predicate OccursAt(pat: string, s: string, i: nat) {
    i + |pat| <= |s| && s[i..i + |pat|] == pat
  }

  /** Python's `pat in s`. */
  predicate Contains(s: string, pat: string) {
    exists i: nat | i <= |s| :: OccursAt(pat, s, i)
  }

  predicate EndsWith(s: string, suffix: string) {
    |suffix| <= |s| && s[|s| - |suffix|..] == suffix
  }

  /** Index of the first `c` in `s`. */
  function IndexOf(s: string, c: char): (r: Option<nat>)
    ensures r.None? <==> c !in s
    ensures r.Some? ==> r.value < |s| && s[r.value] == c && c !in s[..r.value]
  {
    if |s| == 0 then None
    else if s[0] == c then Some(0)
    else
      match IndexOf(s[1..], c)
      case None => None
      case Some(i) => assert s[..i + 1] == [s[0]] + s[1..][..i]; Some(i + 1)
  }

  /** `re.sub(r'\s+', '', s)`: every whitespace character deleted. */
  function RemoveSpaces(s: string): (r: string)
    ensures forall c :: c in r <==> c in s && !IsSpace(c)
    ensures |r| <= |s|
  {
    if |s| == 0 then []
    else if IsSpace(s[0]) then RemoveSpaces(s[1..])
    else [s[0]] + RemoveSpaces(s[1..])
  }

  /** `s.split(sep, maxsplit)` for a one-character separator and maxsplit >= 0. */
  function SplitMax(s: string, sep: char, maxsplit: nat): (r: seq<string>)
    ensures 1 <= |r| <= maxsplit + 1
    ensures forall k :: 0 <= k < |r| - 1 ==> sep !in r[k]
    ensures |r| <= maxsplit ==> sep !in r[|r| - 1]
    ensures Join(r, sep) == s
    decreases maxsplit
  {
    if maxsplit == 0 || sep !in s then [s]
    else
      var i := IndexOf(s, sep).value;
      var rest := SplitMax(s[i + 1..], sep, maxsplit - 1);
      SplitPiece(s, sep, i, rest, maxsplit);
      [s[..i]] + rest
  }

  /** The piece before the first separator, put in front of the pieces of
      what follows it, splits `s`. */
  lemma SplitPiece(s: string, sep: char, i: nat, rest: seq<string>, maxsplit: nat)
    requires i < |s| && s[i] == sep && sep !in s[..i]
    requires 1 <= |rest| <= maxsplit
    requires forall k :: 0 <= k < |rest| - 1 ==> sep !in rest[k]
    requires |rest| <= maxsplit - 1 ==> sep !in rest[|rest| - 1]
    requires Join(rest, sep) == s[i + 1..]
    ensures 1 <= |[s[..i]] + rest| <= maxsplit + 1
    ensures forall k :: 0 <= k < |[s[..i]] + rest| - 1 ==> sep !in ([s[..i]] + rest)[k]
    ensures |[s[..i]] + rest| <= maxsplit ==> sep !in ([s[..i]] + rest)[|[s[..i]] + rest| - 1]
    ensures Join([s[..i]] + rest, sep) == s
  {
    var r := [s[..i]] + rest;
    JoinCons(s[..i], rest, sep);
    assert s == s[..i] + [sep] + s[i + 1..];
    forall k | 0 <= k < |r| - 1 ensures sep !in r[k] {
      if k > 0 {
        assert r[k] == rest[k - 1];
      }
    }
  }

  /** Joining a head in front of a non-empty list of pieces. */
  lemma JoinCons(head: string, rest: seq<string>, sep: char)
    requires |rest| >= 1
    ensures Join([head] + rest, sep) == head + [sep] + Join(rest, sep)
    ensures forall k :: 1 <= k < |rest| + 1 ==> ([head] + rest)[k] == rest[k - 1]
  {
    assert ([head] + rest)[1..] == rest;
  }

  /** `s.split(sep)` for a one-character separator: never empty, pieces free
      of `sep`, and joining them back with `sep` gives `s`. */
  function Split(s: string, sep: char): (r: seq<string>)
    ensures |r| >= 1
    ensures forall k :: 0 <= k < |r| ==> sep !in r[k]
    ensures Join(r, sep) == s
    decreases |s|
  {
    if sep !in s then [s]
    else
      var i := IndexOf(s, sep).value;
      var rest := Split(s[i + 1..], sep);
      assert s == s[..i] + [sep] + s[i + 1..];
      [s[..i]] + rest
  }

  /** `sep.join(parts)`. */
  function Join(parts: seq<string>, sep: char): string
  {
    if |parts| == 0 then []
    else if |parts| == 1 then parts[0]
    else parts[0] + [sep] + Join(parts[1..], sep)
  }

  /** Concatenation of lines, as `f.writelines(lines)` writes them. */
  function Concat(lines: seq<string>): string
  {
    if |lines| == 0 then [] else lines[0] + Concat(lines[1..])
  }

  /** A line as `readlines` yields it: non-empty, and a newline, if any, only
      as its last character. */
  predicate IsLine(l: string) {
    |l| > 0 && '\n' !in l[..|l| - 1]
  }

  /** A line that ends in a newline, as every line but the last of
      `readlines` does. */
  predicate IsClosedLine(l: string) {
    IsLine(l) && l[|l| - 1] == '\n'
  }

  /** Lines as `readlines` returns them. */
  predicate WellFormedLines(lines: seq<string>) {
    forall k :: 0 <= k < |lines| ==> IsLine(lines[k]) && (k < |lines| - 1 ==> IsClosedLine(lines[k]))
  }

  /** `f.readlines()` over the text `s`: each line keeps its newline; the
      last line may lack one. */
  function ReadLines(s: string): (r: seq<string>)
    ensures Concat(r) == s
    ensures WellFormedLines(r)
    decreases |s|
  {
    if |s| == 0 then []
    else
    if '\n' !in s then [s]
    else
      var i := IndexOf(s, '\n').value;
      var rest := ReadLines(s[i + 1..]);
      LinePiece(s, i, rest);
      [s[..i + 1]] + rest
  }

  /** The text up to and including the first newline, put in front of the
      lines of what follows, reads `s`. */
  lemma LinePiece(s: string, i: nat, rest: seq<string>)
    requires i < |s| && s[i] == '\n' && '\n' !in s[..i]
    requires Concat(rest) == s[i + 1..]
    requires WellFormedLines(rest)
    ensures Concat([s[..i + 1]] + rest) == s
    ensures WellFormedLines([s[..i + 1]] + rest)
  {
    var r := [s[..i + 1]] + rest;
    assert r[1..] == rest;
    assert s == s[..i + 1] + s[i + 1..];
    assert s[..i + 1][..i] == s[..i];
    forall k | 0 <= k < |r|
      ensures IsLine(r[k]) && (k < |r| - 1 ==> IsClosedLine(r[k]))
    {
      if k > 0 {
        assert r[k] == rest[k - 1];
      }
    }
  }

  lemma ConcatAppend(a: seq<string>, b: seq<string>)
    ensures Concat(a + b) == Concat(a) + Concat(b)
  {
    if |a| == 0 {
      assert a + b == b;
    } else {
      assert (a + b)[0] == a[0];
      assert (a + b)[1..] == a[1..] + b;
      ConcatAppend(a[1..], b);
    }
  }

  /** Splitting what `Join` built gives back the parts, provided no part
      contains the separator: the other half of the round trip in `Split`. */
  lemma {:induction false} SplitJoin(parts: seq<string>, sep: char)
    requires |parts| >= 1
    requires forall k :: 0 <= k < |parts| ==> sep !in parts[k]
    ensures Split(Join(parts, sep), sep) == parts
    decreases |parts|
  {
    if |parts| == 1 {
      assert IndexOf(parts[0], sep).None?;
    } else {
      var p := parts[0];
      var tail := Join(parts[1..], sep);
      assert parts == [p] + parts[1..];
      JoinCons(p, parts[1..], sep);
      SplitAtFirst(p, tail, sep);
      SplitJoin(parts[1..], sep);
    }
  }

  /** A separator-free head, the separator, then anything: the head is the
      first piece. */
  lemma SplitAtFirst(head: string, tail: string, sep: char)
    requires sep !in head
    ensures Split(head + [sep] + tail, sep) == [head] + Split(tail, sep)
  {
    var s := head + [sep] + tail;
    assert s[..|head|] == head && s[|head|] == sep && s[|head| + 1..] == tail;
    IndexOfFirst(s, sep, |head|);
  }

  /** `IndexOf` finds the first occurrence. */
  lemma IndexOfFirst(s: string, c: char, j: nat)
    requires j < |s| && s[j] == c && c !in s[..j]
    ensures IndexOf(s, c) == Some(j)
  {
    var r := IndexOf(s, c);
    assert forall k :: 0 <= k < j ==> s[..j][k] == s[k];
    assert forall k :: 0 <= k < r.value ==> s[..r.value][k] == s[k];
  }


  lemma ClosedLineSplit(l: string, rest: string)
    requires IsClosedLine(l)
    ensures IndexOf(l + rest, '\n') == Some(|l| - 1)
    ensures (l + rest)[..|l|] == l && (l + rest)[|l|..] == rest
  {
    assert (l + rest)[..|l| - 1] == l[..|l| - 1];
    IndexOfFirst(l + rest, '\n', |l| - 1);
  }

  /** Reading back the text that well-formed lines make gives those lines. */
  lemma {:induction false} ReadLinesOfConcat(lines: seq<string>)
    requires WellFormedLines(lines)
    ensures ReadLines(Concat(lines)) == lines
    decreases |lines|
  {
    if |lines| == 1 {
      assert Concat(lines) == lines[0];
      if IsClosedLine(lines[0]) {
        ClosedLineSplit(lines[0], []);
        assert lines[0] + [] == lines[0];
      } else {
        assert '\n' !in lines[0];
      }
    } else if |lines| > 1 {
      var rest := Concat(lines[1..]);
      ClosedLineSplit(lines[0], rest);
      ReadLinesOfConcat(lines[1..]);
      assert lines == [lines[0]] + lines[1..];
    }
  }

  /** Splitting at newlines after a run of closed lines: each closed line
      gives one piece, and the pieces of what follows come after them. */
  lemma {:induction false} SplitAfterClosedLines(h: seq<string>, d: string)
    requires forall k :: 0 <= k < |h| ==> IsClosedLine(h[k])
    ensures |Split(Concat(h) + d, '\n')| == |h| + |Split(d, '\n')|
    ensures Split(Concat(h) + d, '\n')[|h|..] == Split(d, '\n')
    decreases |h|
  {
    if |h| == 0 {
      assert Concat(h) + d == d;
    } else {
      var rest := Concat(h[1..]) + d;
      assert Concat(h) + d == h[0] + rest;
      ClosedLineSplit(h[0], rest);
      SplitAfterClosedLines(h[1..], d);
      var pieces := Split(h[0] + rest, '\n');
      assert pieces == [(h[0] + rest)[..|h[0]| - 1]] + Split(rest, '\n');
      assert pieces[|h|..] == Split(rest, '\n')[|h| - 1..];
    }
  }

  lemma HeadThenTail(p: string, x: string)
    requires |p| > 0
    ensures [p[0]] + (p[1..] + x) == p + x
  {
    assert p == [p[0]] + p[1..];
  }

  /** Concatenation cut between two lines. */
  lemma ConcatSplitAt(lines: seq<string>, n: nat)
    requires n <= |lines|
    ensures Concat(lines) == Concat(lines[..n]) + Concat(lines[n..])
  {
    assert lines == lines[..n] + lines[n..];
    ConcatAppend(lines[..n], lines[n..]);
  }

  /** The first character and the rest of a concatenation with a non-empty
      left side. */
  lemma TailOfAppend(p: string, x: string)
    requires |p| > 0
    ensures (p + x)[0] == p[0] && (p + x)[1..] == p[1..] + x
  {
  }

  lemma PrefixSplit(s: string, i: nat, j: nat)
    requires i <= j <= |s|
    ensures s[..j] == s[..i] + s[i..][..j - i]
  {
  }
}
