/**
 * `get_control_value` of Plot_all.py and the grid extents built from it.
 *
 * A control file line has the form `Key = value # comment`. The lookup takes
 * the first line that mentions the key anywhere, deletes every white-space
 * character from it, drops everything from the first `#`, and returns what
 * follows the first `=`. When no line mentions the key, or the chosen line
 * has no `=` before its comment, the script prints a message and exits with
 * status 1; that outcome is `None` here.
 */
module ControlFile {
  import opened Wrappers
  import opened Text
  import opened Profiles

  /** Index of the first line containing `key`
      (`[s for s in lines if key in s][0]`). */
  function FirstMention(lines: seq<string>, key: string): (r: Option<nat>)
    ensures r.None? <==> forall k :: 0 <= k < |lines| ==> !Contains(lines[k], key)
    ensures r.Some? ==> r.value < |lines| && Contains(lines[r.value], key)
    ensures r.Some? ==> forall k :: 0 <= k < r.value ==> !Contains(lines[k], key)
  {
    if |lines| == 0 then None
    else if Contains(lines[0], key) then Some(0)
    else
      match FirstMention(lines[1..], key)
      case None => None
      case Some(i) => Some(i + 1)
  }

  /** `s.split("#", 1)[0]`: the text before the first `#`. */
  function Uncommented(s: string): (r: string)
    ensures '#' !in r && |r| <= |s| && r == s[..|r|]
    ensures |r| < |s| ==> s[|r|] == '#'
  {
    match IndexOf(s, '#')
    case None => s
    case Some(i) => s[..i]
  }

  /** `s.split("=", 1)[1]`: the text after the first `=`, or None where the
      index raises because there is no `=`. */
  function AfterEquals(s: string): (r: Option<string>)
    ensures r.None? <==> '=' !in s
    ensures r.Some? ==> |r.value| < |s| && r.value == s[|s| - |r.value|..]
    ensures r.Some? ==> s[|s| - |r.value| - 1] == '=' && '=' !in s[..|s| - |r.value| - 1]
  {
    match IndexOf(s, '=')
    case None => None
    case Some(i) => Some(s[i + 1..])
  }

  /** The value text of one line. */
  function LineValue(line: string): (r: Option<string>)
    ensures r.Some? ==> '#' !in r.value
    ensures r.Some? ==> forall k :: 0 <= k < |r.value| ==> !IsSpace(r.value[k])
  {
    var squeezed := RemoveSpaces(line);
    var text := Uncommented(squeezed);
    var r := AfterEquals(text);
    if r.Some? then
      assert forall k :: 0 <= k < |r.value| ==> r.value[k] in squeezed;
      r
    else r
  }

  /** `get_control_value(key)` before the conversion to a number; None is the
      exit with status 1. */
  function GetControlValue(lines: seq<string>, key: string): (r: Option<string>)
    ensures (forall k :: 0 <= k < |lines| ==> !Contains(lines[k], key)) ==> r.None?
    ensures r.Some? ==> '#' !in r.value && forall k :: 0 <= k < |r.value| ==> !IsSpace(r.value[k])
  {
    match FirstMention(lines, key)
    case None => None
    case Some(i) => LineValue(lines[i])
  }

  /** Only the first line mentioning the key is read: what follows it,
      even a well-formed assignment of the same key, is never consulted. */
  lemma FirstMentionDecides(before: seq<string>, line: string, after: seq<string>, key: string)
    requires forall k :: 0 <= k < |before| ==> !Contains(before[k], key)
    requires Contains(line, key)
    ensures GetControlValue(before + [line] + after, key) == LineValue(line)
  {
    var lines := before + [line] + after;
    assert lines[|before|] == line;
    assert forall k :: 0 <= k < |before| ==> lines[k] == before[k];
    var r := FirstMention(lines, key);
    assert r.Some? && r.value <= |before|;
  }

  predicate AllSpace(w: string) {
    forall k :: 0 <= k < |w| ==> IsSpace(w[k])
  }

  predicate NoSpace(w: string) {
    forall k :: 0 <= k < |w| ==> !IsSpace(w[k])
  }

  lemma {:induction false} RemoveSpacesAppend(a: string, b: string)
    ensures RemoveSpaces(a + b) == RemoveSpaces(a) + RemoveSpaces(b)
    decreases |a|
  {
    if |a| == 0 {
      assert a + b == b;
    } else {
      assert (a + b)[1..] == a[1..] + b;
      RemoveSpacesAppend(a[1..], b);
    }
  }

  lemma {:induction false} RemoveSpacesOfSpace(w: string)
    requires AllSpace(w)
    ensures RemoveSpaces(w) == []
    decreases |w|
  {
    if |w| > 0 {
      RemoveSpacesOfSpace(w[1..]);
    }
  }

  lemma {:induction false} RemoveSpacesOfText(x: string)
    requires NoSpace(x)
    ensures RemoveSpaces(x) == x
    decreases |x|
  {
    if |x| > 0 {
      RemoveSpacesOfText(x[1..]);
      assert x == [x[0]] + x[1..];
    }
  }

  lemma SpaceThen(w: string, t: string)
    requires AllSpace(w)
    ensures RemoveSpaces(w + t) == RemoveSpaces(t)
  {
    RemoveSpacesAppend(w, t);
    RemoveSpacesOfSpace(w);
  }

  lemma TextThen(x: string, t: string)
    requires NoSpace(x)
    ensures RemoveSpaces(x + t) == x + RemoveSpaces(t)
  {
    RemoveSpacesAppend(x, t);
    RemoveSpacesOfText(x);
  }

  /** The line `key w1 = w2 value w3 # comment`, the w's being runs of white
      space. */
  function AssignmentLine(key: string, w1: string, w2: string, value: string, w3: string, comment: string): string {
    key + (w1 + ("=" + (w2 + (value + (w3 + ("#" + comment))))))
  }

  /** White space around the pieces of an assignment disappears. */
  lemma SqueezedAssignment(key: string, w1: string, w2: string, value: string, w3: string, comment: string)
    requires NoSpace(key) && NoSpace(value) && AllSpace(w1) && AllSpace(w2) && AllSpace(w3)
    ensures RemoveSpaces(AssignmentLine(key, w1, w2, value, w3, comment))
         == key + ("=" + (value + ("#" + RemoveSpaces(comment))))
  {
    var t5 := "#" + comment;
    var t4 := w3 + t5;
    var t3 := value + t4;
    var t2 := w2 + t3;
    var t1 := "=" + t2;
    var t0 := w1 + t1;
    TextThen("#", comment);
    SpaceThen(w3, t5);
    TextThen(value, t4);
    SpaceThen(w2, t3);
    TextThen("=", t2);
    SpaceThen(w1, t1);
    TextThen(key, t0);
  }

  lemma CommentCut(head: string, comment: string)
    requires '#' !in head
    ensures Uncommented(head + "#" + comment) == head
  {
    var s := head + "#" + comment;
    assert s[..|head|] == head;
    IndexOfFirst(s, '#', |head|);
  }

  lemma ValueAfterKey(key: string, value: string)
    requires '=' !in key
    ensures AfterEquals(key + "=" + value) == Some(value)
  {
    var s := key + "=" + value;
    assert s[..|key|] == key;
    IndexOfFirst(s, '=', |key|);
    assert s[|key| + 1..] == value;
  }

  /** An assignment line, spaced in any way, yields its value: the lookup
      inverts the way the control file is written. The key holds no white
      space, `#` or `=`; the value no white space or `#` (it may hold `=`);
      the comment is arbitrary. */
  lemma AssignmentRoundTrip(key: string, w1: string, w2: string, value: string, w3: string, comment: string)
    requires NoSpace(key) && '#' !in key && '=' !in key
    requires NoSpace(value) && '#' !in value
    requires AllSpace(w1) && AllSpace(w2) && AllSpace(w3)
    ensures LineValue(AssignmentLine(key, w1, w2, value, w3, comment)) == Some(value)
  {
    SqueezedAssignment(key, w1, w2, value, w3, comment);
    var head := key + "=" + value;
    assert key + ("=" + (value + ("#" + RemoveSpaces(comment)))) == head + "#" + RemoveSpaces(comment);
    assert '#' !in head;
    CommentCut(head, RemoveSpaces(comment));
    ValueAfterKey(key, value);
  }

  /** A comment line that mentions the key before its assignment makes the
      lookup fail: the text before `#` is empty, so there is no `=`. */
  lemma CommentMentionExits(key: string, comment: string, rest: seq<string>)
    requires Contains(comment, key)
    ensures GetControlValue(["#" + comment] + rest, key) == None
  {
    var line := "#" + comment;
    var i: nat :| i <= |comment| && OccursAt(key, comment, i);
    assert line[i + 1..i + 1 + |key|] == comment[i..i + |key|];
    assert OccursAt(key, line, i + 1);
    FirstMentionDecides([], line, rest, key);
    assert [] + [line] + rest == [line] + rest;
    var squeezed := RemoveSpaces(line);
    assert squeezed == "#" + RemoveSpaces(comment);
    IndexOfFirst(squeezed, '#', 0);
  }

  /** A grid as the control file describes it. */
  datatype Grid = Grid(xll: real, yll: real, nCols: real, nRows: real, cellSize: real)

  /** `[x, x + nCols * cell, y, y + nRows * cell]`. */
  function Extent(g: Grid): (r: seq<real>)
    ensures |r| == 4
    ensures r[0] == g.xll && r[2] == g.yll
    ensures r[1] - r[0] == g.nCols * g.cellSize
    ensures r[3] - r[2] == g.nRows * g.cellSize
  {
    [g.xll, g.xll + g.nCols * g.cellSize, g.yll, g.yll + g.nRows * g.cellSize]
  }

  /** The extent spans exactly the grid: its width is `nCols` cells and its
      height `nRows` cells, and with positive sizes the left edge of every
      column and the bottom edge of every row lie inside it. */
  lemma ExtentCoversGrid(g: Grid, col: nat, row: nat)
    requires g.cellSize > 0.0 && (col as real) < g.nCols && (row as real) < g.nRows
    ensures Extent(g)[1] - Extent(g)[0] == g.nCols * g.cellSize
    ensures Extent(g)[3] - Extent(g)[2] == g.nRows * g.cellSize
    ensures Extent(g)[0] <= g.xll + (col as real) * g.cellSize < Extent(g)[1]
    ensures Extent(g)[2] <= g.yll + (row as real) * g.cellSize < Extent(g)[3]
  {
    var c := g.cellSize;
    assert (col as real) * c < g.nCols * c by {
      assert (g.nCols - col as real) * c > 0.0;
    }
    assert (row as real) * c < g.nRows * c by {
      assert (g.nRows - row as real) * c > 0.0;
    }
  }

  /** The five keys of a grid, for the suffix `Hydro` or `Land`. */
  function GridKeys(suffix: string): seq<string> {
    ["XLLCorner_" + suffix, "YLLCorner_" + suffix, "NCols_" + suffix,
     "NRows_" + suffix, "CellSize_" + suffix]
  }

  /** One number from the control file: the lookup, then `float`, here the
      `parse` parameter; None when either fails (both stop the script). */
  function ControlNumber(lines: seq<string>, key: string, parse: string -> Option<real>): (r: Option<real>)
    ensures r.Some? ==> GetControlValue(lines, key).Some?
    ensures r.Some? ==> parse(GetControlValue(lines, key).value) == r
  {
    match GetControlValue(lines, key)
    case None => None
    case Some(text) => parse(text)
  }

  /** The numbers for `keys`, read in order; None as soon as one fails. */
  function ReadNumbers(lines: seq<string>, keys: seq<string>, parse: string -> Option<real>): (r: Option<seq<real>>)
    ensures r.Some? ==> |r.value| == |keys|
    ensures r.Some? ==> forall k :: 0 <= k < |keys| ==> ControlNumber(lines, keys[k], parse) == Some(r.value[k])
    ensures r.None? ==> exists k :: 0 <= k < |keys| && ControlNumber(lines, keys[k], parse).None?
  {
    if |keys| == 0 then Some([])
    else
      var head := ControlNumber(lines, keys[0], parse);
      var tail := ReadNumbers(lines, keys[1..], parse);
      NumbersPiece(lines, keys, parse, head, tail);
      if head.None? || tail.None? then None else Some([head.value] + tail.value)
  }

  /** One step of `ReadNumbers`: the first key's number and the numbers of
      the remaining keys give the numbers of all keys. */
  lemma NumbersPiece(lines: seq<string>, keys: seq<string>, parse: string -> Option<real>,
                     head: Option<real>, tail: Option<seq<real>>)
    requires |keys| > 0 && head == ControlNumber(lines, keys[0], parse)
    requires tail.Some? ==> |tail.value| == |keys| - 1
    requires tail.Some? ==> forall k :: 1 <= k < |keys| ==> ControlNumber(lines, keys[k], parse) == Some(tail.value[k - 1])
    requires tail.None? ==> exists k :: 1 <= k < |keys| && ControlNumber(lines, keys[k], parse).None?
    ensures head.Some? && tail.Some? ==>
      forall k :: 0 <= k < |keys| ==> ControlNumber(lines, keys[k], parse) == Some(([head.value] + tail.value)[k])
    ensures head.None? || tail.None? ==> exists k :: 0 <= k < |keys| && ControlNumber(lines, keys[k], parse).None?
  {
  }

  /** The grid with the given suffix, when all five numbers are read. */
  function ReadGrid(lines: seq<string>, suffix: string, parse: string -> Option<real>): (r: Option<Grid>)
    ensures r.None? <==> exists k :: 0 <= k < 5 && ControlNumber(lines, GridKeys(suffix)[k], parse).None?
    ensures r.Some? ==> ControlNumber(lines, "XLLCorner_" + suffix, parse) == Some(r.value.xll)
    ensures r.Some? ==> ControlNumber(lines, "YLLCorner_" + suffix, parse) == Some(r.value.yll)
    ensures r.Some? ==> ControlNumber(lines, "NCols_" + suffix, parse) == Some(r.value.nCols)
    ensures r.Some? ==> ControlNumber(lines, "NRows_" + suffix, parse) == Some(r.value.nRows)
    ensures r.Some? ==> ControlNumber(lines, "CellSize_" + suffix, parse) == Some(r.value.cellSize)
  {
    match ReadNumbers(lines, GridKeys(suffix), parse)
    case None => None
    case Some(xs) => Some(Grid(xs[0], xs[1], xs[2], xs[3], xs[4]))
  }

  /** The extent a variable is drawn on (lines 130-161) and the limits set
      after drawing (lines 168-169) come from the same grid. */
  function ExtentFor(v: Variable, hydro: Grid, land: Grid): (r: seq<real>)
    ensures |r| == 4
    ensures Tag(v) in HydroTags ==> r == Extent(hydro)
    ensures Tag(v) !in HydroTags ==> r == Extent(land)
  {
    if GridOf(v) == Hydro then Extent(hydro) else Extent(land)
  }
}
