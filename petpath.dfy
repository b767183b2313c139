/**
 * The `PETPath` rewrite of `update_control_project` in fixpet.py:
 * `re.sub(r'PETPath\s*=\s*"[^"]*"', template, content)`.
 *
 * `\s*` is followed by `=` or `"`, neither of which is white space, and
 * `[^"]*` is followed by `"`, so the backtracking matcher's greedy choices
 * are final and the match at a position is unique.
 */
module PetPath {
  import opened Wrappers
  import opened Text

  const Keyword: string := "PETPath"

  /** Length of the run of white space at the start of `s` (`\s*`). */
  function SpaceRun(s: string): (r: nat)
    ensures r <= |s|
    ensures forall k :: 0 <= k < r ==> IsSpace(s[k])
    ensures r < |s| ==> !IsSpace(s[r])
  {
    if |s| == 0 || !IsSpace(s[0]) then 0 else 1 + SpaceRun(s[1..])
  }

  /** `"[^"]*"` at the start of `s`. */
  function QuotedLen(s: string): (r: nat)
    ensures r <= |s|
    ensures r > 0 ==> r >= 2 && s[0] == '"' && s[r - 1] == '"' && '"' !in s[1..r - 1]
  {
    if |s| == 0 || s[0] != '"' then 0
    else
      match IndexOf(s[1..], '"')
      case None => 0
      case Some(k) =>
        assert s[1..k + 1] == s[1..][..k];
        k + 2
  }

  /** `\s*"[^"]*"` at the start of `s`. */
  function ValueLen(s: string): (r: nat)
    ensures r <= |s|
  {
    var w := SpaceRun(s);
    var q := QuotedLen(s[w..]);
    if q == 0 then 0 else w + q
  }

  /** `\s*=\s*"[^"]*"` at the start of `s`. */
  function AssignLen(s: string): (r: nat)
    ensures r <= |s|
  {
    var w := SpaceRun(s);
    if w < |s| && s[w] == '=' then
      var v := ValueLen(s[w + 1..]);
      if v == 0 then 0 else w + 1 + v
    else 0
  }

  /** Length of the match anchored at the start of `s`, or 0 when the
      directive does not start there. */
  function DirectiveLen(s: string): (r: nat)
    ensures r <= |s|
    ensures r > 0 ==> OccursAt(Keyword, s, 0)
  {
    if !OccursAt(Keyword, s, 0) then 0
    else
      var a := AssignLen(s[|Keyword|..]);
      if a == 0 then 0 else |Keyword| + a
  }

  /** White space only, as `\s*` matches it. */
  predicate AllSpace(w: string) {
    forall k :: 0 <= k < |w| ==> IsSpace(w[k])
  }

  /** A directive spelled from its parts: keyword, white space, `=`, white
      space, and a quoted value. */
  function Spelled(w1: string, w2: string, value: string): string {
    Keyword + w1 + "=" + w2 + "\"" + value + "\""
  }

  /** The value written by the script for a new folder. */
  function Directive(newPath: string): string {
    "PETPath\t\t=\t\"./" + newPath + "/pet\""
  }

  /** How far the scan moves from the start of a non-empty `s`: past the
      directive, or one character when there is none. */
  function Step(s: string): (r: nat)
    requires |s| > 0
    ensures 1 <= r <= |s|
  {
    if DirectiveLen(s) > 0 then DirectiveLen(s) else 1
  }

  /** What the substitution writes for that step. */
  function Emit(s: string, rep: string): string
    requires |s| > 0
  {
    if DirectiveLen(s) > 0 then rep else [s[0]]
  }

  /** `re.sub(pattern, rep, s)`: each match, left to right, is replaced by
      `rep` and the scan resumes after it. */
  function Rewrite(s: string, rep: string): (r: string)
    ensures 'P' !in s ==> r == s
    decreases |s|
  {
    if |s| == 0 then []
    else
      var r := Emit(s, rep) + Rewrite(s[Step(s)..], rep);
      assert 'P' !in s ==> r == [s[0]] + s[1..] by {
        if 'P' !in s {
          assert s[0] != Keyword[0];
        }
      }
      r
  }

  lemma {:induction false} SpaceRunOf(w: string, rest: string)
    requires AllSpace(w) && |rest| > 0 && !IsSpace(rest[0])
    ensures SpaceRun(w + rest) == |w|
    decreases |w|
  {
    if |w| == 0 {
      assert w + rest == rest;
    } else {
      assert (w + rest)[1..] == w[1..] + rest;
      SpaceRunOf(w[1..], rest);
    }
  }

  lemma QuotedOf(value: string, rest: string)
    requires '"' !in value
    ensures QuotedLen("\"" + value + "\"" + rest) == |value| + 2
  {
    var s := "\"" + value + "\"" + rest;
    var tail := s[1..];
    assert tail == value + "\"" + rest;
    assert tail[..|value|] == value;
    IndexOfFirst(tail, '"', |value|);
  }

  lemma ValueOf(w: string, value: string, rest: string)
    requires AllSpace(w) && '"' !in value
    ensures ValueLen(w + ("\"" + value + "\"" + rest)) == |w| + |value| + 2
  {
    var q := "\"" + value + "\"" + rest;
    SpaceRunOf(w, q);
    assert (w + q)[|w|..] == q;
    QuotedOf(value, rest);
  }

  lemma AssignOf(w1: string, w2: string, value: string, rest: string)
    requires AllSpace(w1) && AllSpace(w2) && '"' !in value
    ensures AssignLen(w1 + ("=" + (w2 + ("\"" + value + "\"" + rest))))
         == |w1| + |w2| + |value| + 3
  {
    var v := w2 + ("\"" + value + "\"" + rest);
    var s := w1 + ("=" + v);
    SpaceRunOf(w1, "=" + v);
    assert s[|w1|] == '=';
    assert s[|w1| + 1..] == v;
    ValueOf(w2, value, rest);
  }

  /** The directive spelled from its parts, regrouped from the right. */
  lemma SpelledRegrouped(w1: string, w2: string, value: string, rest: string)
    ensures Spelled(w1, w2, value) + rest
         == Keyword + (w1 + ("=" + (w2 + ("\"" + value + "\"" + rest))))
  {
  }

  /** Every spelling of the directive is matched as a whole, whatever
      follows it. */
  lemma SpelledIsMatched(w1: string, w2: string, value: string, rest: string)
    requires AllSpace(w1) && AllSpace(w2) && '"' !in value
    ensures DirectiveLen(Spelled(w1, w2, value) + rest) == |Spelled(w1, w2, value)|
  {
    var after := w1 + ("=" + (w2 + ("\"" + value + "\"" + rest)));
    var s := Keyword + after;
    SpelledRegrouped(w1, w2, value, rest);
    assert s[..|Keyword|] == Keyword;
    assert s[|Keyword|..] == after;
    AssignOf(w1, w2, value, rest);
  }

  /** The quoted value at the start of a match of `"[^"]*"`. */
  lemma QuotedIsSpelled(s: string) returns (value: string)
    requires QuotedLen(s) > 0
    ensures '"' !in value && s[..QuotedLen(s)] == "\"" + value + "\""
  {
    var q := QuotedLen(s);
    value := s[1..q - 1];
    assert s[..q] == [s[0]] + value + [s[q - 1]];
  }

  lemma ValueIsSpelled(s: string) returns (w: string, value: string)
    requires ValueLen(s) > 0
    ensures AllSpace(w) && '"' !in value && s[..ValueLen(s)] == w + ("\"" + value + "\"")
  {
    var n := SpaceRun(s);
    var t := s[n..];
    var q := QuotedLen(t);
    assert ValueLen(s) == n + q;
    w := s[..n];
    value := QuotedIsSpelled(t);
    PrefixSplit(s, n, n + q);
  }

  /** `s` up to `n + 1 + v`, cut at `n` and after the character at `n`. */
  lemma CutAround(s: string, n: nat, v: nat)
    requires n + 1 + v <= |s|
    ensures s[..n + 1 + v] == s[..n] + ([s[n]] + s[n + 1..][..v])
  {
    assert s[..n + 1 + v] == s[..n] + s[n..n + 1 + v];
    assert s[n..n + 1 + v] == [s[n]] + s[n + 1..][..v];
  }

  lemma AssignIsSpelled(s: string) returns (w1: string, w2: string, value: string)
    requires AssignLen(s) > 0
    ensures AllSpace(w1) && AllSpace(w2) && '"' !in value
    ensures s[..AssignLen(s)] == w1 + ("=" + (w2 + ("\"" + value + "\"")))
  {
    var n := SpaceRun(s);
    var t := s[n + 1..];
    var v := ValueLen(t);
    assert AssignLen(s) == n + 1 + v && s[n] == '=';
    w1 := s[..n];
    w2, value := ValueIsSpelled(t);
    CutAround(s, n, v);
    AllSpacePrefix(s, n);
  }

  /** The white space `\s*` runs over. */
  lemma AllSpacePrefix(s: string, n: nat)
    requires n == SpaceRun(s)
    ensures AllSpace(s[..n])
  {
  }

  lemma SpelledGrouped(w1: string, w2: string, value: string)
    ensures Spelled(w1, w2, value) == Keyword + (w1 + ("=" + (w2 + ("\"" + value + "\""))))
  {
  }

  /** What the matcher accepts is a spelling of the directive: the two
      directions together say the matcher recognises exactly the
      directive's spellings. */
  lemma MatchIsSpelled(s: string) returns (w1: string, w2: string, value: string)
    requires DirectiveLen(s) > 0
    ensures AllSpace(w1) && AllSpace(w2) && '"' !in value
    ensures s[..DirectiveLen(s)] == Spelled(w1, w2, value)
  {
    var t := s[|Keyword|..];
    assert DirectiveLen(s) == |Keyword| + AssignLen(t);
    w1, w2, value := AssignIsSpelled(t);
    KeywordThen(s, AssignLen(t));
    SpelledGrouped(w1, w2, value);
  }

  lemma KeywordThen(s: string, a: nat)
    requires OccursAt(Keyword, s, 0) && |Keyword| + a <= |s|
    ensures s[..|Keyword| + a] == Keyword + s[|Keyword|..][..a]
  {
    PrefixSplit(s, |Keyword|, |Keyword| + a);
  }

  /** A directive at the start is replaced and the scan goes on after it. */
  lemma RewriteSpelled(w1: string, w2: string, value: string, rest: string, rep: string)
    requires AllSpace(w1) && AllSpace(w2) && '"' !in value
    ensures Rewrite(Spelled(w1, w2, value) + rest, rep) == rep + Rewrite(rest, rep)
  {
    var t := Spelled(w1, w2, value);
    SpelledIsMatched(w1, w2, value, rest);
    assert (t + rest)[|t|..] == rest;
  }

  /** Text without the keyword is left as it is. */
  lemma {:induction false} RewriteWithoutKeyword(s: string, rep: string)
    requires !Contains(s, Keyword)
    ensures Rewrite(s, rep) == s
    decreases |s|
  {
    if |s| > 0 {
      assert !OccursAt(Keyword, s, 0);
      var t := s[1..];
      forall i: nat | i <= |t| ensures !OccursAt(Keyword, t, i) {
        if i + |Keyword| <= |t| {
          assert t[i..i + |Keyword|] == s[i + 1..i + 1 + |Keyword|];
          assert !OccursAt(Keyword, s, i + 1);
        }
      }
      RewriteWithoutKeyword(t, rep);
      assert s == [s[0]] + t;
    }
  }

  /** A character other than `P` cannot start a directive and is copied. */
  lemma RewriteCopies(s: string, rep: string)
    requires |s| > 0 && s[0] != 'P'
    ensures Rewrite(s, rep) == [s[0]] + Rewrite(s[1..], rep)
  {
    if |Keyword| <= |s| {
      assert s[..|Keyword|][0] == s[0];
    }
  }

  /** A prefix without a `P` is copied; a directive can only start at a `P`. */
  lemma {:induction false} RewriteAfterPrefix(p: string, rest: string, rep: string)
    requires 'P' !in p
    ensures Rewrite(p + rest, rep) == p + Rewrite(rest, rep)
    decreases |p|
  {
    if |p| == 0 {
      assert p + rest == rest;
    } else {
      CopiesHead(p, rest, rep);
      RewriteAfterPrefix(p[1..], rest, rep);
      HeadThenTail(p, Rewrite(rest, rep));
    }
  }

  lemma CopiesHead(p: string, rest: string, rep: string)
    requires |p| > 0 && p[0] != 'P'
    ensures Rewrite(p + rest, rep) == [p[0]] + Rewrite(p[1..] + rest, rep)
  {
    TailOfAppend(p, rest);
    RewriteCopies(p + rest, rep);
  }

  /** The directive the script writes is itself a directive, so a second
      run rewrites it to the same text. */
  lemma DirectiveIsStable(newPath: string, rest: string)
    requires '"' !in newPath
    ensures Rewrite(Directive(newPath) + rest, Directive(newPath))
         == Directive(newPath) + Rewrite(rest, Directive(newPath))
  {
    var value := "./" + newPath + "/pet";
    assert Directive(newPath) == Spelled("\t\t", "\t", value);
    assert '"' !in value;
    assert AllSpace("\t\t") && AllSpace("\t");
    RewriteSpelled("\t\t", "\t", value, rest, Directive(newPath));
  }

  lemma FolderLineSpelling()
    ensures "PETPath = \"./PETs/pet\"\n" == Spelled(" ", " ", "./PETs/pet") + "\n"
    ensures "PETPath\t\t=\t\"./PETs_fixed/pet\"\n" == Directive("PETs_fixed") + "\n"
    ensures AllSpace(" ") && '"' !in "./PETs/pet"
  {
  }

  /** The control file's `PETPath = "./PETs/pet"` line, pointed at
      `PETs_fixed`. */
  lemma FolderLineRewritten()
    ensures Rewrite("PETPath = \"./PETs/pet\"\n", Directive("PETs_fixed"))
         == "PETPath\t\t=\t\"./PETs_fixed/pet\"\n"
  {
    var rep := Directive("PETs_fixed");
    FolderLineSpelling();
    RewriteSpelled(" ", " ", "./PETs/pet", "\n", rep);
    NewlineCopied(rep);
  }

  lemma NewlineCopied(rep: string)
    ensures Rewrite("\n", rep) == "\n"
  {
    RewriteCopies("\n", rep);
    assert "\n"[1..] == [];
  }

  /** `update_control_project`: false when Control.Project does not exist
      or reading or writing it raises; otherwise the file is rewritten.
      `oldPath` is accepted and never used, as in the script. */
  function UpdateControlProject(oldPath: string, newPath: string, exists_: bool,
                                read: Option<string>, writeOk: bool): (r: (bool, Option<string>))
    requires '\\' !in newPath
    ensures r.0 <==> exists_ && read.Some? && writeOk
    ensures r.1.Some? <==> r.0
    ensures r.0 ==> r.1.value == Rewrite(read.value, Directive(newPath))
  {
    if !exists_ || read.None? || !writeOk then (false, None)
    else (true, Some(Rewrite(read.value, Directive(newPath))))
  }
}
