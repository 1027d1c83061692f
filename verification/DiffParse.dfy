/** The unified-diff state machine of git/diffparse.go: git's diff text becomes one
    FileChange per file. `Step` and `Run` specify the loop; `DiffText` prints diffs. */
module DiffParse {
  import opened Strings

  datatype Status = Modified | Added | Removed | Renamed | Copied

  datatype FileChange = FileChange(
    path: string,
    prevPath: string,
    status: Status,
    additions: nat,
    deletions: nat,
    sha: string,
    patch: string)

  /** The variables of the loop: finished files, the file being read, its two blob ids,
      its hunk lines so far, and whether a hunk header has been seen. */
  datatype State = State(
    files: seq<FileChange>,
    cur: Option<FileChange>,
    oldSHA: string,
    newSHA: string,
    patch: seq<string>,
    inHunk: bool)

  const Start := State([], None, "", "", [], false)
  const Blank := FileChange("", "", Modified, 0, 0, "", "")
  const DevNull := "/dev/null"

  /** isZeroOID: the absent side of an add or a delete. */
  predicate IsZeroOID(sha: string) {
    forall i :: 0 <= i < |sha| ==> sha[i] == '0'
  }

  /** stripDiffPrefix: drops one leading a/ or b/. */
  function StripDiffPrefix(p: string): string {
    if "a/" <= p || "b/" <= p then p[2..] else p
  }

  predicate CountsAsAddition(ln: string) { "+" <= ln && !("+++" <= ln) }

  predicate CountsAsDeletion(ln: string) { "-" <= ln && !("---" <= ln) }

  /** The flush closure: the finished files once the current one is closed. */
  function Flush(st: State): seq<FileChange> {
    match st.cur
    case None => st.files
    case Some(c) =>
      var sha := if !IsZeroOID(st.newSHA) then st.newSHA else st.oldSHA;
      st.files + [c.(sha := sha, patch := TrimRight(Join(st.patch, '\n'), '\n'))]
  }

  /** The blob-id pair of an `index` line, when it has one. */
  function IndexIds(ln: string): Option<(string, string)> {
    var rest := TrimPrefix(ln, "index ");
    var range := match Cut(rest, ' ') case Some((a, _)) => a case None => rest;
    CutString(range, "..")
  }

  /** One extended-header line of the current file. */
  function HeaderLine(st: State, c: FileChange, ln: string): State {
    if "new file mode" <= ln then st.(cur := Some(c.(status := Added)))
    else if "deleted file mode" <= ln then st.(cur := Some(c.(status := Removed)))
    else if "rename from " <= ln then
      st.(cur := Some(c.(status := Renamed, prevPath := TrimPrefix(ln, "rename from "))))
    else if "rename to " <= ln then st.(cur := Some(c.(path := TrimPrefix(ln, "rename to "))))
    else if "copy from " <= ln then
      st.(cur := Some(c.(status := Copied, prevPath := TrimPrefix(ln, "copy from "))))
    else if "copy to " <= ln then st.(cur := Some(c.(path := TrimPrefix(ln, "copy to "))))
    else if "index " <= ln then
      match IndexIds(ln)
      case Some((a, b)) => st.(oldSHA := a, newSHA := b)
      case None => st
    else if "--- " <= ln then
      var p := TrimPrefix(ln, "--- ");
      if c.path == "" && p != DevNull then st.(cur := Some(c.(path := StripDiffPrefix(p)))) else st
    else if "+++ " <= ln then
      var p := TrimPrefix(ln, "+++ ");
      if p != DevNull then st.(cur := Some(c.(path := StripDiffPrefix(p)))) else st
    else st
  }

  /** One row of a hunk, counted on its side. */
  function Counted(c: FileChange, ln: string): FileChange {
    if CountsAsAddition(ln) then c.(additions := c.additions + 1)
    else if CountsAsDeletion(ln) then c.(deletions := c.deletions + 1)
    else c
  }

  /** One line of the diff text. */
  function Step(st: State, ln: string): State {
    if "diff --git " <= ln then State(Flush(st), Some(Blank), "", "", [], false)
    else match st.cur
      case None => st
      case Some(c) =>
        if "@@" <= ln then st.(inHunk := true, patch := st.patch + [ln])
        else if st.inHunk then
          st.(patch := st.patch + [ln], cur := Some(Counted(c, ln)))
        else HeaderLine(st, c, ln)
  }

  function Run(st: State, lines: seq<string>): State {
    if lines == [] then st else Step(Run(st, lines[..|lines| - 1]), lines[|lines| - 1])
  }

  function Parse(text: string): seq<FileChange> {
    Flush(Run(Start, Split(text, '\n')))
  }

  lemma RunOneMore(lines: seq<string>, i: nat)
    requires i < |lines|
    ensures Run(Start, lines[..i + 1]) == Step(Run(Start, lines[..i]), lines[i])
  {
    assert lines[..i + 1][..i] == lines[..i];
  }

  method CountRow(c: FileChange, ln: string) returns (c': FileChange)
    ensures c' == Counted(c, ln)
  {
    c' := c;
    if CountsAsAddition(ln) {
      c' := c'.(additions := c'.additions + 1);
    } else if CountsAsDeletion(ln) {
      c' := c'.(deletions := c'.deletions + 1);
    }
  }

  /** parseDiff itself: the loop over the lines, with its variables updated in place. */
  method ParseDiff(text: string) returns (files: seq<FileChange>)
    ensures files == Parse(text)
  {
    files := [];
    var cur: Option<FileChange> := None;
    var oldSHA, newSHA := "", "";
    var patch: seq<string> := [];
    var inHunk := false;
    var lines := Split(text, '\n');
    ghost var st := Start;
    for i := 0 to |lines|
      invariant st == Run(Start, lines[..i]) && st == State(files, cur, oldSHA, newSHA, patch, inHunk)
    {
      RunOneMore(lines, i);
      st := Step(st, lines[i]);
      var ln := lines[i];
      if "diff --git " <= ln {
        files := Flush(State(files, cur, oldSHA, newSHA, patch, inHunk));
        cur := Some(Blank);
        oldSHA, newSHA, patch, inHunk := "", "", [], false;
      } else if cur.None? {
        // anything before the first file header is skipped
      } else if "@@" <= ln {
        inHunk := true;
        patch := patch + [ln];
      } else if inHunk {
        patch := patch + [ln];
        var counted := CountRow(cur.value, ln);
        cur := Some(counted);
      } else {
        var next := HeaderLine(State(files, cur, oldSHA, newSHA, patch, inHunk), cur.value, ln);
        cur, oldSHA, newSHA := next.cur, next.oldSHA, next.newSHA;
      }
    }
    assert lines[..|lines|] == lines;
    files := Flush(State(files, cur, oldSHA, newSHA, patch, inHunk));
  }

  lemma {:induction false} RunConcat(st: State, a: seq<string>, b: seq<string>)
    ensures Run(st, a + b) == Run(Run(st, a), b)
  {
    if b == [] {
      assert a + b == a;
    } else {
      var front := b[..|b| - 1];
      assert (a + b)[..|a + b| - 1] == a + front;
      RunConcat(st, a, front);
    }
  }

  lemma RunCons(st: State, ln: string, rest: seq<string>)
    ensures Run(st, [ln] + rest) == Run(Step(st, ln), rest)
  {
    RunConcat(st, [ln], rest);
    assert [ln][..0] == [];
  }

  /** One leading a/ or b/ goes, whatever follows; a path without one stays. */
  lemma OnePrefixGoes(p: string)
    ensures StripDiffPrefix("a/" + p) == p && StripDiffPrefix("b/" + p) == p
    ensures |p| < 2 || p[1] != '/' || (p[0] != 'a' && p[0] != 'b') ==> StripDiffPrefix(p) == p
  {
  }
}
