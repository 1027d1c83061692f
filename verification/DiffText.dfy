/** git's full-index diff text, printed from a list of file deltas, and what DiffParse
    makes of it: an exact description of every entry, and when the entry is the true one. */
module DiffText {
  import opened Strings
  import opened DiffParse

  /** What git prints of the file's content: nothing, its blob ids alone (an empty file made or
      deleted), text hunks, or a binary blob. */
  datatype Body =
    | Unchanged
    | Bare(oldId: string, newId: string, mode: string)
    | Hunks(oldId: string, newId: string, mode: string, rows: seq<string>)
    | Binary(oldId: string, newId: string, mode: string)

  datatype Delta =
    | Modify(path: string, modeLines: seq<string>, body: Body)
    | Create(path: string, fileMode: string, body: Body)
    | Delete(path: string, fileMode: string, body: Body)
    | Move(copied: bool, modeLines: seq<string>, from: string, path: string, similarity: string, body: Body)

  predicate OneLine(s: string) { '\n' !in s }

  /** An object id holds neither the space nor the dots the index line is cut at. */
  predicate IsOID(s: string) { s != "" && forall i :: 0 <= i < |s| ==> s[i] != ' ' && s[i] != '.' && s[i] != '\n' }

  /** A row of a hunk: a hunk header, or a line led by its kind. */
  predicate IsHunkRow(ln: string) {
    OneLine(ln) && ("@@" <= ln || (ln != "" && (ln[0] == ' ' || ln[0] == '+' || ln[0] == '-' || ln[0] == '\\')))
  }

  predicate WellFormedBody(b: Body) {
    match b
    case Unchanged => true
    case Hunks(oldId, newId, mode, rows) =>
      IsOID(oldId) && IsOID(newId) && OneLine(mode) && rows != [] && "@@" <= rows[0]
      && forall i :: 0 <= i < |rows| ==> IsHunkRow(rows[i])
    case Bare(oldId, newId, mode) => IsOID(oldId) && IsOID(newId) && OneLine(mode)
    case Binary(oldId, newId, mode) => IsOID(oldId) && IsOID(newId) && OneLine(mode)
  }

  predicate IsModeLine(ln: string) { OneLine(ln) && ("old mode " <= ln || "new mode " <= ln) }

  predicate AreModeLines(rows: seq<string>) { forall i :: 0 <= i < |rows| ==> IsModeLine(rows[i]) }

  /** An entry git can print: only a deletion has no new side, a creation has no old one, and both
      always show their blob ids. */
  predicate WellFormed(d: Delta) {
    && d.path != "" && OneLine(d.path) && WellFormedBody(d.body)
    && (!d.body.Unchanged? ==> (IsZeroOID(d.body.newId) <==> d.Delete?) && (d.Create? ==> IsZeroOID(d.body.oldId)))
    && (d.Create? || d.Delete? ==> !d.body.Unchanged?)
    && match d
       case Modify(_, modeLines, _) => AreModeLines(modeLines)
       case Create(_, fileMode, _) => OneLine(fileMode)
       case Delete(_, fileMode, _) => OneLine(fileMode)
       case Move(_, modeLines, from, _, similarity, _) => AreModeLines(modeLines) && OneLine(from) && OneLine(similarity)
  }

  // ---- Printing ----

  /** git ends the path of a --- or +++ line with a tab when the path holds a space. */
  function Label(path: string): string { if ' ' in path then path + "\t" else path }

  function OldPath(d: Delta): string { if d.Move? then d.from else d.path }

  function HeaderRows(d: Delta): seq<string> {
    match d
    case Modify(_, modeLines, _) => modeLines
    case Create(_, fileMode, _) => ["new file mode " + fileMode]
    case Delete(_, fileMode, _) => ["deleted file mode " + fileMode]
    case Move(copied, modeLines, from, path, similarity, _) => modeLines + MoveRows(copied, from, path, similarity)
  }

  function MoveRows(copied: bool, from: string, path: string, similarity: string): seq<string> {
    if copied then ["similarity index " + similarity, "copy from " + from, "copy to " + path]
    else ["similarity index " + similarity, "rename from " + from, "rename to " + path]
  }

  function IndexRow(oldId: string, newId: string, mode: string): string {
    "index " + (oldId + ".." + newId + (if mode == "" then "" else " " + mode))
  }

  function OldLabel(d: Delta): string { if d.Create? then DevNull else "a/" + Label(OldPath(d)) }

  function NewLabel(d: Delta): string { if d.Delete? then DevNull else "b/" + Label(d.path) }

  function BodyRows(d: Delta): seq<string> {
    match d.body
    case Unchanged => []
    case Bare(oldId, newId, mode) => [IndexRow(oldId, newId, mode)]
    case Hunks(oldId, newId, mode, rows) =>
      [IndexRow(oldId, newId, mode), "--- " + OldLabel(d), "+++ " + NewLabel(d)] + rows
    case Binary(oldId, newId, mode) =>
      [IndexRow(oldId, newId, mode), "Binary files " + (OldLabel(d) + " and " + NewLabel(d) + " differ")]
  }

  function FileRow(d: Delta): string { "diff --git " + ("a/" + OldPath(d) + " b/" + d.path) }

  function Rows(d: Delta): seq<string> {
    [FileRow(d)] + HeaderRows(d) + BodyRows(d)
  }

  function AllRows(ds: seq<Delta>): seq<string> {
    if ds == [] then [] else AllRows(ds[..|ds| - 1]) + Rows(ds[|ds| - 1])
  }

  function Print(ds: seq<Delta>): string { Unlines(AllRows(ds)) }

  // ---- What the parser reports, and what is true ----

  function StatusOf(d: Delta): Status {
    match d
    case Modify(_, _, _) => Modified
    case Create(_, _, _) => Added
    case Delete(_, _, _) => Removed
    case Move(copied, _, _, _, _, _) => if copied then Copied else Renamed
  }

  function CountRows(rows: seq<string>, p: string -> bool): nat {
    if rows == [] then 0 else CountRows(rows[..|rows| - 1], p) + if p(rows[|rows| - 1]) then 1 else 0
  }

  predicate IsAddedRow(ln: string) { "+" <= ln }

  predicate IsDeletedRow(ln: string) { "-" <= ln }

  /** The blob id the diff names for the file: the new side's, or the old side's for a deletion. */
  function BlobOf(d: Delta): string {
    if d.body.Unchanged? then "" else if d.Delete? then d.body.oldId else d.body.newId
  }

  /** The path the parser ends up with. */
  function ReportedPath(d: Delta): string {
    if d.body.Hunks? then Label(d.path) else if d.Move? then d.path else ""
  }

  function Describe(d: Delta, path: string, additions: nat, deletions: nat): FileChange {
    FileChange(path, if d.Move? then d.from else "", StatusOf(d), additions, deletions, BlobOf(d),
               if d.body.Hunks? then Join(d.body.rows, '\n') else "")
  }

  function HunkRows(d: Delta): seq<string> { if d.body.Hunks? then d.body.rows else [] }

  /** The entry parseDiff produces for a printed delta. */
  function Reported(d: Delta): FileChange {
    Describe(d, ReportedPath(d), CountRows(HunkRows(d), CountsAsAddition), CountRows(HunkRows(d), CountsAsDeletion))
  }

  /** The entry a faithful reader would produce: the real path, every added and deleted row counted. */
  function Truth(d: Delta): FileChange {
    Describe(d, d.path, CountRows(HunkRows(d), IsAddedRow), CountRows(HunkRows(d), IsDeletedRow))
  }

  // ---- The proof ----

  /** The current file once its extended header is read. */
  function HeaderFile(d: Delta): FileChange {
    Blank.(path := if d.Move? then d.path else "", prevPath := if d.Move? then d.from else "", status := StatusOf(d))
  }

  lemma StepOldMode(st: State, ln: string)
    requires st.cur.Some? && !st.inHunk && "old mode " <= ln
    ensures Step(st, ln) == st
  {
    assert ln[0] == "old mode "[0] == 'o';
  }

  lemma StepNewMode(st: State, ln: string)
    requires st.cur.Some? && !st.inHunk && "new mode " <= ln
    ensures Step(st, ln) == st
  {
    assert ln[0] == "new mode "[0] == 'n';
    assert ln[4] == "new mode "[4] == 'm';
    NoPrefix("new file mode", ln, 4);
  }

  lemma {:induction false} RunModeLines(st: State, rows: seq<string>)
    requires st.cur.Some? && !st.inHunk
    requires AreModeLines(rows)
    ensures Run(st, rows) == st
  {
    if rows != [] {
      RunModeLines(st, rows[..|rows| - 1]);
      var ln := rows[|rows| - 1];
      assert IsModeLine(ln);
      if "old mode " <= ln {
        StepOldMode(st, ln);
      } else {
        StepNewMode(st, ln);
      }
    }
  }

  /** Two texts that differ at an index: neither starts the other. */
  lemma NoPrefix(p: string, s: string, k: nat)
    requires k < |p| && k < |s| && p[k] != s[k]
    ensures !(p <= s)
  {
  }

  lemma StepOther(st: State, rest: string)
    requires st.cur.Some? && !st.inHunk
    ensures Step(st, "similarity index " + rest) == st
  {
    var ln := "similarity index " + rest;
    assert ln[0] == 's';
  }

  lemma StepCopyFrom(st: State, c: FileChange, from: string)
    requires st.cur == Some(c) && !st.inHunk
    ensures Step(st, "copy from " + from) == st.(cur := Some(c.(status := Copied, prevPath := from)))
  {
    var ln := "copy from " + from;
    assert ln[0] == 'c';
    assert TrimPrefix(ln, "copy from ") == from;
  }

  lemma StepCopyTo(st: State, c: FileChange, path: string)
    requires st.cur == Some(c) && !st.inHunk
    ensures Step(st, "copy to " + path) == st.(cur := Some(c.(path := path)))
  {
    var ln := "copy to " + path;
    assert ln[0] == 'c';
    NoPrefix("copy from ", ln, 5);
    assert TrimPrefix(ln, "copy to ") == path;
  }

  lemma StepRenameFrom(st: State, c: FileChange, from: string)
    requires st.cur == Some(c) && !st.inHunk
    ensures Step(st, "rename from " + from) == st.(cur := Some(c.(status := Renamed, prevPath := from)))
  {
    var ln := "rename from " + from;
    assert ln[0] == 'r';
    assert TrimPrefix(ln, "rename from ") == from;
  }

  lemma StepRenameTo(st: State, c: FileChange, path: string)
    requires st.cur == Some(c) && !st.inHunk
    ensures Step(st, "rename to " + path) == st.(cur := Some(c.(path := path)))
  {
    var ln := "rename to " + path;
    assert ln[0] == 'r';
    NoPrefix("rename from ", ln, 7);
    assert TrimPrefix(ln, "rename to ") == path;
  }

  lemma StepCreate(st: State, c: FileChange, rest: string)
    requires st.cur == Some(c) && !st.inHunk
    ensures Step(st, "new file mode " + rest) == st.(cur := Some(c.(status := Added)))
  {
    var ln := "new file mode " + rest;
    assert ln[0] == 'n';
    assert "new file mode" <= ln;
  }

  lemma StepDelete(st: State, c: FileChange, rest: string)
    requires st.cur == Some(c) && !st.inHunk
    ensures Step(st, "deleted file mode " + rest) == st.(cur := Some(c.(status := Removed)))
  {
    var ln := "deleted file mode " + rest;
    assert ln[0] == 'd' && ln[1] == 'e';
    NoPrefix("diff --git ", ln, 1);
    assert "deleted file mode" <= ln;
  }

  lemma RunHeader(st: State, d: Delta)
    requires WellFormed(d) && st.cur == Some(Blank) && !st.inHunk
    ensures Run(st, HeaderRows(d)) == st.(cur := Some(HeaderFile(d)))
  {
    match d
    case Modify(_, modeLines, _) => RunModeLines(st, modeLines);
    case Create(_, fileMode, _) =>
      StepCreate(st, Blank, fileMode);
      RunCons(st, "new file mode " + fileMode, []);
    case Delete(_, fileMode, _) =>
      StepDelete(st, Blank, fileMode);
      RunCons(st, "deleted file mode " + fileMode, []);
    case Move(_, modeLines, _, _, _, _) =>
      RunModeLines(st, modeLines);
      RunConcat(st, modeLines, MoveRows(d.copied, d.from, d.path, d.similarity));
      RunMove(st, d);
  }

  lemma RunTwo(st: State, r0: string, r1: string)
    ensures Run(st, [r0, r1]) == Step(Step(st, r0), r1)
  {
    assert [r0, r1] == [r0] + ([r1] + []);
    RunCons(st, r0, [r1] + []);
    RunCons(Step(st, r0), r1, []);
  }

  lemma RunThree(st: State, r0: string, r1: string, r2: string)
    ensures Run(st, [r0, r1, r2]) == Step(Step(Step(st, r0), r1), r2)
  {
    assert [r0, r1, r2] == [r0] + [r1, r2];
    RunCons(st, r0, [r1, r2]);
    RunTwo(Step(st, r0), r1, r2);
  }

  lemma RunCopy(st: State, from: string, path: string, similarity: string)
    requires st.cur == Some(Blank) && !st.inHunk
    ensures Run(st, ["similarity index " + similarity, "copy from " + from, "copy to " + path])
         == st.(cur := Some(Blank.(status := Copied, prevPath := from, path := path)))
  {
    var c := Blank.(status := Copied, prevPath := from);
    StepOther(st, similarity);
    StepCopyFrom(st, Blank, from);
    StepCopyTo(st.(cur := Some(c)), c, path);
    RunThree(st, "similarity index " + similarity, "copy from " + from, "copy to " + path);
  }

  lemma RunRename(st: State, from: string, path: string, similarity: string)
    requires st.cur == Some(Blank) && !st.inHunk
    ensures Run(st, ["similarity index " + similarity, "rename from " + from, "rename to " + path])
         == st.(cur := Some(Blank.(status := Renamed, prevPath := from, path := path)))
  {
    var c := Blank.(status := Renamed, prevPath := from);
    StepOther(st, similarity);
    StepRenameFrom(st, Blank, from);
    StepRenameTo(st.(cur := Some(c)), c, path);
    RunThree(st, "similarity index " + similarity, "rename from " + from, "rename to " + path);
  }

  lemma RunMove(st: State, d: Delta)
    requires d.Move? && st.cur == Some(Blank) && !st.inHunk
    ensures Run(st, MoveRows(d.copied, d.from, d.path, d.similarity)) == st.(cur := Some(HeaderFile(d)))
  {
    if d.copied {
      RunCopy(st, d.from, d.path, d.similarity);
    } else {
      RunRename(st, d.from, d.path, d.similarity);
    }
  }

  lemma CutRange(oldId: string, newId: string, mode: string)
    requires IsOID(oldId) && IsOID(newId)
    ensures IndexIds(IndexRow(oldId, newId, mode)) == Some((oldId, newId))
  {
    var range := oldId + ".." + newId;
    var rest := range + (if mode == "" then "" else " " + mode);
    assert TrimPrefix(IndexRow(oldId, newId, mode), "index ") == rest;
    assert ' ' !in range;
    if mode != "" {
      assert rest == range + [' '] + mode;
      CutAt(range, ' ', mode);
    } else {
      assert rest == range;
    }
    CutStringAt(oldId, "..", newId);
  }

  lemma StepIsHeaderLine(st: State, c: FileChange, ln: string)
    requires st.cur == Some(c) && !st.inHunk && ln != "" && ln[0] != 'd' && ln[0] != '@'
    ensures Step(st, ln) == HeaderLine(st, c, ln)
  {
    NoPrefix("diff --git ", ln, 0);
    NoPrefix("@@", ln, 0);
  }

  lemma HeaderIndex(st: State, c: FileChange, ln: string)
    requires "index " <= ln
    ensures HeaderLine(st, c, ln) == match IndexIds(ln) case Some((a, b)) => st.(oldSHA := a, newSHA := b) case None => st
  {
    assert ln[0] == "index "[0] == 'i';
  }

  lemma StepIndex(st: State, c: FileChange, ln: string)
    requires st.cur == Some(c) && !st.inHunk && "index " <= ln && IndexIds(ln).Some?
    ensures Step(st, ln) == st.(oldSHA := IndexIds(ln).value.0, newSHA := IndexIds(ln).value.1)
  {
    assert ln[0] == "index "[0] == 'i';
    StepIsHeaderLine(st, c, ln);
    HeaderIndex(st, c, ln);
  }

  lemma StepOldLabel(st: State, c: FileChange, p: string)
    requires st.cur == Some(c) && !st.inHunk
    ensures Step(st, "--- " + p)
         == if c.path == "" && p != DevNull then st.(cur := Some(c.(path := StripDiffPrefix(p)))) else st
  {
    var ln := "--- " + p;
    assert ln[0] == '-';
    assert TrimPrefix(ln, "--- ") == p;
  }

  lemma StepNewLabel(st: State, c: FileChange, p: string)
    requires st.cur == Some(c) && !st.inHunk
    ensures Step(st, "+++ " + p) == if p != DevNull then st.(cur := Some(c.(path := StripDiffPrefix(p)))) else st
  {
    var ln := "+++ " + p;
    assert ln[0] == '+';
    assert TrimPrefix(ln, "+++ ") == p;
  }

  /** The two label lines leave the path of the side that exists, the new side first. */
  lemma RunLabels(st: State, d: Delta)
    requires WellFormed(d) && st.cur == Some(HeaderFile(d)) && !st.inHunk
    ensures Run(st, ["--- " + OldLabel(d), "+++ " + NewLabel(d)])
         == st.(cur := Some(HeaderFile(d).(path := Label(d.path))))
  {
    var c := HeaderFile(d);
    var o, n := OldLabel(d), NewLabel(d);
    RunTwo(st, "--- " + o, "+++ " + n);
    StepOldLabel(st, c, o);
    var st1 := Step(st, "--- " + o);
    StepNewLabel(st1, st1.cur.value, n);
    if !d.Create? {
      assert o[0] == 'a' && DevNull[0] == '/';
      assert StripDiffPrefix(o) == Label(OldPath(d)) by { assert "a/" <= o; }
    }
    if !d.Delete? {
      assert n[0] == 'b' && DevNull[0] == '/';
      assert StripDiffPrefix(n) == Label(d.path) by { assert "b/" <= n; }
    }
  }

  lemma StepRow(st: State, c: FileChange, ln: string)
    requires st.cur == Some(c) && IsHunkRow(ln) && (st.inHunk || "@@" <= ln)
    ensures Step(st, ln) == st.(inHunk := true, patch := st.patch + [ln],
              cur := Some(c.(additions := c.additions + if CountsAsAddition(ln) then 1 else 0,
                             deletions := c.deletions + if CountsAsDeletion(ln) then 1 else 0)))
  {
    NoPrefix("diff --git ", ln, 0);
    if "@@" <= ln {
      assert ln[0] == "@@"[0] == '@';
    } else if CountsAsAddition(ln) {
      assert ln[0] == "+"[0] == '+';
    }
  }

  function Counted(c: FileChange, rows: seq<string>): FileChange {
    c.(additions := c.additions + CountRows(rows, CountsAsAddition),
       deletions := c.deletions + CountRows(rows, CountsAsDeletion))
  }

  lemma CountedSnoc(c: FileChange, front: seq<string>, ln: string)
    ensures Counted(c, front + [ln]) ==
              Counted(c, front).(additions := Counted(c, front).additions + (if CountsAsAddition(ln) then 1 else 0),
                                 deletions := Counted(c, front).deletions + (if CountsAsDeletion(ln) then 1 else 0))
  {
    assert (front + [ln])[..|front|] == front;
  }

  /** Hunk rows are all collected, and counted by their first characters. */
  lemma {:induction false} RunRows(st: State, c: FileChange, rows: seq<string>)
    requires st.cur == Some(c) && rows != [] && "@@" <= rows[0]
    requires forall i :: 0 <= i < |rows| ==> IsHunkRow(rows[i])
    ensures Run(st, rows) == st.(inHunk := true, patch := st.patch + rows, cur := Some(Counted(c, rows)))
  {
    var front, ln := rows[..|rows| - 1], rows[|rows| - 1];
    assert IsHunkRow(ln) && rows == front + [ln];
    if front == [] {
      assert Counted(c, []) == c && st.patch + [] == st.patch;
      NextRow(st, c, [], ln);
    } else {
      RunRows(st, c, front);
      NextRow(st.(inHunk := true, patch := st.patch + front, cur := Some(Counted(c, front))), c, front, ln);
      assert st.patch + front + [ln] == st.patch + rows;
    }
  }

  lemma NextRow(st: State, c: FileChange, front: seq<string>, ln: string)
    requires st.cur == Some(Counted(c, front)) && IsHunkRow(ln) && (st.inHunk || "@@" <= ln)
    ensures Step(st, ln) == st.(inHunk := true, patch := st.patch + [ln], cur := Some(Counted(c, front + [ln])))
  {
    StepRow(st, Counted(c, front), ln);
    CountedSnoc(c, front, ln);
  }

  /** The state a printed delta leaves, from a state just past its `diff --git` line. */
  function AfterBody(st: State, d: Delta): State {
    match d.body
    case Unchanged => st
    case Bare(oldId, newId, _) => st.(oldSHA := oldId, newSHA := newId)
    case Binary(oldId, newId, _) => st.(oldSHA := oldId, newSHA := newId)
    case Hunks(oldId, newId, _, rows) =>
      State(st.files, Some(Counted(HeaderFile(d).(path := Label(d.path)), rows)), oldId, newId, st.patch + rows, true)
  }

  lemma RunBody(st: State, d: Delta)
    requires WellFormed(d) && st.cur == Some(HeaderFile(d)) && !st.inHunk
    ensures Run(st, BodyRows(d)) == AfterBody(st, d)
  {
    match d.body
    case Unchanged =>
    case Bare(oldId, newId, mode) =>
      RunIndexRow(st, HeaderFile(d), oldId, newId, mode);
      RunCons(st, IndexRow(oldId, newId, mode), []);
    case Binary(_, _, _) => RunBinary(st, d);
    case Hunks(_, _, _, _) => RunHunks(st, d);
  }

  lemma RunIndexRow(st: State, c: FileChange, oldId: string, newId: string, mode: string)
    requires IsOID(oldId) && IsOID(newId) && st.cur == Some(c) && !st.inHunk
    ensures Step(st, IndexRow(oldId, newId, mode)) == st.(oldSHA := oldId, newSHA := newId)
  {
    CutRange(oldId, newId, mode);
    StepIndex(st, c, IndexRow(oldId, newId, mode));
  }

  lemma StepBinary(st: State, rest: string)
    requires st.cur.Some? && !st.inHunk
    ensures Step(st, "Binary files " + rest) == st
  {
    var ln := "Binary files " + rest;
    assert ln[0] == 'B';
  }

  lemma RunBinary(st: State, d: Delta)
    requires WellFormed(d) && d.body.Binary? && st.cur == Some(HeaderFile(d)) && !st.inHunk
    ensures Run(st, BodyRows(d)) == AfterBody(st, d)
  {
    var b := d.body;
    var r0 := IndexRow(b.oldId, b.newId, b.mode);
    var rest := OldLabel(d) + " and " + NewLabel(d) + " differ";
    RunTwo(st, r0, "Binary files " + rest);
    var st1 := st.(oldSHA := b.oldId, newSHA := b.newId);
    RunIndexRow(st, HeaderFile(d), b.oldId, b.newId, b.mode);
    StepBinary(st1, rest);
  }

  /** From the state past the index line: the labels, then the hunk rows. */
  lemma RunLabelled(st: State, d: Delta, rows: seq<string>)
    requires WellFormed(d) && d.body.Hunks? && rows == d.body.rows && st.cur == Some(HeaderFile(d)) && !st.inHunk
    ensures Run(Run(st, ["--- " + OldLabel(d), "+++ " + NewLabel(d)]), rows)
         == State(st.files, Some(Counted(HeaderFile(d).(path := Label(d.path)), rows)), st.oldSHA, st.newSHA, st.patch + rows, true)
  {
    var c := HeaderFile(d).(path := Label(d.path));
    RunLabels(st, d);
    RunRows(st.(cur := Some(c)), c, rows);
  }

  lemma RunHunks(st: State, d: Delta)
    requires WellFormed(d) && d.body.Hunks? && st.cur == Some(HeaderFile(d)) && !st.inHunk
    ensures Run(st, BodyRows(d)) == AfterBody(st, d)
  {
    var b, r0 := d.body, IndexRow(d.body.oldId, d.body.newId, d.body.mode);
    RunIndexRow(st, HeaderFile(d), b.oldId, b.newId, b.mode);
    RunLabelled(st.(oldSHA := b.oldId, newSHA := b.newId), d, b.rows);
    HunkBodyRows(d);
    RunParts(st, r0, ["--- " + OldLabel(d), "+++ " + NewLabel(d)], b.rows);
  }

  lemma HunkBodyRows(d: Delta)
    requires d.body.Hunks?
    ensures BodyRows(d) == [IndexRow(d.body.oldId, d.body.newId, d.body.mode)] + ["--- " + OldLabel(d), "+++ " + NewLabel(d)] + d.body.rows
  {
  }

  lemma StepFileRow(st: State, d: Delta)
    ensures Step(st, FileRow(d)) == State(Flush(st), Some(Blank), "", "", [], false)
  {
    assert "diff --git " <= FileRow(d);
  }

  lemma RunParts(st: State, first: string, header: seq<string>, body: seq<string>)
    ensures Run(st, [first] + header + body) == Run(Run(Step(st, first), header), body)
  {
    assert [first] + header + body == [first] + (header + body);
    RunCons(st, first, header + body);
    RunConcat(Step(st, first), header, body);
  }

  /** Reading one printed delta closes the file before it and leaves its own entry pending. */
  lemma RunDelta(st: State, d: Delta)
    requires WellFormed(d)
    ensures Flush(Run(st, Rows(d))) == Flush(st) + [Reported(d)]
  {
    var st1 := State(Flush(st), Some(Blank), "", "", [], false);
    StepFileRow(st, d);
    RunParts(st, FileRow(d), HeaderRows(d), BodyRows(d));
    RunHeader(st1, d);
    var st2 := st1.(cur := Some(HeaderFile(d)));
    RunBody(st2, d);
    FlushBody(st2, d);
  }

  /** Hunk rows joined into a patch lose nothing to the trimming: their last row is not empty. */
  lemma PatchIsUntrimmed(rows: seq<string>)
    requires rows != [] && forall i :: 0 <= i < |rows| ==> IsHunkRow(rows[i])
    ensures TrimRight(Join(rows, '\n'), '\n') == Join(rows, '\n')
  {
    assert DropTrailingEmpty(rows) == rows by {
      assert IsHunkRow(rows[|rows| - 1]);
    }
    forall i | 0 <= i < |rows| ensures '\n' !in rows[i] { assert IsHunkRow(rows[i]); }
    TrimRightOfJoin(rows);
  }

  lemma FlushBody(st: State, d: Delta)
    requires WellFormed(d) && st == State(st.files, Some(HeaderFile(d)), "", "", [], false)
    ensures Flush(AfterBody(st, d)) == st.files + [Reported(d)]
  {
    if d.body.Hunks? {
      assert [] + d.body.rows == d.body.rows;
      PatchIsUntrimmed(d.body.rows);
    } else {
      assert Join(st.patch, '\n') == "";
    }
  }

  function ReportedAll(ds: seq<Delta>): seq<FileChange> {
    if ds == [] then [] else ReportedAll(ds[..|ds| - 1]) + [Reported(ds[|ds| - 1])]
  }

  lemma {:induction false} RunAll(ds: seq<Delta>)
    requires forall i :: 0 <= i < |ds| ==> WellFormed(ds[i])
    ensures Flush(Run(Start, AllRows(ds))) == ReportedAll(ds)
  {
    if ds != [] {
      var front, d := ds[..|ds| - 1], ds[|ds| - 1];
      RunAll(front);
      RunConcat(Start, AllRows(front), Rows(d));
      RunDelta(Run(Start, AllRows(front)), d);
    }
  }

  lemma StepEmpty(st: State)
    ensures Step(st, "") == if st.cur.Some? && st.inHunk then st.(patch := st.patch + [""]) else st
  {
  }

  lemma EmptyRowIsTrimmed(patch: seq<string>)
    ensures TrimRight(Join(patch + [""], '\n'), '\n') == TrimRight(Join(patch, '\n'), '\n')
  {
    if patch != [] {
      JoinSnoc(patch, "", '\n');
      var s := Join(patch, '\n');
      assert s + ['\n'] + "" == s + ['\n'];
      assert (s + ['\n'])[..|s|] == s;
    }
  }

  /** The empty piece after the last newline changes nothing that is reported. */
  lemma EmptyLineIsHarmless(st: State)
    ensures Flush(Step(st, "")) == Flush(st)
  {
    StepEmpty(st);
    EmptyRowIsTrimmed(st.patch);
  }

  predicate AllWellFormed(ds: seq<Delta>) { forall i :: 0 <= i < |ds| ==> WellFormed(ds[i]) }

  lemma {:induction false} RowsAreLines(ds: seq<Delta>)
    requires AllWellFormed(ds)
    ensures NoneContain(AllRows(ds), '\n')
  {
    if ds != [] {
      RowsAreLines(ds[..|ds| - 1]);
      DeltaRowsAreLines(ds[|ds| - 1]);
    }
  }

  lemma OneLineConcat(a: string, b: string)
    requires OneLine(a) && OneLine(b)
    ensures OneLine(a + b)
  {
  }

  lemma LinesConcat(a: seq<string>, b: seq<string>)
    requires NoneContain(a, '\n') && NoneContain(b, '\n')
    ensures NoneContain(a + b, '\n')
  {
  }

  lemma LabelsAreLines(d: Delta)
    requires WellFormed(d)
    ensures OneLine(OldLabel(d)) && OneLine(NewLabel(d))
  {
    assert OneLine(Label(d.path)) && OneLine(Label(OldPath(d)));
    assert OneLine(DevNull);
  }

  lemma ModeLinesAreLines(rows: seq<string>)
    requires AreModeLines(rows)
    ensures NoneContain(rows, '\n')
  {
    forall i | 0 <= i < |rows| ensures '\n' !in rows[i] { assert IsModeLine(rows[i]); }
  }

  lemma MoveRowsAreLines(copied: bool, from: string, path: string, similarity: string)
    requires OneLine(from) && OneLine(path) && OneLine(similarity)
    ensures NoneContain(MoveRows(copied, from, path, similarity), '\n')
  {
    OneLineConcat("similarity index ", similarity);
    if copied {
      OneLineConcat("copy from ", from);
      OneLineConcat("copy to ", path);
    } else {
      OneLineConcat("rename from ", from);
      OneLineConcat("rename to ", path);
    }
  }

  lemma HeaderRowsAreLines(d: Delta)
    requires WellFormed(d)
    ensures NoneContain(HeaderRows(d), '\n')
  {
    match d
    case Modify(_, modeLines, _) => ModeLinesAreLines(modeLines);
    case Create(_, fileMode, _) => OneLineConcat("new file mode ", fileMode);
    case Delete(_, fileMode, _) => OneLineConcat("deleted file mode ", fileMode);
    case Move(copied, modeLines, from, path, similarity, _) =>
      ModeLinesAreLines(modeLines);
      MoveRowsAreLines(copied, from, path, similarity);
      LinesConcat(modeLines, MoveRows(copied, from, path, similarity));
  }

  lemma IndexRowIsLine(oldId: string, newId: string, mode: string)
    requires IsOID(oldId) && IsOID(newId) && OneLine(mode)
    ensures OneLine(IndexRow(oldId, newId, mode))
  {
    assert OneLine(oldId) && OneLine(newId) && OneLine("index ");
  }

  lemma BinaryRowIsLine(o: string, n: string)
    requires OneLine(o) && OneLine(n)
    ensures OneLine("Binary files " + (o + " and " + n + " differ"))
  {
    OneLineConcat(o, " and ");
    OneLineConcat(o + " and ", n);
    OneLineConcat(o + " and " + n, " differ");
    OneLineConcat("Binary files ", o + " and " + n + " differ");
  }

  lemma HunkRowsAreLines(first: string, o: string, n: string, rows: seq<string>)
    requires OneLine(first) && OneLine(o) && OneLine(n) && forall i :: 0 <= i < |rows| ==> IsHunkRow(rows[i])
    ensures NoneContain([first, "--- " + o, "+++ " + n] + rows, '\n')
  {
    OneLineConcat("--- ", o);
    OneLineConcat("+++ ", n);
    forall i | 0 <= i < |rows| ensures '\n' !in rows[i] { assert IsHunkRow(rows[i]); }
    LinesConcat([first, "--- " + o, "+++ " + n], rows);
  }

  lemma BodyRowsAreLines(d: Delta)
    requires WellFormed(d)
    ensures NoneContain(BodyRows(d), '\n')
  {
    LabelsAreLines(d);
    match d.body
    case Unchanged =>
    case Bare(oldId, newId, mode) => IndexRowIsLine(oldId, newId, mode);
    case Hunks(oldId, newId, mode, rows) =>
      IndexRowIsLine(oldId, newId, mode);
      HunkRowsAreLines(IndexRow(oldId, newId, mode), OldLabel(d), NewLabel(d), rows);
    case Binary(oldId, newId, mode) =>
      IndexRowIsLine(oldId, newId, mode);
      BinaryRowIsLine(OldLabel(d), NewLabel(d));
  }

  lemma FileRowIsLine(d: Delta)
    requires WellFormed(d)
    ensures OneLine(FileRow(d))
  {
    OneLineConcat("a/", OldPath(d));
    OneLineConcat("a/" + OldPath(d), " b/");
    OneLineConcat("a/" + OldPath(d) + " b/", d.path);
    OneLineConcat("diff --git ", "a/" + OldPath(d) + " b/" + d.path);
  }

  lemma DeltaRowsAreLines(d: Delta)
    requires WellFormed(d)
    ensures NoneContain(Rows(d), '\n')
  {
    FileRowIsLine(d);
    HeaderRowsAreLines(d);
    BodyRowsAreLines(d);
    LinesConcat([FileRow(d)], HeaderRows(d));
    LinesConcat([FileRow(d)] + HeaderRows(d), BodyRows(d));
  }

  /** parseDiff of any printed diff is exactly the reported entries, one per delta, in order. */
  lemma ParsePrint(ds: seq<Delta>)
    requires AllWellFormed(ds)
    ensures Parse(Print(ds)) == ReportedAll(ds)
  {
    RowsAreLines(ds);
    SplitOfUnlines(AllRows(ds));
    RunConcat(Start, AllRows(ds), [""]);
    var st := Run(Start, AllRows(ds));
    RunCons(st, "", []);
    assert [""] == [""] + [];
    EmptyLineIsHarmless(st);
    RunAll(ds);
  }

  // ---- When the reported entry is the true one ----

  /** No row's own text makes it look like a `---` or `+++` label line. */
  predicate NoLabelLikeRow(rows: seq<string>) {
    forall i :: 0 <= i < |rows| ==> !("+++" <= rows[i]) && !("---" <= rows[i])
  }

  /** The entry names its path in a line parseDiff reads whole, and hides no counted row. */
  predicate Legible(d: Delta) {
    && (d.Move? || d.body.Hunks?)
    && (d.body.Hunks? ==> ' ' !in d.path && NoLabelLikeRow(d.body.rows))
  }

  lemma {:induction false} CountRowsBound(rows: seq<string>)
    ensures CountRows(rows, CountsAsAddition) <= CountRows(rows, IsAddedRow)
    ensures CountRows(rows, CountsAsDeletion) <= CountRows(rows, IsDeletedRow)
    ensures (&& CountRows(rows, CountsAsAddition) == CountRows(rows, IsAddedRow)
             && CountRows(rows, CountsAsDeletion) == CountRows(rows, IsDeletedRow))
            <==> NoLabelLikeRow(rows)
  {
    if rows != [] {
      var front, ln := rows[..|rows| - 1], rows[|rows| - 1];
      CountRowsBound(front);
      assert "+++" <= ln ==> "+" <= ln;
      assert "---" <= ln ==> "-" <= ln;
      assert NoLabelLikeRow(rows) <==> NoLabelLikeRow(front) && !("+++" <= ln) && !("---" <= ln);
    }
  }

  /** An entry is reported truly exactly when it is legible. */
  lemma ReportedTruly(d: Delta)
    requires WellFormed(d)
    ensures Reported(d) == Truth(d) <==> Legible(d)
  {
    CountRowsBound(HunkRows(d));
    assert |Label(d.path)| != |d.path| <==> ' ' in d.path;
  }

  /** The whole diff is read back truly exactly when every entry is legible. */
  lemma ParsePrintTruth(ds: seq<Delta>)
    requires AllWellFormed(ds)
    ensures |Parse(Print(ds))| == |ds|
    ensures forall i :: 0 <= i < |ds| ==> Parse(Print(ds))[i] == Reported(ds[i])
    ensures (forall i :: 0 <= i < |ds| ==> Parse(Print(ds))[i] == Truth(ds[i])) <==> (forall i :: 0 <= i < |ds| ==> Legible(ds[i]))
  {
    ParsePrint(ds);
    ReportedAllAt(ds);
    forall i | 0 <= i < |ds| ensures Reported(ds[i]) == Truth(ds[i]) <==> Legible(ds[i]) {
      ReportedTruly(ds[i]);
    }
  }

  lemma {:induction false} ReportedAllAt(ds: seq<Delta>)
    ensures |ReportedAll(ds)| == |ds|
    ensures forall i :: 0 <= i < |ds| ==> ReportedAll(ds)[i] == Reported(ds[i])
  {
    if ds != [] {
      ReportedAllAt(ds[..|ds| - 1]);
    }
  }

  /** The absent side of a deletion or a creation. */
  const NoBlob := "0000000000000000000000000000000000000000"

  lemma EmptyBody(oldId: string, newId: string)
    requires IsOID(oldId) && IsOID(newId)
    ensures WellFormedBody(Bare(oldId, newId, ""))
  {
  }

  lemma NoBlobIsZero()
    ensures IsZeroOID(NoBlob) && IsOID(NoBlob)
  {
  }

  lemma EmptyCreation(path: string, mode: string, none: string, id: string)
    requires path != "" && OneLine(path) && OneLine(mode) && IsZeroOID(none) && !IsZeroOID(id) && WellFormedBody(Bare(none, id, ""))
    ensures WellFormed(Create(path, mode, Bare(none, id, "")))
    ensures Reported(Create(path, mode, Bare(none, id, ""))) == FileChange("", "", Added, 0, 0, id, "")
  {
  }

  lemma EmptyDeletion(path: string, mode: string, none: string, id: string)
    requires path != "" && OneLine(path) && OneLine(mode) && IsZeroOID(none) && WellFormedBody(Bare(id, none, ""))
    ensures WellFormed(Delete(path, mode, Bare(id, none, "")))
    ensures Reported(Delete(path, mode, Bare(id, none, ""))) == FileChange("", "", Removed, 0, 0, id, "")
  {
  }

  /** The printed form has the empty files made and deleted, by their ids alone. */
  lemma EmptyFilesArePrinted(path: string, mode: string, none: string, id: string)
    requires path != "" && OneLine(path) && OneLine(mode) && none == NoBlob
    requires IsOID(id) && exists i :: 0 <= i < |id| && id[i] != '0'
    ensures WellFormed(Create(path, mode, Bare(none, id, ""))) && WellFormed(Delete(path, mode, Bare(id, none, "")))
    ensures Reported(Create(path, mode, Bare(none, id, ""))) == FileChange("", "", Added, 0, 0, id, "")
    ensures Reported(Delete(path, mode, Bare(id, none, ""))) == FileChange("", "", Removed, 0, 0, id, "")
  {
    NoBlobIsZero();
    EmptyBody(none, id);
    EmptyBody(id, none);
    EmptyCreation(path, mode, none, id);
    EmptyDeletion(path, mode, none, id);
  }
}
