/** Any diff text at all: what parseDiff counts against what the review anchors see in the
    same patch. */
module DiffCounts {
  import opened Strings
  import opened DiffParse
  import opened DiffText
  import P = DiffPosition

  /** The rows of one kind among the counted lines of an index. */
  function CountKind(lines: seq<P.DiffLine>, kind: char): nat {
    if lines == [] then 0
    else CountKind(lines[..|lines| - 1], kind) + if lines[|lines| - 1].kind == kind then 1 else 0
  }

  /** What the scan of a patch that opens with a header counts, kind by kind. */
  lemma {:induction false} ScanCounts(rows: seq<string>)
    requires rows != [] && P.IsHeader(rows[0])
    ensures P.Run(rows).seenHunk
    ensures CountKind(P.Run(rows).index.lines, '+') == CountRows(rows, IsAddedRow)
    ensures CountKind(P.Run(rows).index.lines, '-') == CountRows(rows, IsDeletedRow)
  {
    var front, ln := rows[..|rows| - 1], rows[|rows| - 1];
    if front == [] {
      ScanFirst(ln);
      assert rows == [ln];
    } else {
      ScanCounts(front);
      ScanRow(P.Run(front), ln);
    }
  }

  lemma ScanFirst(ln: string)
    requires P.IsHeader(ln)
    ensures P.Run([ln]).seenHunk && P.Run([ln]).index.lines == []
    ensures CountRows([ln], IsAddedRow) == 0 && CountRows([ln], IsDeletedRow) == 0
  {
    assert [ln][..0] == [];
    assert ln[0] == '@';
  }

  lemma ScanRow(sc: P.Scan, ln: string)
    requires sc.seenHunk
    ensures var lines, lines' := sc.index.lines, P.Step(sc, ln).index.lines;
            && P.Step(sc, ln).seenHunk
            && CountKind(lines', '+') == CountKind(lines, '+') + (if IsAddedRow(ln) then 1 else 0)
            && CountKind(lines', '-') == CountKind(lines, '-') + (if IsDeletedRow(ln) then 1 else 0)
  {
    if P.IsHeader(ln) {
      assert ln[0] == '@';
    } else {
      var dl := P.RowOf(sc, ln);
      assert (sc.index.lines + [dl])[..|sc.index.lines|] == sc.index.lines;
    }
  }

  /** The parser's current file always agrees with its collected rows. */
  ghost predicate Tallied(st: State) {
    && NoneContain(st.patch, '\n')
    && (st.patch != [] ==> P.IsHeader(st.patch[0]))
    && (st.inHunk <==> st.patch != [])
    && (st.cur.None? ==> st.patch == [])
    && (st.cur.Some? ==>
          && st.cur.value.additions == CountRows(st.patch, CountsAsAddition)
          && st.cur.value.deletions == CountRows(st.patch, CountsAsDeletion))
    && forall i :: 0 <= i < |st.files| ==> Agrees(st.files[i])
  }

  /** The counts of a file change against the '+' and '-' rows its own patch anchors. */
  predicate Agrees(f: FileChange) {
    var lines := P.Parse(f.patch).lines;
    var rows := Split(f.patch, '\n');
    && f.additions <= CountKind(lines, '+') && f.deletions <= CountKind(lines, '-')
    && (f.additions == CountKind(lines, '+') && f.deletions == CountKind(lines, '-') <==> NoLabelLikeRow(rows))
  }

  lemma CountSnoc(rows: seq<string>, ln: string, p: string -> bool)
    ensures CountRows(rows + [ln], p) == CountRows(rows, p) + if p(ln) then 1 else 0
  {
    assert (rows + [ln])[..|rows|] == rows;
  }

  lemma HeaderLineKeeps(st: State, c: FileChange, ln: string)
    requires st.cur == Some(c)
    ensures var st' := HeaderLine(st, c, ln);
            && st'.files == st.files && st'.patch == st.patch && st'.inHunk == st.inHunk && st'.cur.Some?
            && st'.cur.value.additions == c.additions && st'.cur.value.deletions == c.deletions
  {
  }

  lemma StepTallied(st: State, ln: string)
    requires Tallied(st) && '\n' !in ln
    ensures Tallied(Step(st, ln))
  {
    if "diff --git " <= ln {
      FlushAgrees(st);
    } else if st.cur.Some? {
      if P.IsHeader(ln) || st.inHunk {
        RowTallied(st, ln);
      } else {
        HeaderLineKeeps(st, st.cur.value, ln);
      }
    }
  }

  lemma RowTallied(st: State, ln: string)
    requires Tallied(st) && '\n' !in ln && st.cur.Some? && (P.IsHeader(ln) || st.inHunk) && !("diff --git " <= ln)
    ensures Tallied(Step(st, ln))
  {
    CountSnoc(st.patch, ln, CountsAsAddition);
    CountSnoc(st.patch, ln, CountsAsDeletion);
    if P.IsHeader(ln) {
      assert ln[0] == '@';
    } else if CountsAsAddition(ln) {
      assert ln[0] == '+';
    }
  }

  /** Trailing empty rows count for nothing. */
  lemma {:induction false} DropKeepsCounts(rows: seq<string>)
    ensures CountRows(rows, CountsAsAddition) == CountRows(DropTrailingEmpty(rows), CountsAsAddition)
    ensures CountRows(rows, CountsAsDeletion) == CountRows(DropTrailingEmpty(rows), CountsAsDeletion)
  {
    if rows != [] && rows[|rows| - 1] == [] {
      DropKeepsCounts(rows[..|rows| - 1]);
    }
  }

  /** The patch of a closed file splits back into its own rows. */
  lemma PatchRows(st: State)
    requires Tallied(st) && st.cur.Some? && st.patch != []
    ensures var f := Flush(st)[|st.files|];
            Split(f.patch, '\n') == DropTrailingEmpty(st.patch) && DropTrailingEmpty(st.patch) != []
  {
    var rows := DropTrailingEmpty(st.patch);
    TrimRightOfJoin(st.patch);
    assert st.patch[0] != [];
    SplitOfJoin(rows, '\n');
  }

  lemma FlushAgrees(st: State)
    requires Tallied(st)
    ensures forall i :: 0 <= i < |Flush(st)| ==> Agrees(Flush(st)[i])
  {
    if st.cur.Some? {
      var f := Flush(st)[|st.files|];
      if st.patch == [] {
        assert f.patch == "";
        EmptyPatchAgrees(f);
      } else {
        var rows := DropTrailingEmpty(st.patch);
        PatchRows(st);
        DropKeepsCounts(st.patch);
        CountRowsBound(rows);
        ScanCounts(rows);
      }
    }
  }

  lemma EmptyPatchAgrees(f: FileChange)
    requires f.patch == "" && f.additions == 0 && f.deletions == 0
    ensures Agrees(f)
  {
    assert Split("", '\n') == [""];
    assert [""][..0] == [];
    assert P.Run([""]) == P.Start;
  }

  lemma {:induction false} RunTallied(lines: seq<string>)
    requires NoneContain(lines, '\n')
    ensures Tallied(Run(Start, lines))
  {
    if lines != [] {
      RunTallied(lines[..|lines| - 1]);
      StepTallied(Run(Start, lines[..|lines| - 1]), lines[|lines| - 1]);
    }
  }

  /** For every text: no file's counts exceed the '+' and '-' rows its patch anchors, and they are
      equal exactly when no row of the patch reads like a `+++` or `---` line. */
  lemma CountsNeverExceedRows(text: string)
    ensures forall i :: 0 <= i < |Parse(text)| ==> Agrees(Parse(text)[i])
  {
    var lines := Split(text, '\n');
    SplitNoneContain(text, '\n');
    RunTallied(lines);
    FlushAgrees(Run(Start, lines));
  }
}
