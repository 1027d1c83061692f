/** Patches as git prints them, hunk after hunk: they move forward, so every row of every hunk is
    anchored where the unified-diff format says, both ways (domain/diff_position.go). */
module HunkText {
  import opened Strings
  import opened DiffPosition
  import opened DiffAnchors

  /** A count of one line may be left out of the header. */
  datatype Hunk = Hunk(oldStart: nat, oldCount: Option<nat>, newStart: nat, newCount: Option<nat>, heading: string, rows: seq<string>)

  function CountOf(count: Option<nat>): nat { if count.Some? then count.value else 1 }

  function HeaderOf(h: Hunk): string { PrintHeader(h.oldStart, h.oldCount, h.newStart, h.newCount, h.heading) }

  function Lines(hs: seq<Hunk>): seq<string> {
    if hs == [] then [] else Lines(hs[..|hs| - 1]) + ([HeaderOf(hs[|hs| - 1])] + hs[|hs| - 1].rows)
  }

  function PatchText(hs: seq<Hunk>): string { Join(Lines(hs), '\n') }

  /** The rows of each side, by their first character; an empty line is a context row. */
  predicate OldSide(row: string) { row == "" || (row[0] != '+' && row[0] != '\\') }

  predicate NewSide(row: string) { row == "" || (row[0] != '-' && row[0] != '\\') }

  function OldRows(rows: seq<string>): nat {
    if rows == [] then 0 else OldRows(rows[..|rows| - 1]) + if OldSide(rows[|rows| - 1]) then 1 else 0
  }

  function NewRows(rows: seq<string>): nat {
    if rows == [] then 0 else NewRows(rows[..|rows| - 1]) + if NewSide(rows[|rows| - 1]) then 1 else 0
  }

  lemma {:induction false} RowsOfSides(rows: seq<string>)
    ensures CountSide(rows, Left) == OldRows(rows) && CountSide(rows, Right) == NewRows(rows)
  {
    if rows != [] {
      RowsOfSides(rows[..|rows| - 1]);
    }
  }

  /** The header counts the rows it heads, and each row is one line that does not look like a header. */
  predicate Counted(h: Hunk) {
    && h.oldStart < 0x8000_0000_0000_0000 && h.newStart < 0x8000_0000_0000_0000
    && CountOf(h.oldCount) == OldRows(h.rows) && CountOf(h.newCount) == NewRows(h.rows)
    && NoHeader(h.rows) && '\n' !in h.heading && NoneContain(h.rows, '\n')
  }

  /** The ranges of the headers ascend without overlap on both sides. */
  predicate Ascending(hs: seq<Hunk>) {
    forall k :: 0 < k < |hs| ==>
      && hs[k - 1].oldStart + CountOf(hs[k - 1].oldCount) <= hs[k].oldStart
      && hs[k - 1].newStart + CountOf(hs[k - 1].newCount) <= hs[k].newStart
  }

  predicate WellFormed(hs: seq<Hunk>) { hs != [] && Ascending(hs) && forall k :: 0 <= k < |hs| ==> Counted(hs[k]) }

  lemma HeaderReads(h: Hunk)
    requires Counted(h)
    ensures IsHeader(HeaderOf(h)) && HunkHeader(HeaderOf(h)) == (h.oldStart, h.newStart)
  {
    HeaderRoundTrip(h.oldStart, h.oldCount, h.newStart, h.newCount, h.heading);
  }

  // ---- Forward ----

  lemma ForwardSnoc(lines: seq<string>, ln: string)
    requires Forward(lines) && (IsHeader(ln) ==> MovesForward(Run(lines), ln))
    ensures Forward(lines + [ln])
  {
    var more := lines + [ln];
    forall i | 0 <= i < |more| && IsHeader(more[i]) ensures MovesForward(Run(more[..i]), more[i]) {
      if i < |lines| {
        assert more[..i] == lines[..i] && IsHeader(lines[i]);
      } else {
        assert more[..i] == lines;
      }
    }
  }

  lemma {:induction false} ForwardRows(lines: seq<string>, rows: seq<string>)
    requires Forward(lines) && NoHeader(rows)
    ensures Forward(lines + rows)
  {
    if rows == [] {
      assert lines + rows == lines;
    } else {
      var front, row := rows[..|rows| - 1], rows[|rows| - 1];
      assert rows == front + [row];
      ForwardRows(lines, front);
      ForwardSnoc(lines + front, row);
      assert lines + front + [row] == lines + rows;
    }
  }

  /** Past the rows of a hunk the scan stands at the header's starts plus the rows of each side. */
  lemma RunPastRows(before: seq<string>, header: string, rows: seq<string>)
    requires IsHeader(header) && NoHeader(rows)
    ensures var sc, (o, n) := Run(before + ([header] + rows)), HunkHeader(header);
            sc.seenHunk && sc.oldLine == o + CountSide(rows, Left) && sc.newLine == n + CountSide(rows, Right)
  {
    var lines := before + ([header] + rows);
    assert lines[|before|] == header && lines[|before| + 1..|lines|] == rows && lines[..|lines|] == lines;
    forall k | |before| < k < |lines| ensures !IsHeader(lines[k]) {
      assert lines[k] == rows[k - |before| - 1];
    }
    ScanInHunk(lines, |before|, |lines|);
  }

  lemma RowsForward(before: seq<string>, header: string, rows: seq<string>)
    requires Forward(before) && IsHeader(header) && MovesForward(Run(before), header) && NoHeader(rows)
    ensures Forward(before + ([header] + rows))
  {
    ForwardSnoc(before, header);
    ForwardRows(before + [header], rows);
    assert before + [header] + rows == before + ([header] + rows);
  }

  /** Past a printed hunk the scan stands at the end of its ranges. */
  lemma RunPastHunk(before: seq<string>, h: Hunk)
    requires Counted(h)
    ensures var sc := Run(before + ([HeaderOf(h)] + h.rows));
            sc.seenHunk && sc.oldLine == h.oldStart + CountOf(h.oldCount) && sc.newLine == h.newStart + CountOf(h.newCount)
  {
    HeaderReads(h);
    RowsOfSides(h.rows);
    RunPastRows(before, HeaderOf(h), h.rows);
  }

  lemma LinesSnoc(hs: seq<Hunk>, h: Hunk)
    ensures Lines(hs + [h]) == Lines(hs) + ([HeaderOf(h)] + h.rows)
  {
    assert (hs + [h])[..|hs|] == hs;
  }

  /** Where the scan stands after some hunks is where the ranges of the last one end. */
  lemma RunPastLast(hs: seq<Hunk>)
    requires WellFormed(hs)
    ensures var sc, last := Run(Lines(hs)), hs[|hs| - 1];
            sc.oldLine == last.oldStart + CountOf(last.oldCount) && sc.newLine == last.newStart + CountOf(last.newCount)
  {
    RunPastHunk(Lines(hs[..|hs| - 1]), hs[|hs| - 1]);
  }

  lemma LastMovesForward(front: seq<Hunk>, h: Hunk)
    requires WellFormed(front + [h])
    ensures IsHeader(HeaderOf(h)) && MovesForward(Run(Lines(front)), HeaderOf(h))
  {
    assert (front + [h])[|front|] == h;
    HeaderReads(h);
    if front == [] {
      assert Lines(front) == [];
    } else {
      FrontWellFormed(front, h);
      RunPastLast(front);
      assert (front + [h])[|front| - 1] == front[|front| - 1];
    }
  }

  lemma FrontWellFormed(front: seq<Hunk>, h: Hunk)
    requires WellFormed(front + [h]) && front != []
    ensures WellFormed(front)
  {
    forall k | 0 <= k < |front| ensures front[k] == (front + [h])[k] { }
  }

  lemma {:induction false} LinesForward(hs: seq<Hunk>)
    requires WellFormed(hs)
    ensures Forward(Lines(hs))
  {
    var front, h := hs[..|hs| - 1], hs[|hs| - 1];
    assert hs == front + [h];
    LinesSnoc(front, h);
    LastMovesForward(front, h);
    if front == [] {
      assert Lines(front) == [];
    } else {
      FrontWellFormed(front, h);
      LinesForward(front);
    }
    RowsForward(Lines(front), HeaderOf(h), h.rows);
  }

  lemma HeaderIsLine(h: Hunk)
    requires Counted(h)
    ensures '\n' !in HeaderOf(h)
  {
    RangeIsLine(h.oldStart, h.oldCount);
    RangeIsLine(h.newStart, h.newCount);
  }

  lemma RangeIsLine(start: nat, count: Option<nat>)
    ensures '\n' !in PrintRange(start, count)
  {
  }

  lemma {:induction false} LinesAreLines(hs: seq<Hunk>)
    requires forall k :: 0 <= k < |hs| ==> Counted(hs[k])
    ensures NoneContain(Lines(hs), '\n')
  {
    if hs != [] {
      LinesAreLines(hs[..|hs| - 1]);
      HeaderIsLine(hs[|hs| - 1]);
    }
  }

  lemma PatchSplits(hs: seq<Hunk>)
    requires WellFormed(hs)
    ensures Lines(hs) != [] && Split(PatchText(hs), '\n') == Lines(hs)
  {
    LinesAreLines(hs);
    SplitOfJoin(Lines(hs), '\n');
  }

  /** Every printed patch moves forward. */
  lemma PrintedMovesForward(hs: seq<Hunk>)
    requires WellFormed(hs)
    ensures Forward(Split(PatchText(hs), '\n'))
  {
    PatchSplits(hs);
    LinesForward(hs);
  }

  // ---- Where the rows stand ----

  lemma {:induction false} LinesPrefix(hs: seq<Hunk>, k: nat)
    requires k <= |hs|
    ensures Lines(hs[..k]) <= Lines(hs)
  {
    if k < |hs| {
      var front := hs[..|hs| - 1];
      LinesPrefix(front, k);
      assert front[..k] == hs[..k];
    } else {
      assert hs[..k] == hs;
    }
  }

  /** The header of the k-th hunk comes after the lines of those before it, and its rows follow. */
  lemma HunkStands(hs: seq<Hunk>, k: nat)
    requires k < |hs|
    ensures var at := |Lines(hs[..k])|;
            && at + |hs[k].rows| < |Lines(hs)| && Lines(hs)[at] == HeaderOf(hs[k])
            && Lines(hs)[at + 1..at + 1 + |hs[k].rows|] == hs[k].rows
  {
    LinesPrefix(hs, k + 1);
    assert hs[..k + 1][..k] == hs[..k];
    var at, upTo := |Lines(hs[..k])|, Lines(hs[..k + 1]);
    assert upTo == Lines(hs[..k]) + ([HeaderOf(hs[k])] + hs[k].rows);
    assert upTo == Lines(hs)[..|upTo|];
  }

  /** The line a hunk starts with reads as its header. */
  ghost predicate Heads(line: string, h: Hunk) { IsHeader(line) && HunkHeader(line) == (h.oldStart, h.newStart) }

  lemma HunkHeads(hs: seq<Hunk>, k: nat)
    requires WellFormed(hs) && k < |hs|
    ensures var at := |Lines(hs[..k])|; at < |Lines(hs)| && Heads(Lines(hs)[at], hs[k])
  {
    HunkStands(hs, k);
    HeaderReads(hs[k]);
  }

  /** The position of the j-th row of the k-th hunk. */
  function PositionOf(hs: seq<Hunk>, k: nat, j: nat): nat
    requires k < |hs|
  {
    |Lines(hs[..k])| + 1 + j
  }

  lemma HunkRowStands(hs: seq<Hunk>, k: nat, j: nat)
    requires k < |hs| && j < |hs[k].rows| && NoHeader(hs[k].rows)
    ensures RowStands(Lines(hs), |Lines(hs[..k])|, PositionOf(hs, k, j), hs[k].rows[..j], hs[k].rows[j])
  {
    HunkStands(hs, k);
    SliceOfRows(Lines(hs), |Lines(hs[..k])|, hs[k].rows, j);
  }

  lemma SliceOfRows(lines: seq<string>, at: nat, rows: seq<string>, j: nat)
    requires at + |rows| < |lines| && lines[at + 1..at + 1 + |rows|] == rows && j < |rows| && NoHeader(rows)
    ensures RowStands(lines, at, at + 1 + j, rows[..j], rows[j])
  {
    assert rows[..j] == lines[at + 1..at + 1 + |rows|][..j];
    forall k | at < k <= at + 1 + j ensures lines[k] == rows[k - at - 1] {
      assert lines[at + 1..at + 1 + |rows|][k - at - 1] == lines[k];
    }
  }

  lemma FirstIsHeader(hs: seq<Hunk>)
    requires WellFormed(hs)
    ensures |Lines(hs)| > 0 && IsHeader(Lines(hs)[0])
  {
    HunkHeads(hs, 0);
    assert Lines(hs[..0]) == [];
  }

  /** The lines a row stands for: its hunk's starts plus the rows of that side above it. */
  function OldLineOf(h: Hunk, j: nat): nat requires j < |h.rows| { h.oldStart + OldRows(h.rows[..j]) }

  function NewLineOf(h: Hunk, j: nat): nat requires j < |h.rows| { h.newStart + NewRows(h.rows[..j]) }

  /** The entry of a row at position `p`, below `rows` of a hunk that starts at `o` and `n`. */
  function EntryOf(p: nat, o: int, n: int, rows: seq<string>, row: string): DiffLine {
    var kind := KindOf(row);
    DiffLine(p, if OnLeft(kind) then o + CountSide(rows, Left) else 0, if OnRight(kind) then n + CountSide(rows, Right) else 0, kind)
  }

  lemma RowAt(lines: seq<string>, at: nat, i: nat, rows: seq<string>, row: string)
    requires RowStands(lines, at, i, rows, row) && IsHeader(lines[0]) && IsHeader(lines[at])
    ensures var (o, n), ix := HunkHeader(lines[at]), Run(lines).index; i in ix.byPos && ix.byPos[i] == EntryOf(i, o, n, rows, row)
  {
    RowAnchor(lines, at, i, rows, row);
  }

  /** The j-th row of the k-th hunk is indexed under its place in the patch. */
  lemma RowIsIndexed(hs: seq<Hunk>, k: nat, j: nat)
    requires WellFormed(hs) && k < |hs| && j < |hs[k].rows|
    ensures var p, h, ix := PositionOf(hs, k, j), hs[k], Run(Lines(hs)).index;
            p in ix.byPos && ix.byPos[p] == EntryOf(p, h.oldStart, h.newStart, h.rows[..j], h.rows[j])
  {
    FirstIsHeader(hs);
    HunkHeads(hs, k);
    assert Counted(hs[k]);
    HunkRowStands(hs, k, j);
    RowAt(Lines(hs), |Lines(hs[..k])|, PositionOf(hs, k, j), hs[k].rows[..j], hs[k].rows[j]);
  }

  /** The anchors of the j-th row of a hunk, at position `p`. */
  ghost predicate Anchored(ix: Index, h: Hunk, j: nat, p: nat)
    requires j < |h.rows|
  {
    var row, o, n := h.rows[j], OldLineOf(h, j), NewLineOf(h, j);
    && (NewSide(row) ==> ix.LineFor(p) == Some((n, Right)) && ix.PositionFor(n, Right) == Some(p) && ix.Contains(n, Right))
    && (row != "" && row[0] == '-' ==> ix.LineFor(p) == Some((o, Left)))
    && (OldSide(row) ==> ix.PositionFor(o, Left) == Some(p) && ix.Contains(o, Left))
    && (row != "" && row[0] == '\\' ==> ix.LineFor(p).None?)
  }

  /** What an indexed row answers, and who answers with it. */
  lemma IndexedIsAnchored(sc: Scan, h: Hunk, j: nat, p: nat)
    requires Indexed(sc) && j < |h.rows| && p in sc.index.byPos
    requires sc.index.byPos[p] == EntryOf(p, h.oldStart, h.newStart, h.rows[..j], h.rows[j])
    ensures Anchored(sc.index, h, j, p)
  {
    RowsOfSides(h.rows[..j]);
  }

  lemma PrintedIsIndexed(hs: seq<Hunk>)
    requires WellFormed(hs)
    ensures Indexed(Run(Lines(hs)))
  {
    LinesForward(hs);
    RunIndexed(Lines(hs));
  }

  /** Review anchors on a printed patch, complete: an added or context row and its head line lead to each
      other on the RIGHT, a deleted row and its base line on the LEFT, a context row is also where its
      base line is found, and a "\" row anchors nothing. */
  lemma PrintedRowAnchors(hs: seq<Hunk>, k: nat, j: nat)
    requires WellFormed(hs) && k < |hs| && j < |hs[k].rows|
    ensures Anchored(Parse(PatchText(hs)), hs[k], j, PositionOf(hs, k, j))
  {
    PatchSplits(hs);
    PrintedIsIndexed(hs);
    RowIsIndexed(hs, k, j);
    IndexedIsAnchored(Run(Lines(hs)), hs[k], j, PositionOf(hs, k, j));
  }
}
