/** Position and line lookups of a parsed patch are inverse to each other, and each row's
    anchor is the one the unified-diff format defines. */
module DiffAnchors {
  import opened Strings
  import opened Decimal
  import opened DiffPosition

  /** Every later hunk starts at or after the lines already passed, on both sides. */
  predicate Forward(lines: seq<string>) {
    forall i :: 0 <= i < |lines| && IsHeader(lines[i]) ==> MovesForward(Run(lines[..i]), lines[i])
  }

  predicate MovesForward(sc: Scan, header: string) {
    var (o, n) := HunkHeader(header);
    sc.seenHunk ==> sc.oldLine <= o && sc.newLine <= n
  }

  /** Positions index their own lines, and none is past `top`. */
  ghost predicate PositionsOk(ix: Index, top: nat) {
    forall p :: p in ix.byPos ==> 1 <= p <= top && ix.byPos[p].position == p
  }

  /** The RIGHT table and the added and context lines name each other; no line reaches `bound`. */
  ghost predicate RightOk(ix: Index, bound: int) {
    && (forall l :: l in ix.rightByLn ==> l < bound && ix.rightByLn[l] in ix.byPos)
    && (forall l :: l in ix.rightByLn ==>
          OnRight(ix.byPos[ix.rightByLn[l]].kind) && ix.byPos[ix.rightByLn[l]].newLine == l)
    && (forall p :: p in ix.byPos && OnRight(ix.byPos[p].kind) ==>
          ix.byPos[p].newLine in ix.rightByLn && ix.rightByLn[ix.byPos[p].newLine] == p)
  }

  /** The LEFT table and the deleted and context lines name each other; no line reaches `bound`. */
  ghost predicate LeftOk(ix: Index, bound: int) {
    && (forall l :: l in ix.leftByLn ==> l < bound && ix.leftByLn[l] in ix.byPos)
    && (forall l :: l in ix.leftByLn ==>
          OnLeft(ix.byPos[ix.leftByLn[l]].kind) && ix.byPos[ix.leftByLn[l]].oldLine == l)
    && (forall p :: p in ix.byPos && OnLeft(ix.byPos[p].kind) ==>
          ix.byPos[p].oldLine in ix.leftByLn && ix.leftByLn[ix.byPos[p].oldLine] == p)
  }

  /** The counted lines, in order, are the indexed ones; positions strictly increase. */
  ghost predicate LinesOk(ix: Index, top: nat) {
    && (forall i, j :: 0 <= i < j < |ix.lines| ==> ix.lines[i].position < ix.lines[j].position)
    && (forall i :: 0 <= i < |ix.lines| ==> ix.lines[i].position <= top)
    && (forall dl :: dl in ix.lines <==> dl.position in ix.byPos && ix.byPos[dl.position] == dl)
  }

  ghost predicate Indexed(sc: Scan) {
    && (!sc.seenHunk ==> sc.index == EmptyIndex && sc.position == 0)
    && PositionsOk(sc.index, sc.position) && LinesOk(sc.index, sc.position)
    && RightOk(sc.index, sc.newLine) && LeftOk(sc.index, sc.oldLine)
  }

  lemma AddLines(ix: Index, top: nat, dl: DiffLine)
    requires PositionsOk(ix, top) && LinesOk(ix, top) && dl.position == top + 1
    ensures LinesOk(AddRow(ix, dl), top + 1)
  {
    var ix' := AddRow(ix, dl);
    assert ix'.lines[|ix.lines|] == dl;
    forall x ensures x in ix'.lines <==> x.position in ix'.byPos && ix'.byPos[x.position] == x {
      assert x in ix'.lines <==> x in ix.lines || x == dl;
    }
  }

  lemma AddRight(ix: Index, top: nat, dl: DiffLine, bound: int)
    requires PositionsOk(ix, top) && RightOk(ix, bound) && dl.position == top + 1
    requires OnRight(dl.kind) ==> dl.newLine == bound
    ensures RightOk(AddRow(ix, dl), if OnRight(dl.kind) then bound + 1 else bound)
  {
  }

  lemma AddLeft(ix: Index, top: nat, dl: DiffLine, bound: int)
    requires PositionsOk(ix, top) && LeftOk(ix, bound) && dl.position == top + 1
    requires OnLeft(dl.kind) ==> dl.oldLine == bound
    ensures LeftOk(AddRow(ix, dl), if OnLeft(dl.kind) then bound + 1 else bound)
  {
  }

  lemma StepIndexed(sc: Scan, ln: string)
    requires Indexed(sc) && (IsHeader(ln) ==> MovesForward(sc, ln))
    ensures Indexed(Step(sc, ln))
  {
    if !IsHeader(ln) && sc.seenHunk {
      var dl := RowOf(sc, ln);
      AddLines(sc.index, sc.position, dl);
      AddRight(sc.index, sc.position, dl, sc.newLine);
      AddLeft(sc.index, sc.position, dl, sc.oldLine);
    }
  }

  lemma {:induction false} RunIndexed(lines: seq<string>)
    requires Forward(lines)
    ensures Indexed(Run(lines))
  {
    if lines != [] {
      var front := lines[..|lines| - 1];
      assert Forward(front) by {
        forall i | 0 <= i < |front| && IsHeader(front[i]) ensures MovesForward(Run(front[..i]), front[i]) {
          assert front[..i] == lines[..i];
          assert IsHeader(lines[i]);
        }
      }
      RunIndexed(front);
      StepIndexed(Run(front), lines[|lines| - 1]);
    }
  }

  // ---- The two directions agree ----

  /** Every anchored position comes back from its own line and side. */
  lemma LineThenPosition(patch: string, p: nat)
    requires Forward(Split(patch, '\n')) && Parse(patch).LineFor(p).Some?
    ensures var (line, side) := Parse(patch).LineFor(p).value;
            Parse(patch).PositionFor(line, side) == Some(p)
  {
    RunIndexed(Split(patch, '\n'));
    RunKinds(Split(patch, '\n'));
  }

  /** A RIGHT anchor comes back from its own position. */
  lemma RightThenLine(patch: string, line: int)
    requires Forward(Split(patch, '\n')) && Parse(patch).Contains(line, Right)
    ensures Parse(patch).LineFor(Parse(patch).PositionFor(line, Right).value) == Some((line, Right))
  {
    RunIndexed(Split(patch, '\n'));
  }

  /** A LEFT anchor lands on the row that holds the base line: a deletion answers with the same
      anchor, a context row with its head line. */
  lemma LeftThenLine(patch: string, line: int)
    requires Forward(Split(patch, '\n')) && Parse(patch).Contains(line, Left)
    ensures var ix := Parse(patch);
            var p := ix.PositionFor(line, Left).value;
            && p in ix.byPos && ix.byPos[p].oldLine == line
            && (ix.byPos[p].kind == '-' ==> ix.LineFor(p) == Some((line, Left)))
            && (ix.byPos[p].kind == ' ' ==> ix.LineFor(p) == Some((ix.byPos[p].newLine, Right)))
            && (ix.byPos[p].kind == '-' || ix.byPos[p].kind == ' ')
  {
    RunIndexed(Split(patch, '\n'));
  }

  predicate IsKind(c: char) { c == '+' || c == '-' || c == ' ' || c == '\\' }

  /** Only the four kinds are ever indexed. */
  lemma {:induction false} RunKinds(lines: seq<string>)
    ensures forall p :: p in Run(lines).index.byPos ==> IsKind(Run(lines).index.byPos[p].kind)
  {
    if lines != [] {
      RunKinds(lines[..|lines| - 1]);
    }
  }

  // ---- What holds of every patch, forward or not ----

  /** The latest row wins: the RIGHT table holds the last position that carries the line. */
  ghost predicate RightLast(ix: Index) {
    && (forall l :: l in ix.rightByLn ==> Carries(ix, ix.rightByLn[l], l, Right))
    && (forall p :: p in ix.byPos && OnRight(ix.byPos[p].kind) ==>
          ix.byPos[p].newLine in ix.rightByLn && p <= ix.rightByLn[ix.byPos[p].newLine])
  }

  /** The latest row wins on the LEFT too. */
  ghost predicate LeftLast(ix: Index) {
    && (forall l :: l in ix.leftByLn ==> Carries(ix, ix.leftByLn[l], l, Left))
    && (forall p :: p in ix.byPos && OnLeft(ix.byPos[p].kind) ==>
          ix.byPos[p].oldLine in ix.leftByLn && p <= ix.leftByLn[ix.byPos[p].oldLine])
  }

  lemma AddRightLast(ix: Index, top: nat, dl: DiffLine)
    requires PositionsOk(ix, top) && RightLast(ix) && dl.position == top + 1
    ensures RightLast(AddRow(ix, dl))
  {
    var ix' := AddRow(ix, dl);
    forall l | l in ix'.rightByLn ensures Carries(ix', ix'.rightByLn[l], l, Right) {
      assert l in ix.rightByLn ==> Carries(ix, ix.rightByLn[l], l, Right);
    }
  }

  lemma AddLeftLast(ix: Index, top: nat, dl: DiffLine)
    requires PositionsOk(ix, top) && LeftLast(ix) && dl.position == top + 1
    ensures LeftLast(AddRow(ix, dl))
  {
    var ix' := AddRow(ix, dl);
    forall l | l in ix'.leftByLn ensures Carries(ix', ix'.leftByLn[l], l, Left) {
      assert l in ix.leftByLn ==> Carries(ix, ix.leftByLn[l], l, Left);
    }
  }

  ghost predicate Ordered(sc: Scan) {
    && PositionsOk(sc.index, sc.position) && LinesOk(sc.index, sc.position)
    && RightLast(sc.index) && LeftLast(sc.index)
  }

  lemma StepOrdered(sc: Scan, ln: string)
    requires Ordered(sc)
    ensures Ordered(Step(sc, ln))
  {
    if !IsHeader(ln) && sc.seenHunk {
      var dl := RowOf(sc, ln);
      AddLines(sc.index, sc.position, dl);
      AddRightLast(sc.index, sc.position, dl);
      AddLeftLast(sc.index, sc.position, dl);
    }
  }

  lemma {:induction false} RunOrdered(lines: seq<string>)
    ensures Ordered(Run(lines))
  {
    if lines != [] {
      RunOrdered(lines[..|lines| - 1]);
      StepOrdered(Run(lines[..|lines| - 1]), lines[|lines| - 1]);
    }
  }

  /** Row `q` carries line `line` on `side`. */
  predicate Carries(ix: Index, q: nat, line: int, side: Side) {
    && q in ix.byPos
    && if side.Left? then OnLeft(ix.byPos[q].kind) && ix.byPos[q].oldLine == line
       else OnRight(ix.byPos[q].kind) && ix.byPos[q].newLine == line
  }

  lemma RoundTripIndex(ix: Index, p: nat)
    requires RightLast(ix) && LeftLast(ix) && ix.LineFor(p).Some?
    requires ix.byPos[p].kind == '-' || OnRight(ix.byPos[p].kind)
    ensures var (line, side) := ix.LineFor(p).value;
            ix.PositionFor(line, side) == Some(p) <==> (forall q :: q > p ==> !Carries(ix, q, line, side))
  {
    var (line, side) := ix.LineFor(p).value;
    assert Carries(ix, p, line, side);
    var last := if side.Left? then ix.leftByLn[line] else ix.rightByLn[line];
    assert Carries(ix, last, line, side) && p <= last;
  }

  /** A line of a side is in the patch exactly when some row carries it. */
  lemma ContainsExactly(patch: string, ix: Index, line: int, side: Side)
    requires ix == Parse(patch)
    ensures ix.Contains(line, side) <==> exists p :: Carries(ix, p, line, side)
  {
    RunOrdered(Split(patch, '\n'));
    if ix.Contains(line, side) {
      assert Carries(ix, ix.PositionFor(line, side).value, line, side);
    }
  }

  /** Of any patch at all, a position survives the round trip exactly when no later row
      carries its line on its side. */
  lemma RoundTripExactly(patch: string, ix: Index, p: nat)
    requires ix == Parse(patch) && ix.LineFor(p).Some?
    ensures var (line, side) := ix.LineFor(p).value;
            ix.PositionFor(line, side) == Some(p) <==> (forall q :: q > p ==> !Carries(ix, q, line, side))
  {
    var lines := Split(patch, '\n');
    RunOrdered(lines);
    RunKinds(lines);
    assert IsKind(ix.byPos[p].kind);
    RoundTripIndex(ix, p);
  }

  /** Positions strictly increase over the counted lines, across hunks. */
  lemma PositionsIncrease(patch: string, i: nat, j: nat)
    requires i < j < |Parse(patch).lines|
    ensures Parse(patch).lines[i].position < Parse(patch).lines[j].position
  {
    RunOrdered(Split(patch, '\n'));
  }

  // ---- The anchors the diff format defines ----

  function CountSide(rows: seq<string>, side: Side): nat {
    if rows == [] then 0
    else
      var kind := KindOf(rows[|rows| - 1]);
      CountSide(rows[..|rows| - 1], side) + if (if side.Left? then OnLeft(kind) else OnRight(kind)) then 1 else 0
  }

  predicate NoHeader(rows: seq<string>) { forall i :: 0 <= i < |rows| ==> !IsHeader(rows[i]) }

  /** A patch that opens with a hunk header counts every later line, headers included. */
  lemma {:induction false} PositionIsLineIndex(lines: seq<string>, i: nat)
    requires 0 < i <= |lines| && IsHeader(lines[0])
    ensures Run(lines[..i]).seenHunk && Run(lines[..i]).position == i - 1
  {
    PrefixStep(lines, i - 1);
    if i > 1 {
      PositionIsLineIndex(lines, i - 1);
    } else {
      assert lines[..0] == [];
    }
  }

  lemma StepCounts(sc: Scan, row: string)
    requires sc.seenHunk && !IsHeader(row)
    ensures var sc' := Step(sc, row);
            && sc'.seenHunk
            && sc'.oldLine == sc.oldLine + CountSide([row], Left)
            && sc'.newLine == sc.newLine + CountSide([row], Right)
  {
    assert [row][..0] == [];
  }

  lemma CountSnoc(rows: seq<string>, row: string, side: Side)
    ensures CountSide(rows + [row], side) == CountSide(rows, side) + CountSide([row], side)
  {
    assert (rows + [row])[..|rows|] == rows;
    assert [row][..0] == [];
  }

  /** The scan has passed `rows` since a header. */
  ghost predicate Passed(sc: Scan, header: string, rows: seq<string>) {
    && sc.seenHunk
    && sc.oldLine == HunkHeader(header).0 + CountSide(rows, Left)
    && sc.newLine == HunkHeader(header).1 + CountSide(rows, Right)
  }

  lemma PassHeader(sc: Scan, header: string)
    requires IsHeader(header)
    ensures Passed(Step(sc, header), header, [])
  {
  }

  lemma PassOne(sc: Scan, header: string, rows: seq<string>, row: string, sc': Scan, rows': seq<string>)
    requires Passed(sc, header, rows) && !IsHeader(row) && sc' == Step(sc, row) && rows' == rows + [row]
    ensures Passed(sc', header, rows')
  {
    StepCounts(sc, row);
    CountSnoc(rows, row, Left);
    CountSnoc(rows, row, Right);
  }

  lemma SliceSnoc<T>(s: seq<T>, a: nat, b: nat)
    requires a <= b < |s|
    ensures s[a..b + 1] == s[a..b] + [s[b]]
  {
  }

  lemma PassRow(lines: seq<string>, at: nat, i: nat)
    requires at < i < |lines| && Passed(Run(lines[..i]), lines[at], lines[at + 1..i]) && !IsHeader(lines[i])
    ensures Passed(Run(lines[..i + 1]), lines[at], lines[at + 1..i + 1])
  {
    PrefixStep(lines, i);
    SliceSnoc(lines, at + 1, i);
    PassOne(Run(lines[..i]), lines[at], lines[at + 1..i], lines[i], Run(lines[..i + 1]), lines[at + 1..i + 1]);
  }

  lemma PassFirst(lines: seq<string>, at: nat)
    requires at < |lines| && IsHeader(lines[at])
    ensures Passed(Run(lines[..at + 1]), lines[at], lines[at + 1..at + 1])
  {
    PrefixStep(lines, at);
    PassHeader(Run(lines[..at]), lines[at]);
    assert lines[at + 1..at + 1] == [];
  }

  /** Inside a hunk the scan stands at the header's starts plus the rows passed on each side. */
  lemma {:induction false} ScanInHunk(lines: seq<string>, at: nat, i: nat)
    requires at < i <= |lines| && IsHeader(lines[at]) && forall k :: at < k < i ==> !IsHeader(lines[k])
    ensures Passed(Run(lines[..i]), lines[at], lines[at + 1..i])
  {
    var j := i - 1;
    if at == j {
      PassFirst(lines, at);
    } else {
      ScanInHunk(lines, at, j);
      PassRow(lines, at, j);
    }
  }

  /** A row indexed by a prefix of the patch stays as it is. */
  lemma {:induction false} RowStays(lines: seq<string>, i: nat, p: nat)
    requires i <= |lines| && p in Run(lines[..i]).index.byPos
    ensures p in Run(lines).index.byPos && Run(lines).index.byPos[p] == Run(lines[..i]).index.byPos[p]
  {
    if i == |lines| {
      assert lines[..i] == lines;
    } else {
      var front := lines[..|lines| - 1];
      assert front[..i] == lines[..i];
      RowStays(front, i, p);
      RunOrdered(front);
    }
  }

  lemma StepIndexesRow(sc: Scan, row: string)
    requires sc.seenHunk && !IsHeader(row)
    ensures var p := sc.position + 1;
            p in Step(sc, row).index.byPos && Step(sc, row).index.byPos[p] == RowOf(sc, row)
  {
  }

  /** The line a row at index `i` stands for: on each side it occupies, the start its hunk header
      names plus the rows of that side between them. */
  function AnchorOf(i: nat, header: string, rows: seq<string>, row: string): DiffLine {
    var kind := KindOf(row);
    DiffLine(i, if OnLeft(kind) then HunkHeader(header).0 + CountSide(rows, Left) else 0,
             if OnRight(kind) then HunkHeader(header).1 + CountSide(rows, Right) else 0, kind)
  }

  /** Line `i` is `row`, and between it and line `at` are `rows`, none of them a header. */
  ghost predicate RowStands(lines: seq<string>, at: nat, i: nat, rows: seq<string>, row: string) {
    at < i < |lines| && lines[at + 1..i] == rows && lines[i] == row && forall k :: at < k <= i ==> !IsHeader(lines[k])
  }

  /** In a patch that opens with a hunk header, the row at index `i` has position `i` and, on each side
      it occupies, the line number its hunk gives it. */
  lemma RowAnchor(lines: seq<string>, at: nat, i: nat, rows: seq<string>, row: string)
    requires RowStands(lines, at, i, rows, row) && IsHeader(lines[0]) && IsHeader(lines[at])
    ensures i in Run(lines).index.byPos && Run(lines).index.byPos[i] == AnchorOf(i, lines[at], rows, row)
  {
    PositionIsLineIndex(lines, i);
    ScanInHunk(lines, at, i);
    PrefixStep(lines, i);
    StepAnchors(Run(lines[..i]), i, lines[at], rows, row);
    RowStays(lines, i + 1, i);
  }

  lemma StepAnchors(sc: Scan, i: nat, header: string, rows: seq<string>, row: string)
    requires Passed(sc, header, rows) && !IsHeader(row) && sc.position == i - 1
    ensures var ix := Step(sc, row).index; i in ix.byPos && ix.byPos[i] == AnchorOf(i, header, rows, row)
  {
    StepIndexesRow(sc, row);
  }

  // ---- Hunk headers read back ----

  function PrintRange(start: nat, count: Option<nat>): string {
    FormatNat(start) + match count case None => "" case Some(n) => "," + FormatNat(n)
  }

  /** "@@ -o,c +n,d @@ heading"; a count of one line may be left out. */
  function PrintHeader(o: nat, oCount: Option<nat>, n: nat, nCount: Option<nat>, heading: string): string {
    "@@" + (" -" + PrintRange(o, oCount) + " +" + PrintRange(n, nCount) + " ") + "@@" + heading
  }

  lemma RangeIsWord(start: nat, count: Option<nat>)
    ensures IsWord(PrintRange(start, count), IsSpace) && '@' !in PrintRange(start, count)
  {
  }

  lemma RangeStart(start: nat, count: Option<nat>)
    requires start < 0x8000_0000_0000_0000
    ensures LeadingInt(PrintRange(start, count)) == start
  {
    var digits := FormatNat(start);
    var s := PrintRange(start, count);
    assert ',' !in digits;
    if count.Some? {
      assert s == digits + [','] + FormatNat(count.value);
      IndexOfFirst(digits, ',', FormatNat(count.value));
    } else {
      assert s == digits;
    }
    assert s[..|digits|] == digits;
    NatRoundTrip(start);
    ParseUnsigned(digits);
  }

  lemma FieldsAfterSpace(s: string)
    ensures Fields(" " + s) == Fields(s)
  {
    assert (" " + s)[1..] == s;
  }

  lemma FieldsOfLast(f: string)
    requires IsWord(f, IsSpace)
    ensures Fields(" " + (f + " ")) == [f]
  {
    FieldsAfterSpace("");
    assert " " + "" == " ";
    FieldsOfWord(f, " ", IsSpace);
    FieldsAfterSpace(f + " ");
  }

  lemma FieldsOfSpan(f0: string, f1: string)
    requires IsWord(f0, IsSpace) && IsWord(f1, IsSpace)
    ensures Fields(" " + f0 + " " + f1 + " ") == [f0, f1]
  {
    var t := " " + (f1 + " ");
    FieldsOfLast(f1);
    FieldsOfWord(f0, t, IsSpace);
    FieldsAfterSpace(f0 + t);
    assert " " + f0 + " " + f1 + " " == " " + (f0 + t);
  }

  lemma StartsOfFields(r0: string, r1: string)
    ensures HunkStarts(["-" + r0, "+" + r1]) == (LeadingInt(r0), LeadingInt(r1))
  {
    var f0, f1 := "-" + r0, "+" + r1;
    assert f0[1..] == r0 && f1[1..] == r1;
    assert "-" <= f0 && "+" <= f1 && f1[0] == '+';
    var empty: seq<string> := [];
    assert [f0][..0] == empty && HunkStarts(empty) == (0, 0);
    assert HunkStarts([f0]) == (LeadingInt(r0), 0);
    assert [f0, f1][..1] == [f0];
  }

  lemma RangeOfHeader(span: string, heading: string)
    requires '@' !in span
    ensures var h := "@@" + span + "@@" + heading; IsHeader(h) && HunkHeader(h) == HunkStarts(Fields(span))
  {
    var h := "@@" + span + "@@" + heading;
    assert h == "@@" + (span + "@@" + heading);
    CutStringAt(span, "@@", heading);
  }

  /** parseHunkHeader reads both starts of any printed header, counts and heading aside. */
  lemma HeaderRoundTrip(o: nat, oCount: Option<nat>, n: nat, nCount: Option<nat>, heading: string)
    requires o < 0x8000_0000_0000_0000 && n < 0x8000_0000_0000_0000
    ensures IsHeader(PrintHeader(o, oCount, n, nCount, heading))
    ensures HunkHeader(PrintHeader(o, oCount, n, nCount, heading)) == (o, n)
  {
    var r0, r1 := PrintRange(o, oCount), PrintRange(n, nCount);
    RangeIsWord(o, oCount);
    RangeIsWord(n, nCount);
    RangeStart(o, oCount);
    RangeStart(n, nCount);
    SpanOfRanges(r0, r1);
    SpanIsClean(r0, r1);
    RangeOfHeader(" -" + r0 + " +" + r1 + " ", heading);
  }

  lemma SpanIsClean(r0: string, r1: string)
    requires '@' !in r0 && '@' !in r1
    ensures '@' !in " -" + r0 + " +" + r1 + " "
  {
  }

  lemma SpanOfRanges(r0: string, r1: string)
    requires IsWord(r0, IsSpace) && IsWord(r1, IsSpace)
    ensures HunkStarts(Fields(" -" + r0 + " +" + r1 + " ")) == (LeadingInt(r0), LeadingInt(r1))
  {
    var f0, f1 := "-" + r0, "+" + r1;
    FieldsOfSpan(f0, f1);
    assert " " + f0 + " " + f1 + " " == " -" + r0 + " +" + r1 + " ";
    StartsOfFields(r0, r1);
  }
}
