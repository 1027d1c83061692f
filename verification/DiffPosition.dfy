/** Review anchors of domain/diff_position.go: one file's patch indexed by position and by
    line on either side. `Step` and `Scan` specify the loop that fills the index. */
module DiffPosition {
  import opened Strings
  import opened Decimal

  datatype Side = Left | Right

  /** One counted line: its position, its line number on each side (0 where absent), its kind. */
  datatype DiffLine = DiffLine(position: nat, oldLine: int, newLine: int, kind: char)

  /** The three lookup tables of a parsed patch, and its counted lines in order. */
  datatype Index = Index(
    lines: seq<DiffLine>,
    rightByLn: map<int, nat>,
    leftByLn: map<int, nat>,
    byPos: map<nat, DiffLine>)
  {
    /** positionFor: the position of a file line on a side. */
    function PositionFor(line: int, side: Side): Option<nat> {
      var table := if side.Left? then leftByLn else rightByLn;
      if line in table then Some(table[line]) else None
    }

    /** lineFor: the line and side a position anchors to. */
    function LineFor(position: nat): Option<(int, Side)> {
      if position !in byPos || byPos[position].kind == '\\' then None
      else
        var dl := byPos[position];
        if dl.kind == '-' then Some((dl.oldLine, Left)) else Some((dl.newLine, Right))
    }

    predicate Contains(line: int, side: Side) { PositionFor(line, side).Some? }
  }

  const EmptyIndex := Index([], map[], map[], map[])

  // ---- Hunk headers ----

  /** unicode.IsSpace. */
  predicate IsSpace(c: char) {
    var n := c as int;
    9 <= n <= 13 || n == 32 || n == 0x85 || n == 0xA0 || n == 0x1680 || 0x2000 <= n <= 0x200A
    || n == 0x2028 || n == 0x2029 || n == 0x202F || n == 0x205F || n == 0x3000
  }

  /** strings.Fields. */
  function Fields(s: string): seq<string> { FieldsFunc(s, IsSpace) }

  /** leadingInt: the start of a "start,len" or "start" field; 0 when it is not a number. */
  function LeadingInt(s: string): int {
    match ParseInt(s[..IndexOf(s, ',')])
    case Some(n) => n
    case None => 0
  }

  function HunkStarts(fields: seq<string>): (int, int) {
    if fields == [] then (0, 0)
    else
      var (o, n) := HunkStarts(fields[..|fields| - 1]);
      var f := fields[|fields| - 1];
      if "-" <= f then (LeadingInt(f[1..]), n)
      else if "+" <= f then (o, LeadingInt(f[1..]))
      else (o, n)
  }

  /** The text between the two @@ markers. */
  function HunkRange(h: string): string {
    var rest := TrimPrefix(h, "@@");
    match CutString(rest, "@@") case Some((before, _)) => before case None => rest
  }

  /** parseHunkHeader: the base and head starting line numbers. */
  function HunkHeader(h: string): (int, int) { HunkStarts(Fields(HunkRange(h))) }

  method ParseHunkHeader(h: string) returns (oldStart: int, newStart: int)
    ensures (oldStart, newStart) == HunkHeader(h)
  {
    oldStart, newStart := 0, 0;
    var fields := Fields(HunkRange(h));
    for i := 0 to |fields|
      invariant (oldStart, newStart) == HunkStarts(fields[..i])
    {
      assert fields[..i + 1][..i] == fields[..i];
      var f := fields[i];
      if "-" <= f {
        oldStart := LeadingInt(f[1..]);
      } else if "+" <= f {
        newStart := LeadingInt(f[1..]);
      }
    }
    assert fields[..|fields|] == fields;
  }

  // ---- The scan ----

  /** The loop's variables. */
  datatype Scan = Scan(index: Index, position: nat, oldLine: int, newLine: int, seenHunk: bool)

  const Start := Scan(EmptyIndex, 0, 0, 0, false)

  predicate IsHeader(ln: string) { "@@" <= ln }

  function KindOf(ln: string): char {
    if ln != "" && (ln[0] == '+' || ln[0] == '-' || ln[0] == '\\') then ln[0] else ' '
  }

  predicate OnRight(kind: char) { kind == '+' || kind == ' ' }

  predicate OnLeft(kind: char) { kind == '-' || kind == ' ' }

  /** The counted line a row becomes, when the scan stands before it. */
  function RowOf(sc: Scan, ln: string): DiffLine {
    var kind := KindOf(ln);
    DiffLine(sc.position + 1, if OnLeft(kind) then sc.oldLine else 0, if OnRight(kind) then sc.newLine else 0, kind)
  }

  function AddRow(ix: Index, dl: DiffLine): Index {
    Index(ix.lines + [dl],
          if OnRight(dl.kind) then ix.rightByLn[dl.newLine := dl.position] else ix.rightByLn,
          if OnLeft(dl.kind) then ix.leftByLn[dl.oldLine := dl.position] else ix.leftByLn,
          ix.byPos[dl.position := dl])
  }

  function Step(sc: Scan, ln: string): Scan {
    if IsHeader(ln) then
      var (oldStart, newStart) := HunkHeader(ln);
      Scan(sc.index, if sc.seenHunk then sc.position + 1 else sc.position, oldStart, newStart, true)
    else if !sc.seenHunk then sc
    else
      var dl := RowOf(sc, ln);
      Scan(AddRow(sc.index, dl), sc.position + 1,
           if OnLeft(dl.kind) then sc.oldLine + 1 else sc.oldLine,
           if OnRight(dl.kind) then sc.newLine + 1 else sc.newLine, true)
  }

  function Run(lines: seq<string>): Scan {
    if lines == [] then Start else Step(Run(lines[..|lines| - 1]), lines[|lines| - 1])
  }

  lemma PrefixStep(lines: seq<string>, i: nat)
    requires i < |lines|
    ensures Run(lines[..i + 1]) == Step(Run(lines[..i]), lines[i])
  {
    assert lines[..i + 1][..i] == lines[..i];
  }

  function Parse(patch: string): Index { Run(Split(patch, '\n')).index }

  /** The parsed patch as the object the code builds and mutates. */
  class FileDiff {
    var lines: seq<DiffLine>
    var rightByLn: map<int, nat>
    var leftByLn: map<int, nat>
    var byPos: map<nat, DiffLine>

    function View(): Index
      reads this
    {
      Index(lines, rightByLn, leftByLn, byPos)
    }

    constructor ()
      ensures View() == EmptyIndex
    {
      lines, rightByLn, leftByLn, byPos := [], map[], map[], map[];
    }

    method Add(dl: DiffLine)
      modifies this
      ensures lines == old(lines) + [dl] && byPos == old(byPos)[dl.position := dl]
      ensures rightByLn == old(rightByLn) && leftByLn == old(leftByLn)
    {
      lines := lines + [dl];
      byPos := byPos[dl.position := dl];
    }
  }

  /** The switch on a row's kind: the row is added, its line numbers recorded and advanced. */
  method CountRow(d: FileDiff, position: nat, oldLine: int, newLine: int, ln: string)
      returns (oldNext: int, newNext: int)
    requires position > 0
    modifies d
    ensures d.View() == AddRow(old(d.View()), RowOf(Scan(old(d.View()), position - 1, oldLine, newLine, true), ln))
    ensures oldNext == if OnLeft(KindOf(ln)) then oldLine + 1 else oldLine
    ensures newNext == if OnRight(KindOf(ln)) then newLine + 1 else newLine
  {
    oldNext, newNext := oldLine, newLine;
    var kind := if ln != "" then ln[0] else ' ';
    if kind == '+' {
      d.Add(DiffLine(position, 0, newLine, '+'));
      d.rightByLn := d.rightByLn[newLine := position];
      newNext := newLine + 1;
    } else if kind == '-' {
      d.Add(DiffLine(position, oldLine, 0, '-'));
      d.leftByLn := d.leftByLn[oldLine := position];
      oldNext := oldLine + 1;
    } else if kind == '\\' {
      d.Add(DiffLine(position, 0, 0, '\\'));
    } else {
      d.Add(DiffLine(position, oldLine, newLine, ' '));
      d.rightByLn := d.rightByLn[newLine := position];
      d.leftByLn := d.leftByLn[oldLine := position];
      oldNext, newNext := oldLine + 1, newLine + 1;
    }
  }

  method ParseFileDiff(patch: string) returns (d: FileDiff)
    ensures fresh(d) && d.View() == Parse(patch)
  {
    d := new FileDiff();
    var position: nat, oldLine, newLine, seenHunk := 0, 0, 0, false;
    var lines := Split(patch, '\n');
    ghost var sc := Start;
    for i := 0 to |lines|
      invariant fresh(d)
      invariant sc == Run(lines[..i]) && sc == Scan(d.View(), position, oldLine, newLine, seenHunk)
    {
      PrefixStep(lines, i);
      sc := Step(sc, lines[i]);
      var ln := lines[i];
      if IsHeader(ln) {
        if seenHunk {
          position := position + 1;
        }
        oldLine, newLine := ParseHunkHeader(ln);
        seenHunk := true;
      } else if seenHunk {
        position := position + 1;
        oldLine, newLine := CountRow(d, position, oldLine, newLine, ln);
      }
    }
    assert lines[..|lines|] == lines;
  }
}
