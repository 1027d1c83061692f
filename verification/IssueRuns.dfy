/** Every interleaving of issue and pull creation, edits, locks and merges: reads and commits are
    separate steps, and a commit whose row has moved since its read does nothing. */
module IssueRuns {
  import opened Strings
  import opened IssueStore

  /** A request in flight. A lost edit waits to read again; a lost lock or merge is over. */
  datatype Op =
    | EditWaiting(pk: PK, patch: Patch)
    | EditRead(pk: PK, patch: Patch, row: IssueRow)
    | LockRead(pk: PK, row: IssueRow, locked: bool, reason: Option<string>)
    | MergeIssueRead(pk: PK, row: IssueRow)
    | MergeRead(pk: PK, row: IssueRow, pull: PK)

  datatype System = System(db: Db, ops: map<nat, Op>)

  const Start := System(Fresh, map[])

  datatype Step =
    | Create(issue: IssueInput)
    | CreatePR(pullRequest: PullInput)
    | BeginEdit(op: nat, pk: PK, patch: Patch)
    | ReadEdit(op: nat)
    | EndEdit(op: nat, actor: int, now: int)
    | ReadLock(op: nat, pk: PK, locked: bool, reason: Option<string>)
    | EndLock(op: nat, actor: int)
    | ReadMergeIssue(op: nat, pk: PK)
    | ReadMergePull(op: nat, pull: PK)
    | EndMerge(op: nat, actor: int, sha: string, now: int)
    | Abandon(op: nat)

  predicate Enabled(s: System, step: Step) {
    match step
    case Create(_) => true
    case CreatePR(_) => true
    case BeginEdit(op, _, p) => op !in s.ops && !(p.state.Some? && p.state.value.Other?)
    case ReadEdit(op) => op in s.ops && s.ops[op].EditWaiting? && s.ops[op].pk in s.db.issues
    case EndEdit(op, _, _) => op in s.ops && s.ops[op].EditRead?
    case ReadLock(op, pk, _, _) => op !in s.ops && pk in s.db.issues
    case EndLock(op, _) => op in s.ops && s.ops[op].LockRead?
    case ReadMergeIssue(op, pk) => op !in s.ops && pk in s.db.issues && s.db.issues[pk].isPull
    case ReadMergePull(op, pull) =>
      op in s.ops && s.ops[op].MergeIssueRead? && pull in s.db.pulls && s.db.pulls[pull].issue == s.ops[op].pk
    case EndMerge(op, _, _, _) => op in s.ops && s.ops[op].MergeRead? && s.ops[op].pull in s.db.pulls
    case Abandon(op) => op in s.ops
  }

  /** A commit that went through, or nothing. */
  function OrSame(result: Option<Db>, db: Db): Db { if result.Some? then result.value else db }

  function Do(s: System, step: Step): System
    requires Enabled(s, step)
  {
    match step
    case Create(i) => s.(db := CreateIssue(s.db, i))
    case CreatePR(i) => s.(db := CreatePull(s.db, i))
    case BeginEdit(op, pk, p) => s.(ops := s.ops[op := EditWaiting(pk, p)])
    case ReadEdit(op) =>
      var w := s.ops[op];
      s.(ops := s.ops[op := EditRead(w.pk, w.patch, s.db.issues[w.pk])])
    case EndEdit(op, actor, now) =>
      var w := s.ops[op];
      (match CommitEdit(s.db, w.pk, w.row, w.patch, actor, now)
       case Some(db) => System(db, s.ops - {op})
       case None => s.(ops := s.ops[op := EditWaiting(w.pk, w.patch)]))
    case ReadLock(op, pk, locked, reason) => s.(ops := s.ops[op := LockRead(pk, s.db.issues[pk], locked, reason)])
    case EndLock(op, actor) =>
      var w := s.ops[op];
      System(OrSame(CommitLock(s.db, w.pk, w.row, w.locked, w.reason, actor), s.db), s.ops - {op})
    case ReadMergeIssue(op, pk) => s.(ops := s.ops[op := MergeIssueRead(pk, s.db.issues[pk])])
    case ReadMergePull(op, pull) =>
      var w := s.ops[op];
      if s.db.pulls[pull].merged || w.row.state != Open then s.(ops := s.ops - {op})
      else s.(ops := s.ops[op := MergeRead(w.pk, w.row, pull)])
    case EndMerge(op, actor, sha, now) =>
      var w := s.ops[op];
      System(OrSame(CommitMerge(s.db, w.pk, w.row, w.pull, actor, sha, now), s.db), s.ops - {op})
    case Abandon(op) => s.(ops := s.ops - {op})
  }

  function Exec(steps: seq<Step>): Option<System> {
    if steps == [] then Some(Start)
    else match Exec(steps[..|steps| - 1])
      case None => None
      case Some(s) => if Enabled(s, steps[|steps| - 1]) then Some(Do(s, steps[|steps| - 1])) else None
  }

  // ---- The invariant ----

  function OpenPKs(issues: map<PK, IssueRow>): set<PK> { set pk | pk in issues && issues[pk].state == Open }

  /** A closed row says when and by whom; an open one says neither. */
  predicate RowConsistent(row: IssueRow) {
    match row.state
    case Open => row.closedAt.None? && row.closedBy.None?
    case Closed => row.closedAt.Some? && row.closedBy.Some?
    case Other(_) => false
  }

  ghost predicate RowsOk(db: Db) {
    && (forall pk :: pk in db.issues ==> RowConsistent(db.issues[pk]))
    && (forall pk :: pk in db.issues ==> pk < db.nextPK && db.issues[pk].number < db.nextNumber)
    && (forall j, k :: j in db.issues && k in db.issues && j != k ==> db.issues[j].number != db.issues[k].number)
  }

  /** Every pull extends an issue of its own, and is marked merged as often as it is merged: never
      or once. */
  ghost predicate PullsOk(db: Db) {
    && (forall p :: p in db.pulls ==> db.pulls[p].issue in db.issues && p < db.nextPK)
    && (forall p, q :: p in db.pulls && q in db.pulls && p != q ==> db.pulls[p].issue != db.pulls[q].issue)
    && (forall p :: p in db.merges ==> p in db.pulls)
    && (forall p :: p in db.pulls ==> MergeCount(db, p) == if db.pulls[p].merged then 1 else 0)
  }

  ghost predicate Counted(db: Db) { db.openIssues == |OpenPKs(db.issues)| }

  /** What a request read is still the row, unless the version has moved on. */
  predicate Current(db: Db, pk: PK, row: IssueRow) {
    pk in db.issues && row.version <= db.issues[pk].version
    && (row.version == db.issues[pk].version ==> row == db.issues[pk])
  }

  predicate OpOk(db: Db, op: Op) {
    match op
    case EditWaiting(_, p) => !(p.state.Some? && p.state.value.Other?)
    case EditRead(pk, p, row) => Current(db, pk, row) && !(p.state.Some? && p.state.value.Other?)
    case LockRead(pk, row, _, _) => Current(db, pk, row)
    case MergeIssueRead(pk, row) => Current(db, pk, row)
    case MergeRead(pk, row, pull) =>
      Current(db, pk, row) && row.state == Open && pull in db.pulls && db.pulls[pull].issue == pk
      && (row.version == db.issues[pk].version ==> !db.pulls[pull].merged)
  }

  ghost predicate OpsOk(s: System) { forall op :: op in s.ops ==> OpOk(s.db, s.ops[op]) }

  ghost predicate Inv(s: System) { RowsOk(s.db) && PullsOk(s.db) && Counted(s.db) && OpsOk(s) }

  // ---- Each commit keeps it ----

  lemma CountOpen(issues: map<PK, IssueRow>, pk: PK)
    ensures |OpenPKs(issues)| == |OpenPKs(issues) - {pk}| + if pk in issues && issues[pk].state == Open then 1 else 0
  {
    if pk in OpenPKs(issues) {
      assert OpenPKs(issues) == (OpenPKs(issues) - {pk}) + {pk};
    } else {
      assert OpenPKs(issues) == OpenPKs(issues) - {pk};
    }
  }

  lemma OpenAfterUpdate(issues: map<PK, IssueRow>, pk: PK, row: IssueRow)
    ensures var before := if pk in issues && issues[pk].state == Open then 1 else 0;
            |OpenPKs(issues[pk := row])| == |OpenPKs(issues)| - before + if row.state == Open then 1 else 0
  {
    CountOpen(issues, pk);
    CountOpen(issues[pk := row], pk);
    assert OpenPKs(issues[pk := row]) - {pk} == OpenPKs(issues) - {pk};
  }

  ghost predicate DbOk(db: Db) { RowsOk(db) && PullsOk(db) && Counted(db) }

  /** Labels, assignees and the timeline are not what the invariant speaks of. */
  lemma SameCounts(db: Db, db': Db)
    requires DbOk(db) && db'.issues == db.issues && db'.pulls == db.pulls && db'.openIssues == db.openIssues
    requires db'.nextNumber == db.nextNumber && db'.nextPK == db.nextPK && db'.merges == db.merges
    ensures DbOk(db')
  {
    forall p | p in db'.pulls ensures MergeCount(db', p) == MergeCount(db, p) { }
  }

  lemma InsertDb(db: Db, isPull: bool, i: IssueInput)
    requires DbOk(db)
    ensures DbOk(InsertIssue(db, isPull, i))
  {
    InsertRows(db, isPull, i);
    InsertPulls(db, isPull, i);
    assert db.nextPK !in db.issues;
    OpenAfterUpdate(db.issues, db.nextPK, NewRow(db.nextNumber, isPull, i.title, i.body, i.milestone));
  }

  lemma InsertRows(db: Db, isPull: bool, i: IssueInput)
    requires RowsOk(db)
    ensures RowsOk(InsertIssue(db, isPull, i))
  {
  }

  lemma InsertPulls(db: Db, isPull: bool, i: IssueInput)
    requires PullsOk(db)
    ensures PullsOk(InsertIssue(db, isPull, i))
  {
    var db' := InsertIssue(db, isPull, i);
    forall p | p in db'.pulls ensures MergeCount(db', p) == MergeCount(db, p) { }
  }

  lemma AddPullDb(db: Db, pk: PK, ends: PullEnds)
    requires DbOk(db) && pk in db.issues && pk !in db.pulls && forall p :: p in db.pulls ==> p < pk && db.pulls[p].issue < pk
    ensures DbOk(db.(pulls := db.pulls[pk := PullRow(pk, ends, false, None, None, "")]))
  {
  }

  lemma CreateIssueDb(db: Db, i: IssueInput)
    requires DbOk(db)
    ensures DbOk(CreateIssue(db, i))
  {
    InsertDb(db, false, i);
  }

  lemma CreatePullDb(db: Db, i: PullInput)
    requires DbOk(db)
    ensures DbOk(CreatePull(db, i))
  {
    var input := IssueInput(i.title, i.body, None, {}, {});
    InsertDb(db, true, input);
    AddPullDb(InsertIssue(db, true, input), db.nextPK, i.ends);
  }

  lemma InsertKeeps(s: System, step: Step)
    requires Inv(s) && (step.Create? || step.CreatePR?)
    ensures Inv(Do(s, step))
  {
    if step.Create? {
      CreateIssueDb(s.db, step.issue);
    } else {
      CreatePullDb(s.db, step.pullRequest);
    }
    var s' := Do(s, step);
    forall op | op in s'.ops ensures OpOk(s'.db, s'.ops[op]) {
      assert OpOk(s.db, s.ops[op]);
      InsertKeepsOp(s.db, s'.db, s.ops[op]);
    }
  }

  lemma InsertKeepsOp(db: Db, db': Db, op: Op)
    requires RowsOk(db) && PullsOk(db) && OpOk(db, op)
    requires forall pk :: pk in db.issues ==> pk in db'.issues && db'.issues[pk] == db.issues[pk]
    requires forall p :: p in db.pulls ==> p in db'.pulls && db'.pulls[p] == db.pulls[p]
    ensures OpOk(db', op)
  {
  }

  /** A write that keeps number and consistency, over the version it read. */
  lemma UpdateKeepsRows(db: Db, pk: PK, row: IssueRow)
    requires RowsOk(db) && pk in db.issues && RowConsistent(row) && row.number == db.issues[pk].number
    ensures RowsOk(UpdateIssue(db, pk, row))
  {
  }

  lemma PatchedConsistent(row: IssueRow, p: Patch, actor: int, now: int)
    requires RowConsistent(row) && !(p.state.Some? && p.state.value.Other?)
    ensures var row' := Patched(row, p, actor, now);
            && RowConsistent(row') && row'.number == row.number && row'.version == row.version
            && OpenDelta(row, p) == (if row'.state == Open then 1 else 0) - (if row.state == Open then 1 else 0)
  {
    StateConsistent(TextPatched(row, p), p, actor, now);
  }

  lemma StateConsistent(row: IssueRow, p: Patch, actor: int, now: int)
    requires RowConsistent(row) && !(p.state.Some? && p.state.value.Other?)
    ensures var row' := StatePatched(row, p, actor, now);
            && RowConsistent(row') && row'.number == row.number && row'.version == row.version
            && OpenDelta(row, p) == (if row'.state == Open then 1 else 0) - (if row.state == Open then 1 else 0)
  {
  }

  /** Another request's snapshot survives a write of any row: the written one has moved on. */
  lemma OthersKeep(db: Db, db': Db, pk: PK, row: IssueRow, op: Op)
    requires OpOk(db, op) && pk in db.issues && row.version == db.issues[pk].version + 1
    requires db'.issues == db.issues[pk := row]
    requires forall p :: p in db.pulls ==> p in db'.pulls && db'.pulls[p].issue == db.pulls[p].issue
    requires forall p :: p in db.pulls && db.pulls[p].issue != pk ==> db'.pulls[p].merged == db.pulls[p].merged
    ensures OpOk(db', op)
  {
  }

  function Written(row: IssueRow): IssueRow { row.(version := row.version + 1) }

  /** The counter follows any write whose delta is the change of openness. */
  lemma UpdateKeepsDb(db: Db, pk: PK, read: IssueRow, row: IssueRow, delta: int)
    requires DbOk(db) && Unmoved(db, pk, read) && Current(db, pk, read)
    requires RowConsistent(row) && row.number == read.number && row.version == read.version
    requires delta == (if row.state == Open then 1 else 0) - (if read.state == Open then 1 else 0)
    ensures DbOk(UpdateIssue(db, pk, row).(openIssues := db.openIssues + delta))
  {
    UpdateKeepsRows(db, pk, row);
    UpdateKeepsPulls(db, pk, row, delta);
    OpenAfterUpdate(db.issues, pk, Written(row));
  }

  lemma UpdateKeepsPulls(db: Db, pk: PK, row: IssueRow, delta: int)
    requires PullsOk(db) && pk in db.issues
    ensures PullsOk(UpdateIssue(db, pk, row).(openIssues := db.openIssues + delta))
  {
    var db' := UpdateIssue(db, pk, row).(openIssues := db.openIssues + delta);
    forall p | p in db'.pulls ensures MergeCount(db', p) == MergeCount(db, p) { }
  }

  /** After a write of `pk`, every request still in flight keeps its footing. */
  lemma OpsAfterWrite(s: System, db': Db, pk: PK, row: IssueRow)
    requires OpsOk(s) && pk in s.db.issues && row.version == s.db.issues[pk].version + 1
    requires db'.issues == s.db.issues[pk := row]
    requires forall p :: p in s.db.pulls ==> p in db'.pulls && db'.pulls[p].issue == s.db.pulls[p].issue
    requires forall p :: p in s.db.pulls && s.db.pulls[p].issue != pk ==> db'.pulls[p].merged == s.db.pulls[p].merged
    ensures forall o :: o in s.ops ==> OpOk(db', s.ops[o])
  {
    forall o | o in s.ops ensures OpOk(db', s.ops[o]) {
      OthersKeep(s.db, db', pk, row, s.ops[o]);
    }
  }

  lemma EditKeeps(s: System, op: nat, actor: int, now: int)
    requires Inv(s) && Enabled(s, EndEdit(op, actor, now))
    ensures Inv(Do(s, EndEdit(op, actor, now)))
  {
    var w := s.ops[op];
    assert OpOk(s.db, w);
    if Unmoved(s.db, w.pk, w.row) {
      var row, delta := Patched(w.row, w.patch, actor, now), OpenDelta(w.row, w.patch);
      PatchedConsistent(w.row, w.patch, actor, now);
      UpdateKeepsDb(s.db, w.pk, w.row, row, delta);
      var db' := CommitEdit(s.db, w.pk, w.row, w.patch, actor, now).value;
      SameCounts(UpdateIssue(s.db, w.pk, row).(openIssues := s.db.openIssues + delta), db');
      OpsAfterWrite(s, db', w.pk, Written(row));
    }
  }

  lemma LockKeeps(s: System, op: nat, actor: int)
    requires Inv(s) && Enabled(s, EndLock(op, actor))
    ensures Inv(Do(s, EndLock(op, actor)))
  {
    var w := s.ops[op];
    assert OpOk(s.db, w);
    if Unmoved(s.db, w.pk, w.row) {
      var row := w.row.(locked := w.locked, lockReason := if w.locked then w.reason else None);
      UpdateKeepsDb(s.db, w.pk, w.row, row, 0);
      var db' := CommitLock(s.db, w.pk, w.row, w.locked, w.reason, actor).value;
      SameCounts(UpdateIssue(s.db, w.pk, row).(openIssues := s.db.openIssues + 0), db');
      OpsAfterWrite(s, db', w.pk, Written(row));
    }
  }

  lemma MergeDb(db: Db, pk: PK, row: IssueRow, pull: PK, actor: int, sha: string, now: int)
    requires DbOk(db) && Unmoved(db, pk, row) && OpOk(db, MergeRead(pk, row, pull))
    ensures DbOk(CommitMerge(db, pk, row, pull, actor, sha, now).value)
  {
    var marked := MarkMerged(db, pull, actor, sha, now);
    MarkKeeps(db, pull, actor, sha, now);
    MergeCloses(marked, pk, row, actor, now);
    assert marked.openIssues == db.openIssues && marked.issues == db.issues;
  }

  lemma MergeCloses(db: Db, pk: PK, row: IssueRow, actor: int, now: int)
    requires DbOk(db) && Unmoved(db, pk, row) && Current(db, pk, row) && row.state == Open
    ensures DbOk(UpdateIssue(db, pk, ClosedByMerge(row, actor, now)).(openIssues := db.openIssues - 1))
  {
    UpdateKeepsDb(db, pk, row, ClosedByMerge(row, actor, now), -1);
    assert db.openIssues + -1 == db.openIssues - 1;
  }

  /** A merge marks its own pull and no other, and moves none to another issue. */
  lemma MergeMarksOne(db: Db, pk: PK, row: IssueRow, pull: PK, actor: int, sha: string, now: int)
    requires pull in db.pulls && Unmoved(db, pk, row) && db.pulls[pull].issue == pk
    ensures var db' := CommitMerge(db, pk, row, pull, actor, sha, now).value;
            && db'.issues == db.issues[pk := Written(ClosedByMerge(row, actor, now))]
            && (forall p :: p in db.pulls ==> p in db'.pulls && db'.pulls[p].issue == db.pulls[p].issue)
            && (forall p :: p in db.pulls && db.pulls[p].issue != pk ==> db'.pulls[p].merged == db.pulls[p].merged)
  {
  }

  lemma MergeKeeps(s: System, op: nat, actor: int, sha: string, now: int)
    requires Inv(s) && Enabled(s, EndMerge(op, actor, sha, now))
    ensures Inv(Do(s, EndMerge(op, actor, sha, now)))
  {
    var w := s.ops[op];
    assert OpOk(s.db, w);
    if Unmoved(s.db, w.pk, w.row) {
      MergeDb(s.db, w.pk, w.row, w.pull, actor, sha, now);
      MergeMarksOne(s.db, w.pk, w.row, w.pull, actor, sha, now);
      var db' := CommitMerge(s.db, w.pk, w.row, w.pull, actor, sha, now).value;
      OpsAfterWrite(s, db', w.pk, Written(ClosedByMerge(w.row, actor, now)));
    }
  }

  lemma MarkCounts(db: Db, pull: PK, actor: int, sha: string, now: int, p: PK)
    requires PullsOk(db) && pull in db.pulls && !db.pulls[pull].merged && p in db.pulls
    ensures var db' := MarkMerged(db, pull, actor, sha, now);
            MergeCount(db', p) == (if db'.pulls[p].merged then 1 else 0) && db'.pulls[p].issue == db.pulls[p].issue
  {
  }

  lemma MarkKeeps(db: Db, pull: PK, actor: int, sha: string, now: int)
    requires DbOk(db) && pull in db.pulls && !db.pulls[pull].merged
    ensures DbOk(MarkMerged(db, pull, actor, sha, now))
  {
    var db' := MarkMerged(db, pull, actor, sha, now);
    assert db'.pulls.Keys == db.pulls.Keys;
    forall p | p in db'.pulls
      ensures MergeCount(db', p) == (if db'.pulls[p].merged then 1 else 0) && db'.pulls[p].issue == db.pulls[p].issue
    {
      MarkCounts(db, pull, actor, sha, now, p);
    }
  }

  lemma StepKeeps(s: System, step: Step)
    requires Inv(s) && Enabled(s, step)
    ensures Inv(Do(s, step))
  {
    match step
    case Create(_) => InsertKeeps(s, step);
    case CreatePR(_) => InsertKeeps(s, step);
    case EndEdit(op, actor, now) => EditKeeps(s, op, actor, now);
    case EndLock(op, actor) => LockKeeps(s, op, actor);
    case EndMerge(op, actor, sha, now) => MergeKeeps(s, op, actor, sha, now);
    case _ => ReadKeeps(s, step);
  }

  /** Reading, beginning and abandoning leave the rows alone. */
  lemma ReadKeeps(s: System, step: Step)
    requires Inv(s) && Enabled(s, step)
    requires !step.Create? && !step.CreatePR? && !step.EndEdit? && !step.EndLock? && !step.EndMerge?
    ensures Inv(Do(s, step))
  {
    var s' := Do(s, step);
    forall op | op in s'.ops ensures OpOk(s'.db, s'.ops[op]) {
      if op in s.ops {
        assert OpOk(s.db, s.ops[op]);
      }
    }
  }

  // ---- Every run ----

  lemma {:induction false} RunKeeps(steps: seq<Step>)
    requires Exec(steps).Some?
    ensures Inv(Exec(steps).value)
  {
    if steps != [] {
      RunKeeps(steps[..|steps| - 1]);
      StepKeeps(Exec(steps[..|steps| - 1]).value, steps[|steps| - 1]);
    } else {
      assert OpenPKs(map[]) == {};
    }
  }

  /** The open counter is the number of open rows; closed rows, and only they, carry a closing time and
      actor; issue and pull numbers never collide; no pull is marked merged twice. */
  lemma CounterIsExact(steps: seq<Step>)
    requires Exec(steps).Some?
    ensures var db := Exec(steps).value.db;
            && db.openIssues == |OpenPKs(db.issues)|
            && (forall pk :: pk in db.issues ==>
                  (db.issues[pk].state == Closed <==> db.issues[pk].closedAt.Some? && db.issues[pk].closedBy.Some?)
                  && (db.issues[pk].state == Open || db.issues[pk].state == Closed))
            && (forall j, k :: j in db.issues && k in db.issues && j != k ==> db.issues[j].number != db.issues[k].number)
            && (forall p :: p in db.pulls ==> MergeCount(db, p) <= 1 && (MergeCount(db, p) == 1 <==> db.pulls[p].merged))
  {
    RunKeeps(steps);
  }

  // ---- The timeline accounts for the state ----

  function Tally(timeline: seq<TimelineEvent>, pk: PK, kind: EventKind): nat {
    if timeline == [] then 0
    else
      var e := timeline[|timeline| - 1];
      Tally(timeline[..|timeline| - 1], pk, kind) + if e.issue == pk && e.kind == kind then 1 else 0
  }

  lemma TallySnoc(timeline: seq<TimelineEvent>, e: TimelineEvent, pk: PK, kind: EventKind)
    ensures Tally(timeline + [e], pk, kind) == Tally(timeline, pk, kind) + if e.issue == pk && e.kind == kind then 1 else 0
  {
    assert (timeline + [e])[..|timeline|] == timeline;
  }

  lemma {:induction false} TallyOfNone(timeline: seq<TimelineEvent>, pk: PK, kind: EventKind)
    requires forall e :: e in timeline ==> e.issue != pk
    ensures Tally(timeline, pk, kind) == 0
  {
    if timeline != [] {
      TallyOfNone(timeline[..|timeline| - 1], pk, kind);
    }
  }

  /** Closings and merges exceed reopenings by one exactly while the issue is closed. */
  predicate Accounted(db: Db, pk: PK, merges: nat)
    requires pk in db.issues
  {
    Tally(db.timeline, pk, ClosedEvent) + merges == Tally(db.timeline, pk, ReopenedEvent) + if db.issues[pk].state == Closed then 1 else 0
  }

  ghost predicate HasPull(db: Db, pk: PK) { exists p :: p in db.pulls && db.pulls[p].issue == pk }

  ghost predicate TimelineOk(db: Db) {
    && (forall e :: e in db.timeline ==> e.issue in db.issues)
    && (forall p :: p in db.pulls && db.pulls[p].issue in db.issues ==> Accounted(db, db.pulls[p].issue, MergeCount(db, p)))
    && (forall pk :: pk in db.issues && !HasPull(db, pk) ==> Accounted(db, pk, 0))
  }

  lemma PullsKept(db: Db, db': Db, pk: PK)
    requires forall p :: p in db.pulls ==> p in db'.pulls && db'.pulls[p].issue == db.pulls[p].issue
    ensures HasPull(db, pk) ==> HasPull(db', pk)
  {
    if HasPull(db, pk) {
      var p :| p in db.pulls && db.pulls[p].issue == pk;
      assert p in db'.pulls && db'.pulls[p].issue == pk;
    }
  }

  lemma InsertTimeline(db: Db, isPull: bool, i: IssueInput)
    requires DbOk(db) && TimelineOk(db)
    ensures TimelineOk(InsertIssue(db, isPull, i)) && !HasPull(InsertIssue(db, isPull, i), db.nextPK)
  {
    var db' := InsertIssue(db, isPull, i);
    TallyOfNone(db.timeline, db.nextPK, ClosedEvent);
    TallyOfNone(db.timeline, db.nextPK, ReopenedEvent);
    forall p | p in db'.pulls ensures db'.pulls[p].issue in db.issues && Accounted(db', db'.pulls[p].issue, MergeCount(db', p)) {
      assert Accounted(db, db.pulls[p].issue, MergeCount(db, p));
    }
    forall pk | pk in db'.issues && !HasPull(db', pk) ensures Accounted(db', pk, 0) {
      if pk != db.nextPK {
        PullsKept(db, db', pk);
        assert Accounted(db, pk, 0);
      }
    }
  }

  /** Extending an issue that no pull extends yet. */
  lemma ExtendTimeline(db: Db, pk: PK, row: PullRow)
    requires TimelineOk(db) && pk in db.issues && !HasPull(db, pk) && pk !in db.pulls && pk !in db.merges && row.issue == pk
    ensures TimelineOk(db.(pulls := db.pulls[pk := row]))
  {
    var db' := db.(pulls := db.pulls[pk := row]);
    assert Accounted(db, pk, 0);
    forall p | p in db'.pulls && db'.pulls[p].issue in db'.issues ensures Accounted(db', db'.pulls[p].issue, MergeCount(db', p)) {
      if p != pk {
        assert Accounted(db, db.pulls[p].issue, MergeCount(db, p));
      }
    }
    forall q | q in db'.issues && !HasPull(db', q) ensures Accounted(db', q, 0) {
      PullsKept(db, db', q);
      assert Accounted(db, q, 0);
    }
  }

  lemma CreatePullTimeline(db: Db, i: PullInput)
    requires DbOk(db) && TimelineOk(db)
    ensures TimelineOk(CreatePull(db, i))
  {
    var input := IssueInput(i.title, i.body, None, {}, {});
    InsertTimeline(db, true, input);
    ExtendTimeline(InsertIssue(db, true, input), db.nextPK, PullRow(db.nextPK, i.ends, false, None, None, ""));
  }

  /** The entry fits what a write did to the state of the row. */
  predicate Fits(before: IssueState, after: IssueState, action: Option<EventKind>) {
    && (action == Some(ClosedEvent) <==> before != Closed && after == Closed)
    && (action == Some(ReopenedEvent) <==> before == Closed && after != Closed)
  }

  lemma WriteAccounts(db: Db, db': Db, pk: PK, row: IssueRow, action: Option<EventKind>, actor: int, q: PK, merges: nat)
    requires pk in db.issues && q in db.issues && db'.issues == db.issues[pk := row]
    requires db'.timeline == Logged(db.timeline, pk, actor, action) && Fits(db.issues[pk].state, row.state, action)
    requires Accounted(db, q, merges)
    ensures Accounted(db', q, merges)
  {
    if action.Some? {
      TallySnoc(db.timeline, TimelineEvent(pk, actor, action.value), q, ClosedEvent);
      TallySnoc(db.timeline, TimelineEvent(pk, actor, action.value), q, ReopenedEvent);
    }
  }

  /** A write of one row that logs what it did to the state. */
  lemma WriteTimeline(db: Db, db': Db, pk: PK, row: IssueRow, action: Option<EventKind>, actor: int)
    requires TimelineOk(db) && pk in db.issues && db'.issues == db.issues[pk := row] && db'.pulls == db.pulls && db'.merges == db.merges
    requires db'.timeline == Logged(db.timeline, pk, actor, action) && Fits(db.issues[pk].state, row.state, action)
    ensures TimelineOk(db')
  {
    forall p | p in db'.pulls && db'.pulls[p].issue in db'.issues ensures Accounted(db', db'.pulls[p].issue, MergeCount(db', p)) {
      WriteAccounts(db, db', pk, row, action, actor, db.pulls[p].issue, MergeCount(db, p));
    }
    forall q | q in db'.issues && !HasPull(db', q) ensures Accounted(db', q, 0) {
      PullsKept(db, db', q);
      WriteAccounts(db, db', pk, row, action, actor, q, 0);
    }
  }

  lemma MergeTimeline(db: Db, pk: PK, row: IssueRow, pull: PK, actor: int, sha: string, now: int)
    requires DbOk(db) && TimelineOk(db) && Unmoved(db, pk, row) && OpOk(db, MergeRead(pk, row, pull))
    ensures TimelineOk(CommitMerge(db, pk, row, pull, actor, sha, now).value)
  {
    var db' := CommitMerge(db, pk, row, pull, actor, sha, now).value;
    MergeMarksOne(db, pk, row, pull, actor, sha, now);
    forall p | p in db'.pulls && db'.pulls[p].issue in db'.issues ensures Accounted(db', db'.pulls[p].issue, MergeCount(db', p)) {
      MergeAccounts(db, pk, row, pull, actor, sha, now, p);
    }
    forall q | q in db'.issues && !HasPull(db', q) ensures Accounted(db', q, 0) {
      assert pull in db'.pulls && db'.pulls[pull].issue == pk;
      PullsKept(db, db', q);
      assert Accounted(db, q, 0);
    }
  }

  lemma MergeAccounts(db: Db, pk: PK, row: IssueRow, pull: PK, actor: int, sha: string, now: int, p: PK)
    requires DbOk(db) && TimelineOk(db) && Unmoved(db, pk, row) && OpOk(db, MergeRead(pk, row, pull)) && p in db.pulls
    ensures var db' := CommitMerge(db, pk, row, pull, actor, sha, now).value;
            p in db'.pulls && db'.pulls[p].issue in db'.issues && Accounted(db', db'.pulls[p].issue, MergeCount(db', p))
  {
    assert Accounted(db, db.pulls[p].issue, MergeCount(db, p));
    assert Accounted(db, pk, MergeCount(db, pull));
  }

  lemma StepTimeline(s: System, step: Step)
    requires Inv(s) && TimelineOk(s.db) && Enabled(s, step)
    ensures TimelineOk(Do(s, step).db)
  {
    match step
    case Create(i) => InsertTimeline(s.db, false, i);
    case CreatePR(i) => CreatePullTimeline(s.db, i);
    case EndEdit(op, actor, now) => EditTimeline(s, op, actor, now);
    case EndLock(op, actor) => LockTimeline(s, op, actor);
    case EndMerge(op, actor, sha, now) =>
      var w := s.ops[op];
      assert OpOk(s.db, w);
      if Unmoved(s.db, w.pk, w.row) {
        MergeTimeline(s.db, w.pk, w.row, w.pull, actor, sha, now);
      }
    case _ =>
  }

  lemma EditTimeline(s: System, op: nat, actor: int, now: int)
    requires Inv(s) && TimelineOk(s.db) && Enabled(s, EndEdit(op, actor, now))
    ensures TimelineOk(Do(s, EndEdit(op, actor, now)).db)
  {
    var w := s.ops[op];
    assert OpOk(s.db, w);
    if Unmoved(s.db, w.pk, w.row) {
      var row := Patched(w.row, w.patch, actor, now);
      PatchedConsistent(w.row, w.patch, actor, now);
      PatchedState(w.row, w.patch, actor, now);
      WriteTimeline(s.db, CommitEdit(s.db, w.pk, w.row, w.patch, actor, now).value, w.pk, Written(row), ActionOf(w.row, w.patch), actor);
    }
  }

  lemma PatchedState(row: IssueRow, p: Patch, actor: int, now: int)
    requires RowConsistent(row) && !(p.state.Some? && p.state.value.Other?)
    ensures Fits(row.state, Patched(row, p, actor, now).state, ActionOf(row, p))
  {
  }

  lemma LockTimeline(s: System, op: nat, actor: int)
    requires Inv(s) && TimelineOk(s.db) && Enabled(s, EndLock(op, actor))
    ensures TimelineOk(Do(s, EndLock(op, actor)).db)
  {
    var w := s.ops[op];
    assert OpOk(s.db, w);
    if Unmoved(s.db, w.pk, w.row) {
      var row := w.row.(locked := w.locked, lockReason := if w.locked then w.reason else None);
      var kind := if w.locked then LockedEvent else UnlockedEvent;
      WriteTimeline(s.db, CommitLock(s.db, w.pk, w.row, w.locked, w.reason, actor).value, w.pk, Written(row), Some(kind), actor);
    }
  }

  /** In every interleaving the timeline accounts for the state: an issue's closings, with the merge of
      the pull that extends it if there is one, exceed its reopenings by one while it is closed and
      balance them while it is open. */
  lemma {:induction false} TimelineIsExact(steps: seq<Step>)
    requires Exec(steps).Some?
    ensures TimelineOk(Exec(steps).value.db)
  {
    if steps != [] {
      var front := steps[..|steps| - 1];
      TimelineIsExact(front);
      RunKeeps(front);
      StepTimeline(Exec(front).value, steps[|steps| - 1]);
    }
  }

  // ---- A merged pull need not stay closed ----

  predicate MergedAreClosed(db: Db) {
    forall p :: p in db.pulls && db.pulls[p].merged && db.pulls[p].issue in db.issues ==>
      db.issues[db.pulls[p].issue].state == Closed
  }

  /** The edit reopens the row it read. */
  predicate Reopens(row: IssueRow, p: Patch) { p.state == Some(Open) && row.state == Closed }

  /** An edit that goes through and reopens the issue of a merged pull, which EditIssue never checks. */
  ghost predicate BreaksPromise(s: System, step: Step)
    requires Enabled(s, step)
  {
    step.EndEdit? &&
    (var w := s.ops[step.op];
     && Unmoved(s.db, w.pk, w.row) && Reopens(w.row, w.patch)
     && exists p :: p in s.db.pulls && s.db.pulls[p].issue == w.pk && s.db.pulls[p].merged)
  }

  lemma EditPromise(s: System, op: nat, actor: int, now: int)
    requires Inv(s) && MergedAreClosed(s.db) && Enabled(s, EndEdit(op, actor, now))
    ensures MergedAreClosed(Do(s, EndEdit(op, actor, now)).db) <==> !BreaksPromise(s, EndEdit(op, actor, now))
  {
    var w := s.ops[op];
    assert OpOk(s.db, w);
    if Unmoved(s.db, w.pk, w.row) {
      var db' := CommitEdit(s.db, w.pk, w.row, w.patch, actor, now).value;
      PatchedConsistent(w.row, w.patch, actor, now);
      forall p | p in s.db.pulls && s.db.pulls[p].issue == w.pk && s.db.pulls[p].merged
        ensures Reopens(w.row, w.patch) ==> !MergedAreClosed(db')
      {
        assert p in db'.pulls;
      }
    }
  }

  lemma OtherPromise(s: System, step: Step)
    requires Inv(s) && MergedAreClosed(s.db) && Enabled(s, step) && !step.EndEdit? && !step.EndMerge?
    ensures MergedAreClosed(Do(s, step).db)
  {
    if step.EndLock? {
      assert OpOk(s.db, s.ops[step.op]);
    }
  }

  lemma MergePromise(s: System, op: nat, actor: int, sha: string, now: int)
    requires Inv(s) && MergedAreClosed(s.db) && Enabled(s, EndMerge(op, actor, sha, now))
    ensures MergedAreClosed(Do(s, EndMerge(op, actor, sha, now)).db)
  {
    assert OpOk(s.db, s.ops[op]);
  }

  /** MarkMerged promises that a merged pull is a closed issue. Of all steps only one breaks the promise:
      the commit of an edit that reopens the issue of a merged pull. */
  lemma StepKeepsPromiseExactly(s: System, step: Step)
    requires Inv(s) && MergedAreClosed(s.db) && Enabled(s, step)
    ensures MergedAreClosed(Do(s, step).db) <==> !BreaksPromise(s, step)
  {
    match step
    case EndEdit(op, actor, now) => EditPromise(s, op, actor, now);
    case EndMerge(op, actor, sha, now) => MergePromise(s, op, actor, sha, now);
    case _ => OtherPromise(s, step);
  }

  lemma ExecPrefix(steps: seq<Step>)
    requires Exec(steps).Some? && steps != []
    ensures var front, last := steps[..|steps| - 1], steps[|steps| - 1];
            Exec(front).Some? && Enabled(Exec(front).value, last) && Exec(steps).value == Do(Exec(front).value, last)
  {
  }

  /** The promise holds after every prefix of the run. */
  ghost predicate PromiseKept(steps: seq<Step>)
    requires Exec(steps).Some?
  {
    MergedAreClosed(Exec(steps).value.db)
    && (steps != [] ==> (ExecPrefix(steps); PromiseKept(steps[..|steps| - 1])))
  }

  /** No step of the run is such an edit. */
  ghost predicate NothingReopened(steps: seq<Step>)
    requires Exec(steps).Some?
  {
    steps != [] ==>
      (ExecPrefix(steps);
       var front, last := steps[..|steps| - 1], steps[|steps| - 1];
       NothingReopened(front) && !BreaksPromise(Exec(front).value, last))
  }

  /** Over whole runs: merged pulls stay closed throughout exactly when no edit reopens one. */
  lemma {:induction false} RunKeepsPromiseExactly(steps: seq<Step>)
    requires Exec(steps).Some?
    ensures PromiseKept(steps) <==> NothingReopened(steps)
  {
    if steps != [] {
      ExecPrefix(steps);
      var front := steps[..|steps| - 1];
      RunKeepsPromiseExactly(front);
      RunKeeps(front);
      if PromiseKept(front) {
        var front' := Exec(front).value;
        assert MergedAreClosed(front'.db);
        StepKeepsPromiseExactly(front', steps[|steps| - 1]);
      }
    }
  }

  /** From any reachable state with a merged pull whose issue is closed, three steps leave the pull
      merged and its issue open. */
  lemma MergedPullReopens(steps: seq<Step>, pull: PK, op: nat, actor: int, now: int)
    requires Exec(steps).Some? && op !in Exec(steps).value.ops
    requires var db := Exec(steps).value.db;
             pull in db.pulls && db.pulls[pull].merged && db.pulls[pull].issue in db.issues
             && db.issues[db.pulls[pull].issue].state == Closed
    ensures var pk := Exec(steps).value.db.pulls[pull].issue;
            var more := steps + [BeginEdit(op, pk, Reopening)] + [ReadEdit(op)] + [EndEdit(op, actor, now)];
            && Exec(more).Some?
            && var db := Exec(more).value.db;
               pull in db.pulls && db.pulls[pull].merged && db.pulls[pull].issue == pk
               && pk in db.issues && db.issues[pk].state == Open
  {
    var s := Exec(steps).value;
    var pk := s.db.pulls[pull].issue;
    ExecSnoc(steps, BeginEdit(op, pk, Reopening));
    var s1 := Do(s, BeginEdit(op, pk, Reopening));
    assert s1.db == s.db && s1.ops[op] == EditWaiting(pk, Reopening);
    ExecSnoc(steps + [BeginEdit(op, pk, Reopening)], ReadEdit(op));
    var s2 := Do(s1, ReadEdit(op));
    assert s2.db == s.db && s2.ops[op] == EditRead(pk, Reopening, s.db.issues[pk]);
    ExecSnoc(steps + [BeginEdit(op, pk, Reopening)] + [ReadEdit(op)], EndEdit(op, actor, now));
    ReopenCommit(s.db, pk, actor, now);
  }

  const Reopening := Patch(None, None, None, Some(Open), None, None, None)

  lemma ReopenCommit(db: Db, pk: PK, actor: int, now: int)
    requires pk in db.issues && db.issues[pk].state == Closed
    ensures var result := CommitEdit(db, pk, db.issues[pk], Reopening, actor, now);
            result.Some? && result.value.pulls == db.pulls && pk in result.value.issues && result.value.issues[pk].state == Open
  {
  }

  lemma ExecSnoc(steps: seq<Step>, step: Step)
    requires Exec(steps).Some? && Enabled(Exec(steps).value, step)
    ensures Exec(steps + [step]) == Some(Do(Exec(steps).value, step))
  {
    assert (steps + [step])[..|steps|] == steps;
  }

  /** A pull opened and merged. */
  function MergingRun(i: PullInput, actor: int, sha: string, now: int): seq<Step> {
    [CreatePR(i)] + [ReadMergeIssue(0, 0)] + [ReadMergePull(0, 0)] + [EndMerge(0, actor, sha, now)]
  }

  /** It ends with the pull merged, its issue closed, and nothing in flight. */
  lemma MergingRunMerges(i: PullInput, actor: int, sha: string, now: int)
    ensures var steps := MergingRun(i, actor, sha, now);
            && Exec(steps).Some? && Exec(steps).value.ops == map[]
            && var db := Exec(steps).value.db;
               0 in db.pulls && db.pulls[0].merged && db.pulls[0].issue == 0 && 0 in db.issues && db.issues[0].state == Closed
  {
    assert [] + [CreatePR(i)] == [CreatePR(i)];
    ExecSnoc([], CreatePR(i));
    var s1 := Do(Start, CreatePR(i));
    ExecSnoc([CreatePR(i)], ReadMergeIssue(0, 0));
    var s2 := Do(s1, ReadMergeIssue(0, 0));
    ExecSnoc([CreatePR(i)] + [ReadMergeIssue(0, 0)], ReadMergePull(0, 0));
    var s3 := Do(s2, ReadMergePull(0, 0));
    assert s3.db == s1.db && s3.ops == map[0 := MergeRead(0, s1.db.issues[0], 0)];
    ExecSnoc([CreatePR(i)] + [ReadMergeIssue(0, 0)] + [ReadMergePull(0, 0)], EndMerge(0, actor, sha, now));
  }

  /** So the promise is broken by a run of seven steps. */
  lemma PromiseIsBroken(i: PullInput, actor: int, sha: string, now: int)
    ensures var steps := MergingRun(i, actor, sha, now) + [BeginEdit(0, 0, Reopening)] + [ReadEdit(0)] + [EndEdit(0, actor, now)];
            Exec(steps).Some? && !MergedAreClosed(Exec(steps).value.db)
  {
    MergingRunMerges(i, actor, sha, now);
    MergedPullReopens(MergingRun(i, actor, sha, now), 0, 0, actor, now);
  }
}
