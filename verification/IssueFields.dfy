/** What every step writes to every field of every issue and pull, and so what each field holds after any
    run: the value last written to it (domain/issue_service.go, domain/pr_service.go). */
module IssueFields {
  import opened Strings
  import opened IssueStore
  import opened IssueRuns

  // ---- When a commit goes through ----

  /** The request's row is still the one that was read. */
  predicate AsRead(s: System, op: nat)
    requires op in s.ops && (s.ops[op].EditRead? || s.ops[op].LockRead? || s.ops[op].MergeRead?)
  {
    s.ops[op].pk in s.db.issues && s.db.issues[s.ops[op].pk] == s.ops[op].row
  }

  /** The version tells whether the row moved: a commit goes through exactly when the row is as it was read.
      A lost edit waits to read again, anything else is over. */
  lemma CommitsExactly(s: System, step: Step)
    requires Inv(s) && Enabled(s, step) && (step.EndEdit? || step.EndLock? || step.EndMerge?)
    ensures Do(s, step).db != s.db <==> AsRead(s, step.op)
    ensures Do(s, step).ops ==
              if step.EndEdit? && !AsRead(s, step.op) then s.ops[step.op := EditWaiting(s.ops[step.op].pk, s.ops[step.op].patch)]
              else s.ops - {step.op}
  {
    var w := s.ops[step.op];
    assert OpOk(s.db, w);
    if AsRead(s, step.op) {
      assert Do(s, step).db.issues[w.pk].version == w.row.version + 1 by {
        if step.EndEdit? {
          PatchedConsistent(w.row, w.patch, step.actor, step.now);
        }
      }
    }
  }

  // ---- What a step writes ----

  /** The fields of an issue a step writes, and what it writes there. */
  datatype Fields = Fields(
    identity: Option<(nat, bool)>,
    title: Option<string>,
    body: Option<Option<string>>,
    milestone: Option<Option<int>>,
    labels: Option<set<int>>,
    assignees: Option<set<int>>,
    state: Option<IssueState>,
    closing: Option<(Option<int>, Option<int>)>,
    reason: Option<Option<string>>,
    lock: Option<(bool, Option<string>)>)

  const Nothing := Fields(None, None, None, None, None, None, None, None, None, None)

  function Made(number: nat, isPull: bool, i: IssueInput): Fields {
    Fields(Some((number, isPull)), Some(i.title), Some(i.body), Some(i.milestone), Some(i.labels), Some(i.assignees),
           Some(Open), Some((None, None)), Some(None), Some((false, None)))
  }

  /** The fields a patch names, the state only when it is another one; closing stamps time and actor, and
      reopening clears them. */
  function Named(row: IssueRow, p: Patch, actor: int, now: int): Fields {
    var moved := p.state.Some? && p.state.value != row.state;
    Fields(None, p.title, if p.body.Some? then Some(p.body) else None, p.milestone, p.labels, p.assignees,
           if moved then p.state else None,
           if !moved then None else if p.state.value == Closed then Some((Some(now), Some(actor))) else Some((None, None)),
           if !moved then (if p.stateReason.Some? then Some(p.stateReason) else None)
           else if p.state.value == Open then Some(Some("reopened"))
           else if p.stateReason.Some? then Some(p.stateReason) else Some(Some("completed")),
           None)
  }

  /** What a merge writes to the issue it closes. */
  function ClosedBy(actor: int, now: int): Fields {
    Nothing.(state := Some(Closed), closing := Some((Some(now), Some(actor))), reason := Some(Some("completed")))
  }

  /** What a step writes to the issue `pk`. */
  function Writes(s: System, step: Step, pk: PK): Fields
    requires Enabled(s, step)
  {
    match step
    case Create(i) => if pk == s.db.nextPK then Made(s.db.nextNumber, false, i) else Nothing
    case CreatePR(i) =>
      if pk == s.db.nextPK then Made(s.db.nextNumber, true, IssueInput(i.title, i.body, None, {}, {})) else Nothing
    case EndEdit(op, actor, now) =>
      var w := s.ops[op];
      if w.pk == pk && AsRead(s, op) then Named(w.row, w.patch, actor, now) else Nothing
    case EndLock(op, _) =>
      var w := s.ops[op];
      if w.pk == pk && AsRead(s, op) then Nothing.(lock := Some((w.locked, if w.locked then w.reason else None))) else Nothing
    case EndMerge(op, actor, _, now) =>
      var w := s.ops[op];
      if w.pk == pk && AsRead(s, op) then ClosedBy(actor, now) else Nothing
    case _ => Nothing
  }

  function Or<T>(written: Option<T>, was: T): T { if written.Some? then written.value else was }

  /** A row and its links hold these values where fields are written, and what they held elsewhere. */
  ghost predicate RowWritten(w: Fields, was: IssueRow, now: IssueRow) {
    && (now.number, now.isPull) == Or(w.identity, (was.number, was.isPull))
    && now.title == Or(w.title, was.title) && now.body == Or(w.body, was.body) && now.milestone == Or(w.milestone, was.milestone)
    && now.state == Or(w.state, was.state) && (now.closedAt, now.closedBy) == Or(w.closing, (was.closedAt, was.closedBy))
    && now.stateReason == Or(w.reason, was.stateReason) && (now.locked, now.lockReason) == Or(w.lock, (was.locked, was.lockReason))
  }

  /** Every issue has its links. */
  ghost predicate Linked(db: Db) { forall pk :: pk in db.issues ==> pk in db.labels && pk in db.assignees }

  ghost predicate IssueWritten(w: Fields, was: Db, now: Db, pk: PK)
    requires pk in was.issues && Linked(was)
  {
    && pk in now.issues && RowWritten(w, was.issues[pk], now.issues[pk]) && pk in now.labels && pk in now.assignees
    && now.labels[pk] == Or(w.labels, was.labels[pk]) && now.assignees[pk] == Or(w.assignees, was.assignees[pk])
  }

  lemma PatchWrites(row: IssueRow, p: Patch, actor: int, now: int)
    requires !(p.state.Some? && p.state.value.Other?)
    ensures RowWritten(Named(row, p, actor, now), row, Written(Patched(row, p, actor, now)))
  {
  }

  lemma EditWrites(s: System, op: nat, actor: int, now: int, pk: PK)
    requires Inv(s) && Linked(s.db) && Enabled(s, EndEdit(op, actor, now)) && pk in s.db.issues
    ensures IssueWritten(Writes(s, EndEdit(op, actor, now), pk), s.db, Do(s, EndEdit(op, actor, now)).db, pk)
  {
    var w := s.ops[op];
    assert OpOk(s.db, w);
    if AsRead(s, op) {
      EditedDb(s.db, w.pk, w.row, w.patch, actor, now, pk);
    }
  }

  lemma EditedDb(db: Db, pk: PK, row: IssueRow, p: Patch, actor: int, now: int, q: PK)
    requires Linked(db) && pk in db.issues && db.issues[pk] == row && q in db.issues && !(p.state.Some? && p.state.value.Other?)
    ensures IssueWritten(if pk == q then Named(row, p, actor, now) else Nothing, db, CommitEdit(db, pk, row, p, actor, now).value, q)
  {
    PatchWrites(row, p, actor, now);
  }

  lemma LockedDb(db: Db, pk: PK, row: IssueRow, locked: bool, reason: Option<string>, actor: int, q: PK)
    requires Linked(db) && pk in db.issues && db.issues[pk] == row && q in db.issues
    ensures IssueWritten(if pk == q then Nothing.(lock := Some((locked, if locked then reason else None))) else Nothing,
                         db, CommitLock(db, pk, row, locked, reason, actor).value, q)
  {
  }

  lemma LockWrites(s: System, op: nat, actor: int, pk: PK)
    requires Inv(s) && Linked(s.db) && Enabled(s, EndLock(op, actor)) && pk in s.db.issues
    ensures IssueWritten(Writes(s, EndLock(op, actor), pk), s.db, Do(s, EndLock(op, actor)).db, pk)
  {
    var w := s.ops[op];
    assert OpOk(s.db, w);
    if AsRead(s, op) {
      LockedDb(s.db, w.pk, w.row, w.locked, w.reason, actor, pk);
    }
  }

  lemma MergedDb(db: Db, pk: PK, row: IssueRow, pull: PK, actor: int, sha: string, now: int, q: PK)
    requires Linked(db) && pk in db.issues && db.issues[pk] == row && pull in db.pulls && q in db.issues
    ensures IssueWritten(if pk == q then ClosedBy(actor, now) else Nothing, db, CommitMerge(db, pk, row, pull, actor, sha, now).value, q)
  {
  }

  lemma MergeWrites(s: System, op: nat, actor: int, sha: string, now: int, pk: PK)
    requires Inv(s) && Linked(s.db) && Enabled(s, EndMerge(op, actor, sha, now)) && pk in s.db.issues
    ensures IssueWritten(Writes(s, EndMerge(op, actor, sha, now), pk), s.db, Do(s, EndMerge(op, actor, sha, now)).db, pk)
  {
    var w := s.ops[op];
    assert OpOk(s.db, w);
    if AsRead(s, op) {
      MergedDb(s.db, w.pk, w.row, w.pull, actor, sha, now, pk);
    }
  }

  lemma SameIssue(was: Db, now: Db, pk: PK)
    requires Linked(was) && pk in was.issues && pk in now.issues && now.issues[pk] == was.issues[pk]
    requires pk in now.labels && pk in now.assignees && now.labels[pk] == was.labels[pk] && now.assignees[pk] == was.assignees[pk]
    ensures IssueWritten(Nothing, was, now, pk)
  {
  }

  lemma OthersWrite(s: System, step: Step, pk: PK)
    requires Inv(s) && Linked(s.db) && Enabled(s, step) && pk in s.db.issues && !step.EndEdit? && !step.EndLock? && !step.EndMerge?
    ensures Writes(s, step, pk) == Nothing && IssueWritten(Nothing, s.db, Do(s, step).db, pk)
  {
    assert pk < s.db.nextPK;
    SameIssue(s.db, Do(s, step).db, pk);
  }

  /** Every step leaves every field of every issue at what it writes there, or else as it was. */
  lemma StepWritesExactly(s: System, step: Step, pk: PK)
    requires Inv(s) && Linked(s.db) && Enabled(s, step) && pk in s.db.issues
    ensures IssueWritten(Writes(s, step, pk), s.db, Do(s, step).db, pk)
  {
    match step
    case EndEdit(op, actor, now) => EditWrites(s, op, actor, now, pk);
    case EndLock(op, actor) => LockWrites(s, op, actor, pk);
    case EndMerge(op, actor, sha, now) => MergeWrites(s, op, actor, sha, now, pk);
    case _ => OthersWrite(s, step, pk);
  }

  /** A new issue holds what it was made with. */
  lemma StepMakesExactly(s: System, step: Step, pk: PK)
    requires Inv(s) && Enabled(s, step) && pk !in s.db.issues && pk in Do(s, step).db.issues
    ensures var db, w := Do(s, step).db, Writes(s, step, pk);
            && pk == s.db.nextPK && (step.Create? || step.CreatePR?) && pk in db.labels && pk in db.assignees
            && RowWritten(w, db.issues[pk], db.issues[pk]) && w.identity.Some? && w.state.Some? && w.lock.Some?
            && w.labels == Some(db.labels[pk]) && w.assignees == Some(db.assignees[pk])
            && w.title.Some? && w.body.Some? && w.milestone.Some? && w.closing.Some? && w.reason.Some?
  {
  }

  // ---- Whole runs ----

  /** What was last written to a field of an issue. */
  function LastWritten<T>(steps: seq<Step>, pk: PK, field: Fields -> Option<T>): Option<T>
    requires Exec(steps).Some?
  {
    if steps == [] then None
    else
      ExecPrefix(steps);
      var w := field(Writes(Exec(steps[..|steps| - 1]).value, steps[|steps| - 1], pk));
      if w.Some? then w else LastWritten(steps[..|steps| - 1], pk, field)
  }

  ghost predicate Recorded<T>(steps: seq<Step>, pk: PK, field: Fields -> Option<T>, value: T)
    requires Exec(steps).Some?
  {
    LastWritten(steps, pk, field) == Some(value)
  }

  function Identity(f: Fields): Option<(nat, bool)> { f.identity }
  function Title(f: Fields): Option<string> { f.title }
  function Body(f: Fields): Option<Option<string>> { f.body }
  function Milestone(f: Fields): Option<Option<int>> { f.milestone }
  function Labels(f: Fields): Option<set<int>> { f.labels }
  function Assignees(f: Fields): Option<set<int>> { f.assignees }
  function State(f: Fields): Option<IssueState> { f.state }
  function Closing(f: Fields): Option<(Option<int>, Option<int>)> { f.closing }
  function Reason(f: Fields): Option<Option<string>> { f.reason }
  function Lock(f: Fields): Option<(bool, Option<string>)> { f.lock }

  /** Every field of the issue holds what was last written to it. */
  ghost predicate AllRecorded(steps: seq<Step>, pk: PK)
    requires Exec(steps).Some? && pk in Exec(steps).value.db.issues && Linked(Exec(steps).value.db)
  {
    var db := Exec(steps).value.db;
    var row := db.issues[pk];
    && Recorded(steps, pk, Identity, (row.number, row.isPull))
    && Recorded(steps, pk, Title, row.title) && Recorded(steps, pk, Body, row.body) && Recorded(steps, pk, Milestone, row.milestone)
    && Recorded(steps, pk, Labels, db.labels[pk]) && Recorded(steps, pk, Assignees, db.assignees[pk])
    && Recorded(steps, pk, State, row.state) && Recorded(steps, pk, Closing, (row.closedAt, row.closedBy))
    && Recorded(steps, pk, Reason, row.stateReason) && Recorded(steps, pk, Lock, (row.locked, row.lockReason))
  }

  /** In every interleaving: title, body, milestone, labels, assignees, state, closing, reason and lock of an
      issue are each what was last written there, by its creation, an edit that named it, a lock or a merge. */
  lemma {:induction false} RunWritesExactly(steps: seq<Step>, pk: PK)
    requires Exec(steps).Some? && pk in Exec(steps).value.db.issues
    ensures Linked(Exec(steps).value.db) && AllRecorded(steps, pk)
  {
    RunLinked(steps);
    if steps != [] {
      ExecPrefix(steps);
      var front, step := steps[..|steps| - 1], steps[|steps| - 1];
      var s := Exec(front).value;
      RunKeeps(front);
      RunLinked(front);
      if pk in s.db.issues {
        RunWritesExactly(front, pk);
        StepWritesExactly(s, step, pk);
      } else {
        StepMakesExactly(s, step, pk);
      }
    }
  }

  lemma {:induction false} RunLinked(steps: seq<Step>)
    requires Exec(steps).Some?
    ensures Linked(Exec(steps).value.db)
  {
    if steps != [] {
      ExecPrefix(steps);
      var s, step := Exec(steps[..|steps| - 1]).value, steps[|steps| - 1];
      RunLinked(steps[..|steps| - 1]);
      RunKeeps(steps[..|steps| - 1]);
      forall pk | pk in Do(s, step).db.issues ensures pk in Do(s, step).db.labels && pk in Do(s, step).db.assignees {
        if pk in s.db.issues {
          StepWritesExactly(s, step, pk);
        } else {
          StepMakesExactly(s, step, pk);
        }
      }
    }
  }

  // ---- Pulls, the timeline and the numbers ----

  /** The merge a step records on a pull: when, by whom, and the commit. */
  function Merges(s: System, step: Step, pull: PK): Option<(int, int, string)>
    requires Enabled(s, step)
  {
    match step
    case EndMerge(op, actor, sha, now) => if s.ops[op].pull == pull && AsRead(s, op) then Some((now, actor, sha)) else None
    case _ => None
  }

  /** The pull a step opens: the issue it extends and the branches it joins. */
  function Opens(s: System, step: Step, pull: PK): Option<(PK, PullEnds)>
    requires Enabled(s, step)
  {
    match step
    case CreatePR(i) => if pull == s.db.nextPK then Some((pull, i.ends)) else None
    case _ => None
  }

  function LastMerge(steps: seq<Step>, pull: PK): Option<(int, int, string)>
    requires Exec(steps).Some?
  {
    if steps == [] then None
    else
      ExecPrefix(steps);
      var m := Merges(Exec(steps[..|steps| - 1]).value, steps[|steps| - 1], pull);
      if m.Some? then m else LastMerge(steps[..|steps| - 1], pull)
  }

  function Opening(steps: seq<Step>, pull: PK): Option<(PK, PullEnds)>
    requires Exec(steps).Some?
  {
    if steps == [] then None
    else
      ExecPrefix(steps);
      var o := Opens(Exec(steps[..|steps| - 1]).value, steps[|steps| - 1], pull);
      if o.Some? then o else Opening(steps[..|steps| - 1], pull)
  }

  /** The row tells of a merge exactly what was recorded. */
  predicate TellsMerge(row: PullRow, m: Option<(int, int, string)>) {
    && (row.merged <==> m.Some?)
    && row.mergedAt == (if m.Some? then Some(m.value.0) else None)
    && row.mergedBy == (if m.Some? then Some(m.value.1) else None)
    && row.mergeSHA == if m.Some? then m.value.2 else ""
  }

  /** What a step does to a pull row: what it opens or merges shows, and nothing else changes. */
  ghost predicate PullWritten(s: System, step: Step, pull: PK, now: PullRow)
    requires Enabled(s, step)
  {
    var o, m := Opens(s, step, pull), Merges(s, step, pull);
    if pull in s.db.pulls then
      var was := s.db.pulls[pull];
      && o.None? && now.issue == was.issue && now.ends == was.ends
      && if m.Some? then TellsMerge(now, m) else now == was
    else o == Some((now.issue, now.ends)) && TellsMerge(now, None) && m.None?
  }

  lemma MergePulls(s: System, op: nat, actor: int, sha: string, now: int, pull: PK)
    requires Inv(s) && Enabled(s, EndMerge(op, actor, sha, now)) && pull in Do(s, EndMerge(op, actor, sha, now)).db.pulls
    ensures PullWritten(s, EndMerge(op, actor, sha, now), pull, Do(s, EndMerge(op, actor, sha, now)).db.pulls[pull])
  {
    assert OpOk(s.db, s.ops[op]);
  }

  lemma OtherPulls(s: System, step: Step, pull: PK)
    requires Inv(s) && Enabled(s, step) && !step.EndMerge? && pull in Do(s, step).db.pulls
    ensures PullWritten(s, step, pull, Do(s, step).db.pulls[pull])
  {
    if step.CreatePR? {
      assert s.db.nextPK !in s.db.pulls;
    }
  }

  lemma StepPulls(s: System, step: Step, pull: PK)
    requires Inv(s) && Enabled(s, step) && pull in Do(s, step).db.pulls
    ensures PullWritten(s, step, pull, Do(s, step).db.pulls[pull])
  {
    match step
    case EndMerge(op, actor, sha, now) => MergePulls(s, op, actor, sha, now, pull);
    case _ => OtherPulls(s, step, pull);
  }

  /** In every interleaving a pull joins the branches it was opened with and tells of its merge exactly the
      time, the actor and the commit that were recorded. */
  lemma {:induction false} RunPullsExactly(steps: seq<Step>, pull: PK)
    requires Exec(steps).Some?
    ensures pull in Exec(steps).value.db.pulls <==> Opening(steps, pull).Some?
    ensures pull in Exec(steps).value.db.pulls ==>
              var row := Exec(steps).value.db.pulls[pull];
              Opening(steps, pull) == Some((row.issue, row.ends)) && TellsMerge(row, LastMerge(steps, pull))
    ensures pull !in Exec(steps).value.db.pulls ==> LastMerge(steps, pull).None?
  {
    if steps != [] {
      ExecPrefix(steps);
      var front, step := steps[..|steps| - 1], steps[|steps| - 1];
      RunPullsExactly(front, pull);
      RunKeeps(front);
      if pull in Do(Exec(front).value, step).db.pulls {
        StepPulls(Exec(front).value, step, pull);
      }
    }
  }

  /** The timeline entry of a step: one for a lock, and for an edit that changes the state. */
  function Entry(s: System, step: Step): seq<TimelineEvent>
    requires Enabled(s, step)
  {
    match step
    case EndEdit(op, actor, _) =>
      var w := s.ops[op];
      if !AsRead(s, op) || w.patch.state.None? || w.patch.state.value == w.row.state then []
      else [TimelineEvent(w.pk, actor, if w.patch.state.value == Closed then ClosedEvent else ReopenedEvent)]
    case EndLock(op, actor) =>
      var w := s.ops[op];
      if AsRead(s, op) then [TimelineEvent(w.pk, actor, if w.locked then LockedEvent else UnlockedEvent)] else []
    case _ => []
  }

  function Entries(steps: seq<Step>): seq<TimelineEvent>
    requires Exec(steps).Some?
  {
    if steps == [] then []
    else
      ExecPrefix(steps);
      Entries(steps[..|steps| - 1]) + Entry(Exec(steps[..|steps| - 1]).value, steps[|steps| - 1])
  }

  lemma StepLogs(s: System, step: Step)
    requires Inv(s) && Enabled(s, step)
    ensures Do(s, step).db.timeline == s.db.timeline + Entry(s, step)
  {
    if step.EndEdit? || step.EndLock? || step.EndMerge? {
      assert OpOk(s.db, s.ops[step.op]);
    }
  }

  /** The timeline is the entries of the steps, in their order. */
  lemma {:induction false} RunLogsExactly(steps: seq<Step>)
    requires Exec(steps).Some?
    ensures Exec(steps).value.db.timeline == Entries(steps)
  {
    if steps != [] {
      ExecPrefix(steps);
      RunLogsExactly(steps[..|steps| - 1]);
      RunKeeps(steps[..|steps| - 1]);
      StepLogs(Exec(steps[..|steps| - 1]).value, steps[|steps| - 1]);
    }
  }

  function Creations(steps: seq<Step>): nat {
    if steps == [] then 0
    else Creations(steps[..|steps| - 1]) + if steps[|steps| - 1].Create? || steps[|steps| - 1].CreatePR? then 1 else 0
  }

  /** Issues and pulls share one row of numbers, without a gap. */
  lemma {:induction false} NumbersHaveNoGap(steps: seq<Step>)
    requires Exec(steps).Some?
    ensures Exec(steps).value.db.nextNumber == Creations(steps) + 1
    ensures Exec(steps).value.db.nextPK == Creations(steps)
  {
    if steps != [] {
      ExecPrefix(steps);
      NumbersHaveNoGap(steps[..|steps| - 1]);
    }
  }

  // ---- Requests nobody disturbs ----

  /** An edit begun, read and committed with nothing in between has its effect. */
  lemma EditGoesThrough(s: System, op: nat, pk: PK, p: Patch, actor: int, now: int)
    requires Inv(s) && Linked(s.db) && pk in s.db.issues && op !in s.ops && !(p.state.Some? && p.state.value.Other?)
    ensures Enabled(s, BeginEdit(op, pk, p))
    ensures var t := Do(s, BeginEdit(op, pk, p));
            && Enabled(t, ReadEdit(op)) && Enabled(Do(t, ReadEdit(op)), EndEdit(op, actor, now))
            && var db := Do(Do(t, ReadEdit(op)), EndEdit(op, actor, now)).db;
               IssueWritten(Named(s.db.issues[pk], p, actor, now), s.db, db, pk)
  {
    var t := Do(s, BeginEdit(op, pk, p));
    StepKeeps(s, BeginEdit(op, pk, p));
    StepKeeps(t, ReadEdit(op));
    EditWrites(Do(t, ReadEdit(op)), op, actor, now, pk);
  }

  lemma LockGoesThrough(s: System, op: nat, pk: PK, locked: bool, reason: Option<string>, actor: int)
    requires Inv(s) && Linked(s.db) && pk in s.db.issues && op !in s.ops
    ensures Enabled(s, ReadLock(op, pk, locked, reason))
    ensures var t := Do(s, ReadLock(op, pk, locked, reason));
            && Enabled(t, EndLock(op, actor))
            && var db := Do(t, EndLock(op, actor)).db;
               pk in db.issues && db.issues[pk].locked == locked && db.issues[pk].lockReason == if locked then reason else None
  {
    var t := Do(s, ReadLock(op, pk, locked, reason));
    StepKeeps(s, ReadLock(op, pk, locked, reason));
    LockWrites(t, op, actor, pk);
  }

  /** So has the merge of an open pull. */
  lemma MergeGoesThrough(s: System, op: nat, pull: PK, actor: int, sha: string, now: int)
    requires Inv(s) && Linked(s.db) && op !in s.ops && pull in s.db.pulls && !s.db.pulls[pull].merged
    requires var pk := s.db.pulls[pull].issue; s.db.issues[pk].isPull && s.db.issues[pk].state == Open
    ensures var pk := s.db.pulls[pull].issue;
            && Enabled(s, ReadMergeIssue(op, pk))
            && var t := Do(s, ReadMergeIssue(op, pk));
               && Enabled(t, ReadMergePull(op, pull))
               && var u := Do(t, ReadMergePull(op, pull));
                  && Enabled(u, EndMerge(op, actor, sha, now))
                  && MergeShows(Do(u, EndMerge(op, actor, sha, now)).db, pull, pk, actor, sha, now)
  {
    var pk := s.db.pulls[pull].issue;
    var t := Do(s, ReadMergeIssue(op, pk));
    StepKeeps(s, ReadMergeIssue(op, pk));
    StepKeeps(t, ReadMergePull(op, pull));
    var u := Do(t, ReadMergePull(op, pull));
    MergeWrites(u, op, actor, sha, now, pk);
    StepPulls(u, EndMerge(op, actor, sha, now), pull);
  }

  ghost predicate MergeShows(db: Db, pull: PK, pk: PK, actor: int, sha: string, now: int) {
    && pull in db.pulls && TellsMerge(db.pulls[pull], Some((now, actor, sha)))
    && pk in db.issues && db.issues[pk].state == Closed && db.issues[pk].closedAt == Some(now) && db.issues[pk].closedBy == Some(actor)
  }
}
