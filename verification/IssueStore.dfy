/** One repository's issue and pull rows, its open-issue counter, and the transactions of
    domain/issue_service.go and domain/pr_service.go that write them under the optimistic lock. */
module IssueStore {
  import opened Strings

  type PK = nat

  datatype IssueState = Open | Closed | Other(text: string)

  datatype IssueRow = IssueRow(
    number: nat,
    isPull: bool,
    title: string,
    body: Option<string>,
    milestone: Option<int>,
    state: IssueState,
    stateReason: Option<string>,
    closedAt: Option<int>,
    closedBy: Option<int>,
    locked: bool,
    lockReason: Option<string>,
    version: nat)

  /** The branches a pull request joins, as they were when it was opened, and its options. */
  datatype PullEnds = PullEnds(baseRef: string, baseSha: string, headRef: string, headSha: string, draft: bool, maintainerCanModify: bool)

  datatype PullRow = PullRow(issue: PK, ends: PullEnds, merged: bool, mergedAt: Option<int>, mergedBy: Option<int>, mergeSHA: string)

  datatype EventKind = ClosedEvent | ReopenedEvent | LockedEvent | UnlockedEvent

  datatype TimelineEvent = TimelineEvent(issue: PK, actor: int, kind: EventKind)

  /** `merges` is history: how many times each pull was marked merged. */
  datatype Db = Db(
    issues: map<PK, IssueRow>,
    pulls: map<PK, PullRow>,
    labels: map<PK, set<int>>,
    assignees: map<PK, set<int>>,
    timeline: seq<TimelineEvent>,
    openIssues: int,
    nextNumber: nat,
    nextPK: PK,
    merges: map<PK, nat>)

  const Fresh := Db(map[], map[], map[], map[], [], 0, 1, 0, map[])

  /** A new issue, its names already looked up. */
  datatype IssueInput = IssueInput(title: string, body: Option<string>, milestone: Option<int>, labels: set<int>, assignees: set<int>)

  datatype PullInput = PullInput(title: string, body: Option<string>, ends: PullEnds)

  /** A patch, its names already looked up; a blank title, an unknown milestone, or a state other than
      open and closed is refused with nothing written. */
  datatype Patch = Patch(
    title: Option<string>,
    body: Option<string>,
    milestone: Option<Option<int>>,
    state: Option<IssueState>,
    stateReason: Option<string>,
    labels: Option<set<int>>,
    assignees: Option<set<int>>)

  function NewRow(number: nat, isPull: bool, title: string, body: Option<string>, milestone: Option<int>): IssueRow {
    IssueRow(number, isPull, title, body, milestone, Open, None, None, None, false, None, 0)
  }

  // ---- The transactions, on values ----

  function InsertIssue(db: Db, isPull: bool, i: IssueInput): Db {
    db.(issues := db.issues[db.nextPK := NewRow(db.nextNumber, isPull, i.title, i.body, i.milestone)],
        labels := db.labels[db.nextPK := i.labels], assignees := db.assignees[db.nextPK := i.assignees],
        nextNumber := db.nextNumber + 1, nextPK := db.nextPK + 1, openIssues := db.openIssues + 1)
  }

  function CreateIssue(db: Db, i: IssueInput): Db { InsertIssue(db, false, i) }

  function CreatePull(db: Db, i: PullInput): Db {
    var pk := db.nextPK;
    var db' := InsertIssue(db, true, IssueInput(i.title, i.body, None, {}, {}));
    db'.(pulls := db'.pulls[pk := PullRow(pk, i.ends, false, None, None, "")])
  }

  /** UpdateIssue: written only if the row still has the version that was read. */
  predicate Unmoved(db: Db, pk: PK, row: IssueRow) { pk in db.issues && db.issues[pk].version == row.version }

  function UpdateIssue(db: Db, pk: PK, row: IssueRow): Db {
    db.(issues := db.issues[pk := row.(version := row.version + 1)])
  }

  /** The row an edit writes over the one it read. */
  function Patched(row: IssueRow, p: Patch, actor: int, now: int): IssueRow {
    StatePatched(TextPatched(row, p), p, actor, now)
  }

  function TextPatched(row: IssueRow, p: Patch): IssueRow {
    row.(title := if p.title.Some? then p.title.value else row.title,
         body := if p.body.Some? then p.body else row.body,
         milestone := if p.milestone.Some? then p.milestone.value else row.milestone)
  }

  function StatePatched(row: IssueRow, p: Patch, actor: int, now: int): IssueRow {
    if p.state.Some? && p.state.value != row.state then
      match p.state.value
      case Closed =>
        row.(state := Closed, closedAt := Some(now), closedBy := Some(actor),
             stateReason := Some(if p.stateReason.Some? then p.stateReason.value else "completed"))
      case Open => row.(state := Open, closedAt := None, closedBy := None, stateReason := Some("reopened"))
      case Other(_) => row
    else if p.stateReason.Some? then row.(stateReason := p.stateReason)
    else row
  }

  /** The counter's change for an edit, from the state that was read. */
  function OpenDelta(row: IssueRow, p: Patch): int {
    if p.state.Some? && p.state.value != row.state then
      match p.state.value case Closed => -1 case Open => 1 case Other(_) => 0
    else 0
  }

  /** The timeline entry an edit calls for: one for a change of state, none otherwise. */
  function ActionOf(row: IssueRow, p: Patch): Option<EventKind> {
    if p.state.Some? && p.state.value != row.state then
      match p.state.value
      case Closed => Some(ClosedEvent)
      case Open => Some(ReopenedEvent)
      case Other(_) => None
    else None
  }

  function Logged(timeline: seq<TimelineEvent>, pk: PK, actor: int, action: Option<EventKind>): seq<TimelineEvent> {
    if action.Some? then timeline + [TimelineEvent(pk, actor, action.value)] else timeline
  }

  function Replaced(m: map<PK, set<int>>, pk: PK, given: Option<set<int>>): map<PK, set<int>> {
    if given.Some? then m[pk := given.value] else m
  }

  /** EditIssue's commit; None on a lost race. */
  function CommitEdit(db: Db, pk: PK, row: IssueRow, p: Patch, actor: int, now: int): Option<Db> {
    if !Unmoved(db, pk, row) then None
    else Some(UpdateIssue(db, pk, Patched(row, p, actor, now)).(
                labels := Replaced(db.labels, pk, p.labels), assignees := Replaced(db.assignees, pk, p.assignees),
                timeline := Logged(db.timeline, pk, actor, ActionOf(row, p)), openIssues := db.openIssues + OpenDelta(row, p)))
  }

  /** SetLocked's commit. */
  function CommitLock(db: Db, pk: PK, row: IssueRow, locked: bool, reason: Option<string>, actor: int): Option<Db> {
    if !Unmoved(db, pk, row) then None
    else Some(UpdateIssue(db, pk, row.(locked := locked, lockReason := if locked then reason else None)).(
                timeline := db.timeline + [TimelineEvent(pk, actor, if locked then LockedEvent else UnlockedEvent)]))
  }

  function MarkMerged(db: Db, pull: PK, actor: int, sha: string, now: int): Db
    requires pull in db.pulls
  {
    db.(pulls := db.pulls[pull := db.pulls[pull].(merged := true, mergedAt := Some(now), mergedBy := Some(actor), mergeSHA := sha)],
        merges := db.merges[pull := MergeCount(db, pull) + 1])
  }

  function MergeCount(db: Db, pull: PK): nat { if pull in db.merges then db.merges[pull] else 0 }

  function ClosedByMerge(row: IssueRow, actor: int, now: int): IssueRow {
    row.(state := Closed, closedAt := Some(now), closedBy := Some(actor), stateReason := Some("completed"))
  }

  /** Merge's commit: mark merged, close the issue, count it out; a lost race undoes all three. */
  function CommitMerge(db: Db, pk: PK, row: IssueRow, pull: PK, actor: int, sha: string, now: int): Option<Db>
    requires pull in db.pulls
  {
    if !Unmoved(db, pk, row) then None
    else
      var marked := MarkMerged(db, pull, actor, sha, now);
      Some(UpdateIssue(marked, pk, ClosedByMerge(row, actor, now)).(openIssues := db.openIssues - 1))
  }

  // ---- The transactions, as the code runs them ----

  class Store {
    var issues: map<PK, IssueRow>
    var pulls: map<PK, PullRow>
    var labels: map<PK, set<int>>
    var assignees: map<PK, set<int>>
    var timeline: seq<TimelineEvent>
    var openIssues: int
    var nextNumber: nat
    var nextPK: PK
    ghost var merges: map<PK, nat>

    ghost function View(): Db
      reads this
    {
      Db(issues, pulls, labels, assignees, timeline, openIssues, nextNumber, nextPK, merges)
    }

    constructor ()
      ensures View() == Fresh
    {
      issues, pulls, labels, assignees, timeline := map[], map[], map[], map[], [];
      openIssues, nextNumber, nextPK, merges := 0, 1, 0, map[];
    }

    method AllocIssueNumber() returns (n: nat)
      modifies this`nextNumber
      ensures n == old(nextNumber) && nextNumber == n + 1
    {
      n := nextNumber;
      nextNumber := nextNumber + 1;
    }

    method InsertIssueRow(row: IssueRow) returns (pk: PK)
      modifies this`issues, this`nextPK
      ensures pk == old(nextPK) && nextPK == pk + 1 && issues == old(issues)[pk := row]
    {
      pk := nextPK;
      nextPK := nextPK + 1;
      issues := issues[pk := row];
    }

    /** UpdateIssue: false is the optimistic-lock error. */
    method UpdateIssueRow(pk: PK, row: IssueRow) returns (ok: bool)
      modifies this`issues
      ensures ok == (pk in old(issues) && old(issues)[pk].version == row.version)
      ensures issues == if ok then old(issues)[pk := row.(version := row.version + 1)] else old(issues)
    {
      ok := pk in issues && issues[pk].version == row.version;
      if ok {
        issues := issues[pk := row.(version := row.version + 1)];
      }
    }

    method AdjustOpenIssuesCount(delta: int)
      modifies this`openIssues
      ensures openIssues == old(openIssues) + delta
    {
      openIssues := openIssues + delta;
    }

    method CreateIssueTx(i: IssueInput) returns (pk: PK)
      modifies this
      ensures View() == CreateIssue(old(View()), i) && pk == old(nextPK)
    {
      var n := AllocIssueNumber();
      pk := InsertIssueRow(NewRow(n, false, i.title, i.body, i.milestone));
      labels := labels[pk := i.labels];
      assignees := assignees[pk := i.assignees];
      AdjustOpenIssuesCount(1);
    }

    method CreatePullTx(i: PullInput) returns (pk: PK)
      modifies this
      ensures View() == CreatePull(old(View()), i) && pk == old(nextPK)
    {
      var n := AllocIssueNumber();
      pk := InsertIssueRow(NewRow(n, true, i.title, i.body, None));
      labels, assignees := labels[pk := {}], assignees[pk := {}];
      pulls := pulls[pk := PullRow(pk, i.ends, false, None, None, "")];
      AdjustOpenIssuesCount(1);
    }

    /** The body of EditIssue's transaction over the row it read; false is a lost race. */
    method EditIssueTx(pk: PK, read: IssueRow, p: Patch, actor: int, now: int) returns (ok: bool)
      modifies this
      ensures ok <==> CommitEdit(old(View()), pk, read, p, actor, now).Some?
      ensures View() == if ok then CommitEdit(old(View()), pk, read, p, actor, now).value else old(View())
    {
      var row, openDelta, action := PatchRow(read, p, actor, now);
      ok := UpdateIssueRow(pk, row);
      if !ok {
        return;
      }
      ReplaceLinks(pk, p);
      RecordAction(pk, actor, action, openDelta);
    }

    /** A change of state is logged and counted together. */
    method RecordAction(pk: PK, actor: int, action: Option<EventKind>, openDelta: int)
      requires action.None? ==> openDelta == 0
      modifies this`timeline, this`openIssues
      ensures timeline == Logged(old(timeline), pk, actor, action) && openIssues == old(openIssues) + openDelta
    {
      if action.Some? {
        timeline := timeline + [TimelineEvent(pk, actor, action.value)];
        AdjustOpenIssuesCount(openDelta);
      }
    }

    /** ReplaceLabels and ReplaceAssignees, each when the patch names them. */
    method ReplaceLinks(pk: PK, p: Patch)
      modifies this`labels, this`assignees
      ensures labels == Replaced(old(labels), pk, p.labels) && assignees == Replaced(old(assignees), pk, p.assignees)
    {
      if p.labels.Some? {
        labels := labels[pk := p.labels.value];
      }
      if p.assignees.Some? {
        assignees := assignees[pk := p.assignees.value];
      }
    }

    /** The fields the patch names, written over the row; a change of state calls for a timeline entry and
        a change of the counter. */
    method PatchRow(read: IssueRow, p: Patch, actor: int, now: int) returns (row: IssueRow, openDelta: int, action: Option<EventKind>)
      ensures row == Patched(read, p, actor, now) && openDelta == OpenDelta(read, p)
      ensures action == ActionOf(read, p) && (action.None? ==> openDelta == 0)
    {
      row, openDelta, action := read, 0, None;
      if p.title.Some? {
        row := row.(title := p.title.value);
      }
      if p.body.Some? {
        row := row.(body := p.body);
      }
      if p.milestone.Some? {
        row := row.(milestone := p.milestone.value);
      }
      row, openDelta, action := PatchState(read, row, p, actor, now);
    }

    /** The state's share of it: closing stamps the row, reopening clears it. */
    method PatchState(read: IssueRow, soFar: IssueRow, p: Patch, actor: int, now: int) returns (row: IssueRow, openDelta: int, action: Option<EventKind>)
      requires soFar.state == read.state
      ensures row == StatePatched(soFar, p, actor, now) && openDelta == OpenDelta(read, p)
      ensures action == ActionOf(read, p) && (action.None? ==> openDelta == 0)
    {
      row, openDelta, action := soFar, 0, None;
      if p.state.Some? && p.state.value != row.state {
        if p.state.value == Closed {
          row := row.(state := Closed, closedAt := Some(now), closedBy := Some(actor));
          row := row.(stateReason := Some(if p.stateReason.Some? then p.stateReason.value else "completed"));
          openDelta, action := -1, Some(ClosedEvent);
        } else if p.state.value == Open {
          row := row.(state := Open, closedAt := None, closedBy := None, stateReason := Some("reopened"));
          openDelta, action := 1, Some(ReopenedEvent);
        }
      } else if p.stateReason.Some? {
        row := row.(stateReason := p.stateReason);
      }
    }

    method SetLockedTx(pk: PK, read: IssueRow, locked: bool, reason: Option<string>, actor: int) returns (ok: bool)
      modifies this
      ensures ok <==> CommitLock(old(View()), pk, read, locked, reason, actor).Some?
      ensures View() == if ok then CommitLock(old(View()), pk, read, locked, reason, actor).value else old(View())
    {
      var row := read.(locked := locked, lockReason := None);
      if locked {
        row := row.(lockReason := reason);
      }
      ok := UpdateIssueRow(pk, row);
      if ok {
        timeline := timeline + [TimelineEvent(pk, actor, if locked then LockedEvent else UnlockedEvent)];
      }
    }

    /** Merge's transaction; the mark made before a lost race is rolled back. */
    method MergeTx(pk: PK, read: IssueRow, pull: PK, actor: int, sha: string, now: int) returns (ok: bool)
      requires pull in pulls
      modifies this
      ensures ok <==> CommitMerge(old(View()), pk, read, pull, actor, sha, now).Some?
      ensures View() == if ok then CommitMerge(old(View()), pk, read, pull, actor, sha, now).value else old(View())
    {
      var savedPulls := pulls;
      ghost var savedMerges := merges;
      pulls := pulls[pull := pulls[pull].(merged := true, mergedAt := Some(now), mergedBy := Some(actor), mergeSHA := sha)];
      merges := merges[pull := MergeCount(View(), pull) + 1];
      ok := UpdateIssueRow(pk, ClosedByMerge(read, actor, now));
      if !ok {
        pulls, merges := savedPulls, savedMerges;
        return;
      }
      AdjustOpenIssuesCount(-1);
    }
  }
}
