/** What a push does to the database: OnPush (domain/push.go), syncPulls (gittransport/receivepack.go)
    and OnHeadPush (domain/pr_service.go), run over the batch diffSnapshots finds. */
module PullSync {
  import opened Strings
  import opened Lists
  import opened Push
  import opened RepoCache
  import Decimal

  /** A pull request row with the state of its issue; `stamped` is the cached mergeability. */
  datatype Pull = Pull(headRef: string, baseRef: string, headSha: Sha, open: bool, merged: bool, stamped: bool)

  // The number of an issue or pull request within its repository.
  type Number = n: nat | n < 0x8000_0000_0000_0000

  type Pulls = map<Number, Pull>

  datatype Job = Reindex | Recompute(number: Number)

  datatype Event = Pushed(updates: seq<RefUpdate>) | Synchronized(number: Number, before: Sha, after: Sha)

  function HeadRef(number: Number): string { "refs/pull/" + (Decimal.FormatInt(number) + "/head") }

  /** Two pull requests never share a head ref. */
  lemma HeadRefInjective(a: Number, b: Number)
    requires HeadRef(a) == HeadRef(b)
    ensures a == b
  {
    var x, y := Decimal.FormatInt(a), Decimal.FormatInt(b);
    assert HeadRef(a)[|"refs/pull/"|..] == x + "/head" && HeadRef(b)[|"refs/pull/"|..] == y + "/head";
    assert |x + "/head"| == |y + "/head"|;
    assert x == (x + "/head")[..|x|] && y == (y + "/head")[..|y|];
    Decimal.FormatIntInjective(a, b);
  }

  /** OpenPullsByHeadRef: every pull on the branch that is not merged, closed ones too. */
  function OnHead(pulls: Pulls, branch: string): set<Number> {
    set n | n in pulls && !pulls[n].merged && pulls[n].headRef == branch
  }

  /** OpenPullsByBaseRef. */
  function OnBase(pulls: Pulls, branch: string): set<Number> {
    set n | n in pulls && !pulls[n].merged && pulls[n].baseRef == branch
  }

  // ---- What moved branches mean for the pull requests ----

  /** The unmerged pulls whose head branch moved, with the tip each must record. */
  function Moves(pulls: Pulls, tips: map<string, Sha>): map<Number, Sha> {
    map n | n in pulls && !pulls[n].merged && pulls[n].headRef in tips :: tips[pulls[n].headRef]
  }

  /** The unmerged pulls with a moved branch on either side. */
  function Touched(pulls: Pulls, tips: map<string, Sha>): set<Number> {
    set n | n in pulls && !pulls[n].merged && (pulls[n].headRef in tips || pulls[n].baseRef in tips)
  }

  /** The moved pulls record their tips and lose their cached mergeability; the others stay. */
  function Repointed(pulls: Pulls, moves: map<Number, Sha>): Pulls {
    map n | n in pulls :: if n in moves then pulls[n].(headSha := moves[n], stamped := false) else pulls[n]
  }

  /** Each moved pull's own head ref is at its tip; every other ref is where it was. */
  ghost predicate RefsFollow(was: Refs, now: Refs, moves: map<Number, Sha>) {
    && (forall n :: n in moves ==> HeadRef(n) in now && now[HeadRef(n)] == moves[n])
    && (forall name :: (forall n :: n in moves ==> HeadRef(n) != name) ==> Same(was, now, name))
  }

  /** A recompute for each of the pulls, and nothing else. */
  ghost predicate JobsFor(jobs: seq<Job>, touched: set<Number>) {
    forall j :: j in jobs <==> j.Recompute? && j.number in touched
  }

  /** One synchronize event with both ends for each pull whose head changed, and nothing else. */
  ghost predicate EventsFor(events: seq<Event>, pulls: Pulls, moves: map<Number, Sha>) {
    && NoDuplicates(events)
    && forall e :: e in events <==>
         (&& e.Synchronized? && e.number in moves && e.number in pulls
          && e.before == pulls[e.number].headSha && e.after == moves[e.number] && e.before != e.after)
  }

  // ---- One batch after another ----

  lemma RefsCompose(a: Refs, b: Refs, c: Refs, first: map<Number, Sha>, second: map<Number, Sha>)
    requires RefsFollow(a, b, first) && RefsFollow(b, c, second)
    ensures RefsFollow(a, c, first + second)
  {
    var moves := first + second;
    forall n | n in moves ensures HeadRef(n) in c && c[HeadRef(n)] == moves[n] {
      if n !in second {
        forall k | k in second ensures HeadRef(k) != HeadRef(n) {
          if HeadRef(k) == HeadRef(n) { HeadRefInjective(k, n); }
        }
        assert Same(b, c, HeadRef(n));
      }
    }
    forall name | forall n :: n in moves ==> HeadRef(n) != name ensures Same(a, c, name) {
      assert forall n :: n in first ==> n in moves;
      assert forall n :: n in second ==> n in moves;
      assert Same(a, b, name) && Same(b, c, name);
    }
  }

  lemma RepointedCompose(pulls: Pulls, first: map<Number, Sha>, second: map<Number, Sha>)
    ensures Repointed(Repointed(pulls, first), second) == Repointed(pulls, first + second)
  {
  }

  lemma EventsCompose(x: seq<Event>, y: seq<Event>, pulls: Pulls, first: map<Number, Sha>, second: map<Number, Sha>)
    requires first.Keys !! second.Keys
    requires EventsFor(x, pulls, first) && EventsFor(y, Repointed(pulls, first), second)
    ensures EventsFor(x + y, pulls, first + second)
  {
    forall i, j | 0 <= i < |x| && 0 <= j < |y| ensures x[i] != y[j] {
      assert x[i] in x && y[j] in y;
    }
  }

  /** A repository's refs and pull request rows, its job queue, its event log and the time of
      its last push. */
  datatype State = State(refs: Refs, pulls: Pulls, jobs: seq<Job>, events: seq<Event>, pushedAt: Option<int>)

  /** Between two states exactly these pulls were moved and exactly these queued for a recompute. */
  ghost predicate Synced(was: State, now: State, moves: map<Number, Sha>, touched: set<Number>) {
    && now.pulls == Repointed(was.pulls, moves)
    && RefsFollow(was.refs, now.refs, moves)
    && was.jobs <= now.jobs && JobsFor(now.jobs[|was.jobs|..], touched)
    && was.events <= now.events && EventsFor(now.events[|was.events|..], was.pulls, moves)
    && now.pushedAt == was.pushedAt
  }

  lemma SyncedCompose(a: State, b: State, c: State, first: map<Number, Sha>, second: map<Number, Sha>, x: set<Number>, y: set<Number>)
    requires Synced(a, b, first, x) && Synced(b, c, second, y) && first.Keys !! second.Keys
    ensures Synced(a, c, first + second, x + y)
  {
    RepointedCompose(a.pulls, first, second);
    RefsCompose(a.refs, b.refs, c.refs, first, second);
    EventsCompose(b.events[|a.events|..], c.events[|b.events|..], a.pulls, first, second);
    assert c.events[|a.events|..] == b.events[|a.events|..] + c.events[|b.events|..];
    JobsCompose(b.jobs[|a.jobs|..], c.jobs[|b.jobs|..], x, y);
    assert c.jobs[|a.jobs|..] == b.jobs[|a.jobs|..] + c.jobs[|b.jobs|..];
  }

  lemma JobsCompose(a: seq<Job>, b: seq<Job>, x: set<Number>, y: set<Number>)
    requires JobsFor(a, x) && JobsFor(b, y)
    ensures JobsFor(a + b, x + y)
  {
  }

  /** Repointing changes neither who follows a branch nor who is based on it. */
  lemma RepointingKeepsMoves(pulls: Pulls, moves: map<Number, Sha>, tips: map<string, Sha>)
    ensures Moves(Repointed(pulls, moves), tips) == Moves(pulls, tips)
    ensures Touched(Repointed(pulls, moves), tips) == Touched(pulls, tips)
  {
  }

  lemma MovesUpdate(pulls: Pulls, tips: map<string, Sha>, branch: string, sha: Sha)
    requires branch !in tips
    ensures Moves(pulls, tips[branch := sha]) == Moves(pulls, tips) + Moves(pulls, map[branch := sha])
    ensures Moves(pulls, tips).Keys !! Moves(pulls, map[branch := sha]).Keys
  {
    var all, first, second := Moves(pulls, tips[branch := sha]), Moves(pulls, tips), Moves(pulls, map[branch := sha]);
    forall n | n in all ensures n in first + second && (first + second)[n] == all[n] {
      assert n in second <==> pulls[n].headRef == branch;
    }
    assert all == first + second;
  }

  lemma TouchedUpdate(pulls: Pulls, tips: map<string, Sha>, branch: string, sha: Sha)
    ensures Touched(pulls, tips[branch := sha]) == Touched(pulls, tips) + Touched(pulls, map[branch := sha])
  {
  }

  lemma HeadsMoved(pulls: Pulls, branch: string, sha: Sha, moved: map<Number, Sha>)
    requires forall n :: n in OnHead(pulls, branch) <==> n in moved
    requires forall n :: n in moved ==> moved[n] == sha
    ensures moved == Moves(pulls, map[branch := sha]) && moved.Keys == OnHead(pulls, branch)
  {
  }

  lemma TouchedByOne(pulls: Pulls, moves: map<Number, Sha>, branch: string, sha: Sha)
    ensures OnHead(pulls, branch) + OnBase(Repointed(pulls, moves), branch) == Touched(pulls, map[branch := sha])
  {
  }

  /** The branches pushed so far, and one more. */
  lemma SyncedBranch(was: State, mid: State, now: State, tips: map<string, Sha>, branch: string, sha: Sha)
    requires branch !in tips && Synced(was, mid, Moves(was.pulls, tips), Touched(was.pulls, tips))
    requires Synced(mid, now, Moves(mid.pulls, map[branch := sha]), Touched(mid.pulls, map[branch := sha]))
    ensures Synced(was, now, Moves(was.pulls, tips[branch := sha]), Touched(was.pulls, tips[branch := sha]))
  {
    var tip := map[branch := sha];
    RepointingKeepsMoves(was.pulls, Moves(was.pulls, tips), tip);
    MovesUpdate(was.pulls, tips, branch, sha);
    TouchedUpdate(was.pulls, tips, branch, sha);
    SyncedCompose(was, mid, now, Moves(was.pulls, tips), Moves(was.pulls, tip), Touched(was.pulls, tips), Touched(was.pulls, tip));
  }

  lemma AddOne(moved: map<Number, Sha>, n: Number, sha: Sha)
    ensures moved + map[n := sha] == moved[n := sha] && moved[n := sha].Keys == moved.Keys + {n}
  {
  }

  lemma SyncedOneMore(a: State, b: State, c: State, moved: map<Number, Sha>, n: Number, sha: Sha)
    requires Synced(a, b, moved, moved.Keys) && Synced(b, c, map[n := sha], {n}) && n !in moved
    ensures Synced(a, c, moved[n := sha], moved[n := sha].Keys)
  {
    SyncedCompose(a, b, c, moved, map[n := sha], moved.Keys, {n});
    AddOne(moved, n, sha);
  }

  // ---- The same in terms of the refs before and after the push ----

  /** The unmerged pulls whose head branch is there afterwards at another tip, with that tip. */
  function Owed(before: Refs, after: Refs, pulls: Pulls): map<Number, Sha> {
    map n | n in pulls && !pulls[n].merged && Moved(before, after, pulls[n].headRef) :: after[BranchRef(pulls[n].headRef)]
  }

  /** The unmerged pulls with such a branch on either side. */
  function Stale(before: Refs, after: Refs, pulls: Pulls): set<Number> {
    set n | n in pulls && !pulls[n].merged && (Moved(before, after, pulls[n].headRef) || Moved(before, after, pulls[n].baseRef))
  }

  lemma BatchMoves(before: Refs, after: Refs, updates: seq<RefUpdate>, pulls: Pulls)
    requires IsDiff(before, after, updates)
    ensures Moves(pulls, Tips(updates)) == Owed(before, after, pulls)
    ensures Touched(pulls, Tips(updates)) == Stale(before, after, pulls)
  {
    var tips := Tips(updates);
    forall branch ensures (branch in tips <==> Moved(before, after, branch)) && (branch in tips ==> tips[branch] == after[BranchRef(branch)]) {
      DiffTips(before, after, updates, branch);
    }
    MovesAreOwed(before, after, tips, pulls);
    TouchedAreStale(before, after, tips, pulls);
  }

  lemma MovesAreOwed(before: Refs, after: Refs, tips: map<string, Sha>, pulls: Pulls)
    requires forall branch :: branch in tips <==> Moved(before, after, branch)
    requires forall branch :: branch in tips ==> BranchRef(branch) in after && tips[branch] == after[BranchRef(branch)]
    ensures Moves(pulls, tips) == Owed(before, after, pulls)
  {
  }

  lemma TouchedAreStale(before: Refs, after: Refs, tips: map<string, Sha>, pulls: Pulls)
    requires forall branch :: branch in tips <==> Moved(before, after, branch)
    ensures Touched(pulls, tips) == Stale(before, after, pulls)
  {
  }

  lemma DefaultMoved(before: Refs, after: Refs, updates: seq<RefUpdate>, branch: string)
    requires IsDiff(before, after, updates)
    ensures Moved(before, after, branch) <==> exists i :: 0 <= i < |updates| && updates[i].name == BranchRef(branch) && !updates[i].Deleted()
  {
    DiffTips(before, after, updates, branch);
    TipsAt(updates, branch);
  }

  lemma EmptyDiff(before: Refs, after: Refs, updates: seq<RefUpdate>)
    requires IsDiff(before, after, updates)
    ensures updates == [] <==> before == after
  {
    if updates == [] {
      forall name ensures Same(before, after, name) {
        assert !Names(updates, name);
      }
      SameRefs(before, after);
    } else {
      assert Names(updates, updates[0].name);
    }
  }

  // ---- Which pulls a push moves ----

  /** The rows a push of these refs rewrites or leaves as they are. */
  function AfterPush(before: Refs, after: Refs, pulls: Pulls): Pulls { Repointed(pulls, Owed(before, after, pulls)) }

  /** OpenPullsByHeadRef promises open pulls and selects the unmerged ones. A push records new tips for
      open pulls only, exactly when no unmerged pull that is closed has its head branch moved. */
  lemma OnlyOpenPullsMoveExactly(before: Refs, after: Refs, pulls: Pulls)
    ensures (forall n :: n in Owed(before, after, pulls) ==> pulls[n].open) <==>
              (forall n :: n in pulls && !pulls[n].open && !pulls[n].merged ==> !Moved(before, after, pulls[n].headRef))
  {
    forall n | n in pulls && !pulls[n].open && !pulls[n].merged && Moved(before, after, pulls[n].headRef)
      ensures n in Owed(before, after, pulls)
    {
    }
  }

  /** A pull closed without a merge is rewritten like an open one when its branch moves: it records the
      new tip and loses its stamp. */
  lemma ClosedPullMoves(before: Refs, after: Refs, pulls: Pulls, n: Number)
    requires n in pulls && !pulls[n].open && !pulls[n].merged && Moved(before, after, pulls[n].headRef)
    ensures AfterPush(before, after, pulls)[n] == pulls[n].(headSha := after[BranchRef(pulls[n].headRef)], stamped := false)
  {
    assert n in Owed(before, after, pulls);
  }

  /** A branch is there after the push, and was not there before at the same tip. */
  predicate TipMoved(before: Refs, after: Refs, branch: string) {
    var name := "refs/heads/" + branch;
    && name in after && after[name] != "" && after[name] != "0000000000000000000000000000000000000000"
    && (name !in before || before[name] != after[name])
  }

  /** Row by row and pull by pull: what a push writes, and which pulls it queues. */
  lemma PushRowsExactly(before: Refs, after: Refs, pulls: Pulls, n: Number)
    ensures n in AfterPush(before, after, pulls) <==> n in pulls
    ensures n in pulls ==> (AfterPush(before, after, pulls)[n] ==
              if !pulls[n].merged && TipMoved(before, after, pulls[n].headRef)
              then pulls[n].(headSha := after["refs/heads/" + pulls[n].headRef], stamped := false) else pulls[n])
    ensures n in Stale(before, after, pulls) <==>
              n in pulls && !pulls[n].merged && (TipMoved(before, after, pulls[n].headRef) || TipMoved(before, after, pulls[n].baseRef))
  {
    forall branch ensures Moved(before, after, branch) <==> TipMoved(before, after, branch) { }
  }

  // ---- Runs of pushes ----

  /** The refs and the rows between two pushes. */
  datatype Snapshot = Snapshot(refs: Refs, pulls: Pulls)

  /** One push that leaves git's refs at `after`. */
  ghost predicate IsPush(was: Snapshot, after: Refs, now: Snapshot) {
    now.pulls == AfterPush(was.refs, after, was.pulls) && RefsFollow(after, now.refs, Owed(was.refs, after, was.pulls))
  }

  /** Every unmerged pull whose branch exists records that branch's tip. */
  ghost predicate TracksHeads(s: Snapshot) {
    forall n :: n in s.pulls && !s.pulls[n].merged && BranchRef(s.pulls[n].headRef) in s.refs ==>
      s.pulls[n].headSha == s.refs[BranchRef(s.pulls[n].headRef)]
  }

  /** Writing the pulls' own head refs touches no branch. */
  lemma BranchesStay(after: Refs, now: Refs, moves: map<Number, Sha>, branch: string)
    requires RefsFollow(after, now, moves)
    ensures Same(after, now, BranchRef(branch))
  {
    forall k | k in moves ensures HeadRef(k) != BranchRef(branch) {
      assert HeadRef(k)[5] == 'p' && BranchRef(branch)[5] == 'h';
    }
  }

  /** A push keeps every recorded head at its branch's tip, whatever refs it moved. */
  lemma PushKeepsTracking(was: Snapshot, after: Refs, now: Snapshot)
    requires TracksHeads(was) && Stored(after) && IsPush(was, after, now)
    ensures TracksHeads(now)
  {
    var owed := Owed(was.refs, after, was.pulls);
    forall n | n in now.pulls && !now.pulls[n].merged && BranchRef(now.pulls[n].headRef) in now.refs
      ensures now.pulls[n].headSha == now.refs[BranchRef(now.pulls[n].headRef)]
    {
      BranchesStay(after, now.refs, owed, was.pulls[n].headRef);
      assert n !in owed ==> Same(was.refs, after, BranchRef(was.pulls[n].headRef));
    }
  }

  /** Some pushes one after another, with what git left each time. */
  ghost predicate IsRun(trace: seq<Snapshot>, afters: seq<Refs>) {
    |trace| == |afters| + 1 && forall k :: 0 <= k < |afters| ==> Stored(afters[k]) && IsPush(trace[k], afters[k], trace[k + 1])
  }

  /** Through any run of pushes every recorded head stays at its branch's tip. */
  lemma {:induction false} RunsKeepTracking(trace: seq<Snapshot>, afters: seq<Refs>, k: nat)
    requires IsRun(trace, afters) && TracksHeads(trace[0]) && k < |trace|
    ensures TracksHeads(trace[k])
  {
    if k > 0 {
      RunsKeepTracking(trace, afters, k - 1);
      assert Stored(afters[k - 1]) && IsPush(trace[k - 1], afters[k - 1], trace[k - 1 + 1]);
      PushKeepsTracking(trace[k - 1], afters[k - 1], trace[k]);
    }
  }

  /** A pull whose head branch no push of the run moves keeps its row throughout. */
  lemma {:induction false} UntouchedStays(trace: seq<Snapshot>, afters: seq<Refs>, k: nat, n: Number)
    requires IsRun(trace, afters) && k < |trace| && n in trace[0].pulls
    requires forall j :: 0 <= j < |afters| ==> !Moved(trace[j].refs, afters[j], trace[0].pulls[n].headRef)
    ensures n in trace[k].pulls && trace[k].pulls[n] == trace[0].pulls[n]
  {
    if k > 0 {
      UntouchedStays(trace, afters, k - 1, n);
      assert IsPush(trace[k - 1], afters[k - 1], trace[k - 1 + 1]);
      assert !Moved(trace[k - 1].refs, afters[k - 1], trace[0].pulls[n].headRef);
    }
  }

  class Sink {
    const defaultBranch: string
    var refs: Refs
    var pulls: Pulls
    var jobs: seq<Job>
    var events: seq<Event>
    var pushedAt: Option<int>

    constructor (defaultBranch: string, refs: Refs, pulls: Pulls)
      ensures this.defaultBranch == defaultBranch && View() == State(refs, pulls, [], [], None)
    {
      this.defaultBranch, this.refs, this.pulls := defaultBranch, refs, pulls;
      jobs, events, pushedAt := [], [], None;
    }

    ghost function View(): State
      reads this
    {
      State(refs, pulls, jobs, events, pushedAt)
    }

    /** OnPush: the time of the push, its event, and one reindex when the default branch is among the
        moved ones. */
    method OnPush(updates: seq<RefUpdate>, at: int)
      modifies this`jobs, this`events, this`pushedAt
      ensures pushedAt == if updates == [] then old(pushedAt) else Some(at)
      ensures events == old(events) + if updates == [] then [] else [Pushed(updates)]
      ensures jobs == old(jobs) + if exists i :: 0 <= i < |updates| && updates[i].name == BranchRef(defaultBranch) && !updates[i].Deleted() then [Reindex] else []
    {
      if updates == [] {
        return;
      }
      pushedAt := Some(at);
      events := events + [Pushed(updates)];
      for i := 0 to |updates|
        invariant jobs == old(jobs)
        invariant forall k :: 0 <= k < i ==> !(updates[k].name == BranchRef(defaultBranch) && !updates[k].Deleted())
      {
        if updates[i].name == BranchRef(defaultBranch) && !updates[i].Deleted() {
          jobs := jobs + [Reindex];
          break;
        }
      }
    }

    /** One pull on a pushed branch: its row, its head ref, its recompute and its event. */
    method Repoint(n: Number, newSha: Sha)
      requires n in pulls
      modifies this
      ensures Synced(old(View()), View(), map[n := newSha], {n})
    {
      var before := pulls[n].headSha;
      pulls := pulls[n := pulls[n].(headSha := newSha, stamped := false)];
      refs := refs[HeadRef(n) := newSha];
      jobs := jobs + [Recompute(n)];
      if before != newSha {
        events := events + [Synchronized(n, before, newSha)];
      }
      assert forall name :: name != HeadRef(n) ==> Same(old(refs), refs, name);
    }

    /** The first loop of OnHeadPush: each pull on the branch, in whatever order the rows come. */
    method RepointHeads(branch: string, newSha: Sha)
      modifies this
      ensures Synced(old(View()), View(), Moves(old(pulls), map[branch := newSha]), OnHead(old(pulls), branch))
    {
      var rows, todo := pulls, OnHead(pulls, branch);
      ghost var was := View();
      ghost var moved: map<Number, Sha> := map[];
      while todo != {}
        invariant forall n :: n in OnHead(rows, branch) <==> n in moved || n in todo
        invariant forall n :: n in moved ==> n !in todo && moved[n] == newSha
        invariant Synced(was, View(), moved, moved.Keys)
        decreases |todo|
      {
        var n :| n in todo;
        ghost var before := View();
        Repoint(n, newSha);
        todo := todo - {n};
        SyncedOneMore(was, before, View(), moved, n, newSha);
        moved := moved[n := newSha];
      }
      HeadsMoved(rows, branch, newSha, moved);
    }

    /** The second loop: the pulls based on the branch are only queued. */
    method RecheckBases(branch: string)
      modifies this`jobs
      ensures old(jobs) <= jobs && JobsFor(jobs[|old(jobs)|..], OnBase(pulls, branch))
    {
      var todo := OnBase(pulls, branch);
      ghost var done: set<Number> := {};
      while todo != {}
        invariant done + todo == OnBase(pulls, branch)
        invariant old(jobs) <= jobs && JobsFor(jobs[|old(jobs)|..], done)
        decreases |todo|
      {
        var n :| n in todo;
        ghost var was := jobs[|old(jobs)|..];
        jobs := jobs + [Recompute(n)];
        assert jobs[|old(jobs)|..] == was + [Recompute(n)];
        todo, done := todo - {n}, done + {n};
      }
    }

    /** OnHeadPush: the pulls on the branch follow it, and those based on it are checked again. */
    method OnHeadPush(branch: string, newSha: Sha)
      modifies this
      ensures Synced(old(View()), View(), Moves(old(pulls), map[branch := newSha]), Touched(old(pulls), map[branch := newSha]))
    {
      ghost var was, moves := View(), Moves(pulls, map[branch := newSha]);
      RepointHeads(branch, newSha);
      ghost var mid := View();
      RecheckBases(branch);
      QueuedOnly(mid, View(), OnBase(pulls, branch));
      SyncedCompose(was, mid, View(), moves, map[], OnHead(was.pulls, branch), OnBase(pulls, branch));
      assert moves + map[] == moves;
      TouchedByOne(was.pulls, moves, branch, newSha);
    }

    /** syncPulls: every branch of the batch that is not a deletion, in the batch's order. */
    method SyncPulls(updates: seq<RefUpdate>)
      requires forall i, j :: 0 <= i < j < |updates| ==> updates[i].name != updates[j].name
      modifies this
      ensures Synced(old(View()), View(), Moves(old(pulls), Tips(updates)), Touched(old(pulls), Tips(updates)))
    {
      ghost var was := View();
      ghost var tips: map<string, Sha> := map[];
      NothingToSync(was);
      for i := 0 to |updates|
        invariant tips == Tips(updates[..i])
        invariant Synced(was, View(), Moves(was.pulls, tips), Touched(was.pulls, tips))
      {
        TipsSnoc(updates, i);
        var branch := BranchOf(updates[i].name);
        if branch.Some? && !updates[i].Deleted() {
          ghost var mid := View();
          OnHeadPush(branch.value, updates[i].newSha);
          SyncedBranch(was, mid, View(), tips, branch.value, updates[i].newSha);
          tips := tips[branch.value := updates[i].newSha];
        }
      }
      assert updates[..|updates|] == updates;
    }

    /** handleReceivePack: git leaves the refs at `after` and the warm handles are dropped; then the batch
        found is recorded, queued and synced. An unchanged repository records nothing. */
    method ReceivePack(after: Refs, at: int, cache: HandleCache, dir: Dir) returns (updates: seq<RefUpdate>)
      requires cache.IsValid()
      modifies this, cache
      ensures cache.IsValid() && cache.View() == AfterInvalidate(old(cache.View()), dir)
      ensures IsDiff(old(refs), after, updates)
      ensures Synced(Recorded(old(View()), after, updates, at), View(), Owed(old(refs), after, old(pulls)), Stale(old(refs), after, old(pulls)))
      ensures IsPush(old(Snapshot(refs, pulls)), after, Snapshot(refs, pulls))
    {
      ghost var was := View();
      var before := refs;
      refs := after;
      cache.Invalidate(dir);
      updates := DiffSnapshots(before, refs);
      BatchMoves(was.refs, after, updates, pulls);
      DefaultMoved(was.refs, after, updates, defaultBranch);
      EmptyDiff(was.refs, after, updates);
      if updates == [] {
        assert View() == Recorded(was, after, updates, at);
        NothingToSync(View());
      } else {
        OnPush(updates, at);
        assert View() == Recorded(was, after, updates, at);
        SyncPulls(updates);
      }
      SyncedIsPush(Snapshot(was.refs, was.pulls), Recorded(was, after, updates, at), View(), Stale(was.refs, after, was.pulls));
    }

    /** After git's own write and OnPush: a time and an event unless nothing moved, and one reindex
        exactly when the default branch is there at another tip. */
    ghost function Recorded(was: State, after: Refs, updates: seq<RefUpdate>, at: int): State {
      State(after, was.pulls,
        was.jobs + if Moved(was.refs, after, defaultBranch) then [Reindex] else [],
        was.events + if was.refs == after then [] else [Pushed(updates)],
        if was.refs == after then was.pushedAt else Some(at))
    }
  }

  lemma QueuedOnly(was: State, now: State, touched: set<Number>)
    requires now.refs == was.refs && now.pulls == was.pulls && now.events == was.events && now.pushedAt == was.pushedAt
    requires was.jobs <= now.jobs && JobsFor(now.jobs[|was.jobs|..], touched)
    ensures Synced(was, now, map[], touched)
  {
  }

  lemma SyncedIsPush(was: Snapshot, recorded: State, now: State, touched: set<Number>)
    requires recorded.pulls == was.pulls && Synced(recorded, now, Owed(was.refs, recorded.refs, was.pulls), touched)
    ensures IsPush(was, recorded.refs, Snapshot(now.refs, now.pulls))
  {
  }

  lemma NothingToSync(s: State)
    ensures Synced(s, s, Moves(s.pulls, Tips([])), Touched(s.pulls, Tips([])))
  {
    QueuedOnly(s, s, {});
    assert Moves(s.pulls, Tips([])) == map[] && Touched(s.pulls, Tips([])) == {};
  }

  lemma TipsSnoc(updates: seq<RefUpdate>, i: nat)
    requires i < |updates| && forall i, j :: 0 <= i < j < |updates| ==> updates[i].name != updates[j].name
    ensures BranchOf(updates[i].name).Some? && !updates[i].Deleted() ==>
              BranchOf(updates[i].name).value !in Tips(updates[..i])
              && Tips(updates[..i + 1]) == Tips(updates[..i])[BranchOf(updates[i].name).value := updates[i].newSha]
    ensures BranchOf(updates[i].name).None? || updates[i].Deleted() ==> Tips(updates[..i + 1]) == Tips(updates[..i])
  {
    assert updates[..i + 1][..i] == updates[..i];
    if BranchOf(updates[i].name).Some? {
      TipsAt(updates[..i], BranchOf(updates[i].name).value);
    }
  }
}
