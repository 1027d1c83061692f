/** The checkout protocol over the warm-handle cache: every interleaving of Open, Release and
    InvalidateRepo, each locked section one step, the opening of a cold handle a step of its own. */
module Checkout {
  import opened Strings
  import opened RepoCache

  type Client = nat

  /** A Repo a caller holds. `life` and `epoch` are history: which creation of the directory's entry
      the checkout used, and how many invalidations of the directory came before it. */
  datatype Holder = Holder(dir: Dir, gen: nat, handle: Handle, life: nat, epoch: nat)

  /** A caller between a cold acquire and its PlainOpen. */
  datatype Opener = Opener(dir: Dir, gen: nat, life: nat, epoch: nat)

  datatype System = System(
    cache: Cache,
    held: map<Client, Holder>,
    opening: map<Client, Opener>,
    nextHandle: Handle,
    pushes: map<Dir, nat>,
    lives: map<Dir, nat>,
    seen: map<Handle, nat>)

  datatype Step =
    | Acquire(client: Client, dir: Dir)
    | Opened(client: Client)
    | OpenFailed(client: Client)
    | Release(client: Client)
    | Discard(client: Client)
    | Push(dir: Dir)

  function Count(m: map<Dir, nat>, d: Dir): nat { if d in m then m[d] else 0 }

  function Initial(max: int, perRepo: int): System {
    System(Empty(max, perRepo), map[], map[], 0, map[], map[], map[])
  }

  predicate Enabled(s: System, step: Step) {
    match step
    case Acquire(c, _) => c !in s.held && c !in s.opening
    case Opened(c) => c in s.opening
    case OpenFailed(c) => c in s.opening
    case Release(c) => c in s.held
    case Discard(c) => c in s.held
    case Push(_) => true
  }

  function Do(s: System, step: Step): System
    requires Enabled(s, step)
  {
    match step
    case Acquire(c, d) =>
      var a := AfterAcquire(s.cache, d);
      var lives := if d in s.cache.entries then s.lives else s.lives[d := Count(s.lives, d) + 1];
      var life, epoch := Count(lives, d), Count(s.pushes, d);
      (match a.handle
       case Some(h) => s.(cache := a.cache, lives := lives, held := s.held[c := Holder(d, a.gen, h, life, epoch)],
                          seen := s.seen[h := epoch])
       case None => s.(cache := a.cache, lives := lives, opening := s.opening[c := Opener(d, a.gen, life, epoch)]))
    case Opened(c) =>
      var o := s.opening[c];
      s.(opening := s.opening - {c}, nextHandle := s.nextHandle + 1,
         held := s.held[c := Holder(o.dir, o.gen, s.nextHandle, o.life, o.epoch)],
         seen := s.seen[s.nextHandle := o.epoch])
    case OpenFailed(c) => s.(opening := s.opening - {c})
    case Release(c) =>
      var r := s.held[c];
      s.(cache := AfterRelease(s.cache, r.dir, r.gen, r.handle), held := s.held - {c})
    case Discard(c) => s.(held := s.held - {c})
    case Push(d) =>
      s.(cache := AfterInvalidate(s.cache, d), pushes := s.pushes[d := Count(s.pushes, d) + 1])
  }

  /** The state after a run, when every step of it could be taken. */
  function Exec(s: System, steps: seq<Step>): Option<System> {
    if steps == [] then Some(s)
    else match Exec(s, steps[..|steps| - 1])
      case None => None
      case Some(t) => if Enabled(t, steps[|steps| - 1]) then Some(Do(t, steps[|steps| - 1])) else None
  }

  // ---- Exclusive checkout ----

  /** Slot `i` of the idle list of `d` holds `h`. */
  predicate Idle(c: Cache, d: Dir, i: int, h: Handle) {
    d in c.entries && 0 <= i < |c.entries[d].idle| && c.entries[d].idle[i] == h
  }

  /** No handle is idle in two slots. */
  ghost predicate IdleOnce(c: Cache) {
    forall d, i, h, d', i' :: Idle(c, d, i, h) && Idle(c, d', i', h) ==> d == d' && i == i'
  }

  /** Every handle is in one place: one caller's hands, or one slot of one idle list. */
  ghost predicate Exclusive(s: System) {
    && IdleOnce(s.cache)
    && (forall c, d :: c in s.held && d in s.held && c != d ==> s.held[c].handle != s.held[d].handle)
    && (forall c, d, i :: c in s.held ==> !Idle(s.cache, d, i, s.held[c].handle))
    && (forall c :: c in s.held ==> s.held[c].handle < s.nextHandle)
    && (forall d, i, h: Handle :: Idle(s.cache, d, i, h) ==> h < s.nextHandle)
  }

  /** Touching moves no handle: what is idle afterwards was idle in the same slot before. */
  lemma TouchIdle(c: Cache, d: Dir)
    ensures forall e, i, h :: Idle(AfterTouch(c, d), e, i, h) ==> Idle(c, e, i, h)
  {
    MakeRoomKeeps(c);
  }

  /** A warm acquire hands out the last idle handle and empties exactly its slot; a cold one moves
      nothing. */
  lemma AcquireIdle(c: Cache, d: Dir)
    ensures var a := AfterAcquire(c, d);
            && (a.handle.Some? ==>
                  d in c.entries && a.gen == c.entries[d].gen && Idle(c, d, |c.entries[d].idle| - 1, a.handle.value))
            && (forall e, i, h :: Idle(a.cache, e, i, h) ==>
                  Idle(c, e, i, h) && (a.handle.Some? && e == d ==> i < |c.entries[d].idle| - 1))
  {
    TouchIdle(c, d);
    var a, t := AfterAcquire(c, d), AfterTouch(c, d);
    forall e, i, h | Idle(a.cache, e, i, h) ensures Idle(c, e, i, h) {
      assert Idle(t, e, i, h);
    }
    if a.handle.Some? {
      assert Idle(t, d, |t.entries[d].idle| - 1, a.handle.value);
    }
  }

  lemma AcquireExclusive(s: System, c: Client, d: Dir)
    requires Exclusive(s) && Enabled(s, Acquire(c, d))
    ensures Exclusive(Do(s, Acquire(c, d)))
  {
    AcquireIdle(s.cache, d);
    var a := AfterAcquire(s.cache, d);
    var s' := Do(s, Acquire(c, d));
    if a.handle.Some? {
      var h := a.handle.value;
      var slot := |s.cache.entries[d].idle| - 1;
      forall e, i ensures !Idle(s'.cache, e, i, h) {
        assert Idle(s'.cache, e, i, h) ==> Idle(s.cache, e, i, h);
        assert Idle(s.cache, d, slot, h);
      }
      forall x | x in s.held ensures s.held[x].handle != h {
        assert Idle(s.cache, d, slot, h);
      }
    }
  }

  lemma ReleaseExclusive(s: System, c: Client)
    requires Exclusive(s) && Enabled(s, Release(c))
    ensures Exclusive(Do(s, Release(c)))
  {
    var r, s' := s.held[c], Do(s, Release(c));
    forall e, i, h | Idle(s'.cache, e, i, h)
      ensures Idle(s.cache, e, i, h) || (h == r.handle && e == r.dir && i == |s.cache.entries[r.dir].idle|)
    {
    }
  }

  lemma StepExclusive(s: System, step: Step)
    requires Exclusive(s) && Enabled(s, step)
    ensures Exclusive(Do(s, step))
  {
    match step
    case Acquire(c, d) => AcquireExclusive(s, c, d);
    case Opened(c) =>
    case OpenFailed(c) =>
    case Release(c) => ReleaseExclusive(s, c);
    case Discard(c) =>
    case Push(d) =>
      forall e, i, h | Idle(Do(s, step).cache, e, i, h) ensures Idle(s.cache, e, i, h) { }
  }

  lemma StepValid(s: System, step: Step)
    requires Valid(s.cache) && Enabled(s, step)
    ensures Valid(Do(s, step).cache)
  {
    match step
    case Acquire(_, d) => AcquireValid(s.cache, d);
    case Opened(_) =>
    case OpenFailed(_) =>
    case Release(c) => ReleaseValid(s.cache, s.held[c].dir, s.held[c].gen, s.held[c].handle);
    case Discard(_) =>
    case Push(d) => InvalidateValid(s.cache, d);
  }

  /** Every run, whatever the interleaving: handles are exclusive, the idle lists and the entries
      stay within their bounds, and the order list is a duplicate-free listing of the entries. */
  lemma {:induction false} RunExclusive(max: int, perRepo: int, steps: seq<Step>)
    requires Exec(Initial(max, perRepo), steps).Some?
    ensures var s := Exec(Initial(max, perRepo), steps).value;
            Exclusive(s) && Valid(s.cache)
  {
    if steps != [] {
      var front, last := steps[..|steps| - 1], steps[|steps| - 1];
      RunExclusive(max, perRepo, front);
      var t := Exec(Initial(max, perRepo), front).value;
      StepExclusive(t, last);
      StepValid(t, last);
    }
  }

  // ---- Invalidation ----

  /** A checkout's record against the directory's entry: as long as the entry is the one it used,
      the two have counted the same invalidations since. */
  predicate Aligned(s: System, d: Dir, gen: nat, life: nat, epoch: nat) {
    && life <= Count(s.lives, d) && epoch <= Count(s.pushes, d)
    && (d in s.cache.entries && life == Count(s.lives, d) ==>
          Count(s.pushes, d) - s.cache.entries[d].gen == epoch - gen)
  }

  ghost predicate EntriesTracked(s: System) {
    forall d :: d in s.cache.entries ==> s.cache.entries[d].gen <= Count(s.pushes, d) && Count(s.lives, d) > 0
  }

  ghost predicate HeldTracked(s: System) {
    forall c :: c in s.held ==>
      var r := s.held[c];
      Aligned(s, r.dir, r.gen, r.life, r.epoch) && r.handle in s.seen && s.seen[r.handle] == r.epoch
  }

  ghost predicate OpeningTracked(s: System) {
    forall c :: c in s.opening ==> var o := s.opening[c]; Aligned(s, o.dir, o.gen, o.life, o.epoch)
  }

  ghost predicate IdleTracked(s: System) {
    forall d, i, h: Handle :: Idle(s.cache, d, i, h) ==> h in s.seen && s.seen[h] <= Count(s.pushes, d)
  }

  ghost predicate Tracked(s: System) {
    EntriesTracked(s) && HeldTracked(s) && OpeningTracked(s) && IdleTracked(s)
  }

  /** No idle handle was last checked out before the directory's latest invalidation. */
  ghost predicate NoneStale(s: System) {
    forall d, i, h: Handle :: Idle(s.cache, d, i, h) ==> h in s.seen && s.seen[h] == Count(s.pushes, d)
  }

  /** An acquire leaves every other generation alone, and starts a new entry at generation 0. */
  lemma AcquireGens(c: Cache, d: Dir)
    ensures var a := AfterAcquire(c, d);
            && d in a.cache.entries && a.cache.entries[d].gen == a.gen
            && a.gen == (if d in c.entries then c.entries[d].gen else 0)
            && forall e :: e in a.cache.entries && e != d ==> e in c.entries && a.cache.entries[e].gen == c.entries[e].gen
  {
    MakeRoomKeeps(c);
  }

  lemma AlignedAcquire(s: System, c: Client, d: Dir, e: Dir, gen: nat, life: nat, epoch: nat)
    requires Enabled(s, Acquire(c, d)) && Aligned(s, e, gen, life, epoch)
    ensures Aligned(Do(s, Acquire(c, d)), e, gen, life, epoch)
  {
    AcquireGens(s.cache, d);
  }

  lemma AcquireHeld(s: System, c: Client, d: Dir)
    requires EntriesTracked(s) && HeldTracked(s) && Exclusive(s) && Enabled(s, Acquire(c, d))
    ensures HeldTracked(Do(s, Acquire(c, d)))
  {
    AcquireGens(s.cache, d);
    AcquireExclusive(s, c, d);
    var s' := Do(s, Acquire(c, d));
    forall x | x in s'.held
      ensures var r := s'.held[x];
              Aligned(s', r.dir, r.gen, r.life, r.epoch) && r.handle in s'.seen && s'.seen[r.handle] == r.epoch
    {
      if x != c {
        AlignedAcquire(s, c, d, s.held[x].dir, s.held[x].gen, s.held[x].life, s.held[x].epoch);
        assert c in s'.held ==> s'.held[c].handle != s'.held[x].handle;
      }
    }
  }

  lemma AcquireOpening(s: System, c: Client, d: Dir)
    requires EntriesTracked(s) && OpeningTracked(s) && Enabled(s, Acquire(c, d))
    ensures OpeningTracked(Do(s, Acquire(c, d)))
  {
    AcquireGens(s.cache, d);
    var s' := Do(s, Acquire(c, d));
    forall x | x in s'.opening
      ensures var o := s'.opening[x]; Aligned(s', o.dir, o.gen, o.life, o.epoch)
    {
      if x != c {
        AlignedAcquire(s, c, d, s.opening[x].dir, s.opening[x].gen, s.opening[x].life, s.opening[x].epoch);
      }
    }
  }

  lemma AcquireEntries(s: System, c: Client, d: Dir)
    requires EntriesTracked(s) && Enabled(s, Acquire(c, d))
    ensures EntriesTracked(Do(s, Acquire(c, d)))
  {
    AcquireGens(s.cache, d);
  }

  lemma AcquireIdles(s: System, c: Client, d: Dir)
    requires IdleTracked(s) && EntriesTracked(s) && Exclusive(s) && Enabled(s, Acquire(c, d))
    ensures IdleTracked(Do(s, Acquire(c, d)))
  {
    AcquireIdle(s.cache, d);
    var s' := Do(s, Acquire(c, d));
    forall e, i, h: Handle | Idle(s'.cache, e, i, h) ensures h in s'.seen && s'.seen[h] <= Count(s'.pushes, e) {
      assert Idle(s.cache, e, i, h);
    }
  }

  lemma AcquireTracked(s: System, c: Client, d: Dir)
    requires Tracked(s) && Exclusive(s) && Enabled(s, Acquire(c, d))
    ensures Tracked(Do(s, Acquire(c, d)))
  {
    AcquireEntries(s, c, d);
    AcquireHeld(s, c, d);
    AcquireOpening(s, c, d);
    AcquireIdles(s, c, d);
  }

  lemma ReleaseIdle(cache: Cache, d: Dir, gen: nat, x: Handle, e: Dir, i: nat, h: Handle)
    requires Idle(AfterRelease(cache, d, gen, x), e, i, h)
    ensures Idle(cache, e, i, h) || (h == x && e == d)
  {
  }

  lemma ReleaseIdles(s: System, c: Client)
    requires Tracked(s) && Enabled(s, Release(c))
    ensures IdleTracked(Do(s, Release(c)))
  {
    var r, s' := s.held[c], Do(s, Release(c));
    forall e, i, h: Handle | Idle(s'.cache, e, i, h) ensures h in s'.seen && s'.seen[h] <= Count(s'.pushes, e) {
      ReleaseIdle(s.cache, r.dir, r.gen, r.handle, e, i, h);
    }
  }

  lemma ReleaseTracked(s: System, c: Client)
    requires Tracked(s) && Enabled(s, Release(c))
    ensures Tracked(Do(s, Release(c)))
  {
    ReleaseIdles(s, c);
  }

  lemma PushTracked(s: System, d: Dir)
    requires Tracked(s)
    ensures Tracked(Do(s, Push(d)))
  {
    var s' := Do(s, Push(d));
    forall e, i, h: Handle | Idle(s'.cache, e, i, h) ensures h in s'.seen && s'.seen[h] <= Count(s'.pushes, e) {
      assert Idle(s.cache, e, i, h);
    }
  }

  lemma OpenedTracked(s: System, c: Client)
    requires Tracked(s) && Exclusive(s) && Enabled(s, Opened(c))
    ensures Tracked(Do(s, Opened(c)))
  {
  }

  lemma OpenFailedTracked(s: System, c: Client)
    requires Tracked(s) && Enabled(s, OpenFailed(c))
    ensures Tracked(Do(s, OpenFailed(c)))
  {
  }

  lemma DiscardTracked(s: System, c: Client)
    requires Tracked(s) && Enabled(s, Discard(c))
    ensures Tracked(Do(s, Discard(c)))
  {
  }

  lemma StepTracked(s: System, step: Step)
    requires Tracked(s) && Exclusive(s) && Enabled(s, step)
    ensures Tracked(Do(s, step))
  {
    match step
    case Acquire(c, d) => AcquireTracked(s, c, d);
    case Opened(c) => OpenedTracked(s, c);
    case OpenFailed(c) => OpenFailedTracked(s, c);
    case Release(c) => ReleaseTracked(s, c);
    case Discard(c) => DiscardTracked(s, c);
    case Push(d) => PushTracked(s, d);
  }

  lemma {:induction false} RunTracked(max: int, perRepo: int, steps: seq<Step>)
    requires Exec(Initial(max, perRepo), steps).Some?
    ensures Tracked(Exec(Initial(max, perRepo), steps).value)
  {
    if steps != [] {
      var front := steps[..|steps| - 1];
      RunTracked(max, perRepo, front);
      RunExclusive(max, perRepo, front);
      StepTracked(Exec(Initial(max, perRepo), front).value, steps[|steps| - 1]);
    }
  }

  /** The directory's entry was evicted and made again since the caller's checkout. */
  predicate Recycled(s: System, c: Client)
    requires c in s.held
  {
    var r := s.held[c]; r.dir in s.cache.entries && r.life != Count(s.lives, r.dir)
  }

  /** The one way a stale handle gets back into an idle list. */
  predicate SlipsBack(s: System, c: Client)
    requires c in s.held
  {
    var r := s.held[c];
    Recycled(s, c) && Accepts(s.cache, r.dir, r.gen) && r.epoch < Count(s.pushes, r.dir)
  }

  /** A release makes an idle handle stale exactly when the entry was recycled to the same generation
      with room left, and the directory was invalidated since the checkout. */
  lemma ReleaseStaleExactly(s: System, c: Client)
    requires Tracked(s) && NoneStale(s) && Enabled(s, Release(c))
    ensures NoneStale(Do(s, Release(c))) <==> !SlipsBack(s, c)
  {
    var r, s' := s.held[c], Do(s, Release(c));
    var accepted := Accepts(s.cache, r.dir, r.gen);
    if accepted {
      assert Idle(s'.cache, r.dir, |s.cache.entries[r.dir].idle|, r.handle);
    }
    forall e, i, h: Handle | Idle(s'.cache, e, i, h)
      ensures Idle(s.cache, e, i, h) || (accepted && h == r.handle && e == r.dir)
    {
    }
  }

  /** A handle that slips back is the very next one the directory hands out. */
  lemma SlippedHandleIsNext(s: System, c: Client)
    requires Tracked(s) && Enabled(s, Release(c)) && SlipsBack(s, c)
    ensures var r := s.held[c];
            var s' := Do(s, Release(c));
            AfterAcquire(s'.cache, r.dir).handle == Some(r.handle) && s'.seen[r.handle] < Count(s'.pushes, r.dir)
  {
  }

  /** Of all steps only a return that slips back makes an idle handle stale. */
  lemma StepFreshExactly(s: System, step: Step)
    requires Tracked(s) && Exclusive(s) && NoneStale(s) && Enabled(s, step)
    ensures NoneStale(Do(s, step)) <==> !(step.Release? && SlipsBack(s, step.client))
  {
    match step
    case Acquire(c, d) => AcquireFresh(s, c, d);
    case Opened(c) => OpenedFresh(s, c);
    case OpenFailed(c) =>
    case Release(c) => ReleaseStaleExactly(s, c);
    case Discard(c) =>
    case Push(d) => PushFresh(s, d);
  }

  lemma AcquireFresh(s: System, c: Client, d: Dir)
    requires Tracked(s) && Exclusive(s) && NoneStale(s) && Enabled(s, Acquire(c, d))
    ensures NoneStale(Do(s, Acquire(c, d)))
  {
    var s' := Do(s, Acquire(c, d));
    AcquireIdle(s.cache, d);
    AcquireExclusive(s, c, d);
    forall e, i, h: Handle | Idle(s'.cache, e, i, h) ensures h in s'.seen && s'.seen[h] == Count(s'.pushes, e) {
      assert Idle(s.cache, e, i, h);
    }
  }

  lemma OpenedFresh(s: System, c: Client)
    requires Exclusive(s) && NoneStale(s) && Enabled(s, Opened(c))
    ensures NoneStale(Do(s, Opened(c)))
  {
  }

  lemma PushFresh(s: System, d: Dir)
    requires NoneStale(s)
    ensures NoneStale(Do(s, Push(d)))
  {
    var s' := Do(s, Push(d));
    forall e, i, h: Handle | Idle(s'.cache, e, i, h) ensures h in s'.seen && s'.seen[h] == Count(s'.pushes, e) {
      assert Idle(s.cache, e, i, h) && e != d;
    }
  }

  /** After no prefix of the run is an idle handle stale. */
  ghost predicate AlwaysFresh(s: System, steps: seq<Step>)
    requires Exec(s, steps).Some?
  {
    NoneStale(Exec(s, steps).value) && (steps != [] ==> AlwaysFresh(s, steps[..|steps| - 1]))
  }

  /** No return of the run slips back. */
  predicate NothingSlips(s: System, steps: seq<Step>)
    requires Exec(s, steps).Some?
  {
    steps == [] ||
    (var front, last := steps[..|steps| - 1], steps[|steps| - 1];
     NothingSlips(s, front) && (last.Release? ==> !SlipsBack(Exec(s, front).value, last.client)))
  }

  /** Over whole runs: idle handles stay fresh throughout exactly when nothing slips back. */
  lemma {:induction false} RunFreshExactly(max: int, perRepo: int, steps: seq<Step>)
    requires Exec(Initial(max, perRepo), steps).Some?
    ensures AlwaysFresh(Initial(max, perRepo), steps) <==> NothingSlips(Initial(max, perRepo), steps)
  {
    if steps != [] {
      var s, front, last := Initial(max, perRepo), steps[..|steps| - 1], steps[|steps| - 1];
      RunFreshExactly(max, perRepo, front);
      RunExclusive(max, perRepo, front);
      RunTracked(max, perRepo, front);
      if AlwaysFresh(s, front) {
        var t := Exec(s, front).value;
        assert NoneStale(t);
        StepFreshExactly(t, last);
      }
    }
  }

  /** No release of the run returns to a recycled entry: nothing was evicted and made again between
      a handle's checkout and its return. */
  predicate NothingRecycled(s: System, steps: seq<Step>)
    requires Exec(s, steps).Some?
  {
    steps == [] ||
    (var front, last := steps[..|steps| - 1], steps[|steps| - 1];
     NothingRecycled(s, front) && (last.Release? ==> !Recycled(Exec(s, front).value, last.client)))
  }

  lemma {:induction false} NothingRecycledSlips(s: System, steps: seq<Step>)
    requires Exec(s, steps).Some? && NothingRecycled(s, steps)
    ensures NothingSlips(s, steps)
  {
    if steps != [] {
      NothingRecycledSlips(s, steps[..|steps| - 1]);
    }
  }

  /** In a run that recycles no entry under a held handle, no idle handle is stale. */
  lemma RunFresh(max: int, perRepo: int, steps: seq<Step>)
    requires Exec(Initial(max, perRepo), steps).Some? && NothingRecycled(Initial(max, perRepo), steps)
    ensures NoneStale(Exec(Initial(max, perRepo), steps).value)
  {
    NothingRecycledSlips(Initial(max, perRepo), steps);
    RunFreshExactly(max, perRepo, steps);
  }

  /** In such a run a warm acquire only ever hands out a handle whose last checkout came after every
      invalidation of the directory so far. */
  lemma WarmHandleIsCurrent(max: int, perRepo: int, steps: seq<Step>, d: Dir)
    requires Exec(Initial(max, perRepo), steps).Some? && NothingRecycled(Initial(max, perRepo), steps)
    ensures var s := Exec(Initial(max, perRepo), steps).value;
            var h := AfterAcquire(s.cache, d).handle;
            h.Some? ==> h.value in s.seen && s.seen[h.value] == Count(s.pushes, d)
  {
    RunFresh(max, perRepo, steps);
    AcquireIdle(Exec(Initial(max, perRepo), steps).value.cache, d);
  }

  // ---- The hypothesis is needed ----

  lemma ExecSnoc(s: System, steps: seq<Step>, step: Step)
    requires Exec(s, steps).Some? && Enabled(Exec(s, steps).value, step)
    ensures Exec(s, steps + [step]) == Some(Do(Exec(s, steps).value, step))
  {
    assert (steps + [step])[..|steps|] == steps;
  }

  /** A checkout of "a", a push to "a", one visit to "b" and one back, in a cache of one repository. */
  function RecyclingRun(): seq<Step> {
    [Acquire(0, "a"), Opened(0)] + [Push("a")] + [Acquire(1, "b")] + [Acquire(2, "a")]
  }

  /** One entry, at `gen`, with nothing idle. */
  function OneEntry(d: Dir, gen: nat): Cache { Cache(1, 1, map[d := Entry(gen, [])], [d]) }

  lemma CheckoutPrefix() returns (s: System)
    ensures Exec(Initial(1, 1), [Acquire(0, "a"), Opened(0)]) == Some(s)
    ensures s.cache == OneEntry("a", 0) && s.held == map[0 := Holder("a", 0, 0, 1, 0)] && s.opening == map[]
    ensures Count(s.lives, "a") == 1 && Count(s.pushes, "a") == 0
  {
    var s0 := Initial(1, 1);
    assert MakeRoom(s0.cache) == s0.cache;
    var s1 := Do(s0, Acquire(0, "a"));
    assert s1.cache == OneEntry("a", 0);
    s := Do(s1, Opened(0));
    assert [] + [Acquire(0, "a")] == [Acquire(0, "a")];
    ExecSnoc(s0, [], Acquire(0, "a"));
    assert [Acquire(0, "a"), Opened(0)] == [Acquire(0, "a")] + [Opened(0)];
    ExecSnoc(s0, [Acquire(0, "a")], Opened(0));
    assert s.opening == map[];
  }

  lemma RecyclingState() returns (s: System)
    ensures Exec(Initial(1, 1), RecyclingRun()) == Some(s)
    ensures s.cache == OneEntry("a", 0) && 0 in s.held && s.held[0] == Holder("a", 0, 0, 1, 0)
    ensures Count(s.lives, "a") == 2 && Count(s.pushes, "a") == 1
  {
    var s2 := CheckoutPrefix();
    var steps := [Acquire(0, "a"), Opened(0)];
    var s3 := Do(s2, Push("a"));
    assert s3.cache == OneEntry("a", 1);
    ExecSnoc(Initial(1, 1), steps, Push("a"));
    VisitEvicts(s3.cache, "a", "b");
    var s4 := Do(s3, Acquire(1, "b"));
    ExecSnoc(Initial(1, 1), steps + [Push("a")], Acquire(1, "b"));
    VisitEvicts(s4.cache, "b", "a");
    s := Do(s4, Acquire(2, "a"));
    ExecSnoc(Initial(1, 1), steps + [Push("a")] + [Acquire(1, "b")], Acquire(2, "a"));
  }

  /** After that run, the caller's return is accepted and its handle is handed out next, although the
      push came after its checkout. */
  lemma RecycledEntryHandsOutStaleHandle()
    ensures Exec(Initial(1, 1), RecyclingRun() + [Release(0)]).Some?
    ensures var s := Exec(Initial(1, 1), RecyclingRun() + [Release(0)]).value;
            AfterAcquire(s.cache, "a").handle == Some(0) && 0 in s.seen && s.seen[0] < Count(s.pushes, "a")
  {
    var s := RecyclingState();
    RunTracked(1, 1, RecyclingRun());
    ExecSnoc(Initial(1, 1), RecyclingRun(), Release(0));
    assert SlipsBack(s, 0);
    SlippedHandleIsNext(s, 0);
  }

  lemma VisitEvicts(c: Cache, d: Dir, e: Dir)
    requires c.max == 1 && c.perRepo == 1 && c.entries.Keys == {d} && c.order == [d] && e != d
    ensures AfterAcquire(c, e) == Acquired(Cache(1, 1, map[e := Entry(0, [])], [e]), 0, None)
  {
    assert c.entries - {d} == map[];
    assert |c.entries.Keys| == 1;
    var room := Cache(1, 1, map[], []);
    assert c.(entries := c.entries - {d}, order := c.order[..0]) == room;
    assert MakeRoom(room) == room;
    assert MakeRoom(c) == room;
  }
}
