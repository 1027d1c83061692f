/** What the warm-handle cache keeps: exactly which handles stay idle through every step of the checkout
    protocol, which entries stand, and in what order they are evicted (git/repocache.go). */
module Warmth {
  import opened Strings
  import opened Lists
  import opened RepoCache
  import opened Checkout

  /** The least recently used entry gives way to a directory the cache does not know. */
  predicate Evicted(c: Cache, d: Dir, e: Dir) {
    d !in c.entries && |c.order| >= c.max && c.order != [] && e == c.order[|c.order| - 1]
  }

  lemma MakeRoomExactly(c: Cache)
    requires Valid(c)
    ensures MakeRoom(c) == if |c.order| >= c.max && c.order != [] then Evict(c) else c
  {
    if |c.order| >= c.max && c.order != [] {
      EvictValid(c);
    }
  }

  /** A touch makes an empty entry at generation 0 when there is none, and takes away no other entry than
      the one evicted for it. */
  lemma TouchExactly(c: Cache, d: Dir)
    requires Valid(c)
    ensures var t := AfterTouch(c, d);
            && (forall e :: e in t.entries <==> e == d || (e in c.entries && !Evicted(c, d, e)))
            && (forall e :: e in t.entries && e in c.entries ==> t.entries[e] == c.entries[e])
            && (d !in c.entries ==> t.entries[d] == Entry(0, []))
  {
    MakeRoomExactly(c);
    if d !in c.entries && |c.order| >= c.max && c.order != [] {
      assert c.order[|c.order| - 1] in c.order;
    }
  }

  // ---- Which handles stay idle ----

  /** A return that is kept: the entry stands at the caller's generation, with room. */
  predicate Kept(s: System, c: Client)
    requires c in s.held
  {
    var r := s.held[c];
    && r.dir in s.cache.entries && r.gen == s.cache.entries[r.dir].gen
    && |s.cache.entries[r.dir].idle| < s.cache.perRepo
  }

  /** The slots after a step, from those before it: an acquire takes the last slot of its directory and
      those of the entry it evicts, a kept return adds one, a push empties its directory. */
  predicate IdleNext(s: System, step: Step, e: Dir, i: int, h: Handle)
    requires Enabled(s, step)
  {
    match step
    case Acquire(_, d) => Idle(s.cache, e, i, h) && !Evicted(s.cache, d, e) && !(e == d && i == |s.cache.entries[d].idle| - 1)
    case Release(c) =>
      Idle(s.cache, e, i, h) || (Kept(s, c) && e == s.held[c].dir && i == |s.cache.entries[e].idle| && h == s.held[c].handle)
    case Push(d) => Idle(s.cache, e, i, h) && e != d
    case _ => Idle(s.cache, e, i, h)
  }

  lemma AcquireSlots(c: Cache, d: Dir, e: Dir, i: int, h: Handle)
    requires Valid(c)
    ensures Idle(AfterAcquire(c, d).cache, e, i, h) <==>
              Idle(c, e, i, h) && !Evicted(c, d, e) && !(e == d && i == |c.entries[d].idle| - 1)
  {
    TouchExactly(c, d);
    if d in c.entries {
      assert AfterTouch(c, d).entries[d] == c.entries[d];
    }
  }

  /** Exactly which slots hold which handles after every step. */
  lemma SlotsExactly(s: System, step: Step, e: Dir, i: int, h: Handle)
    requires Valid(s.cache) && Enabled(s, step)
    ensures Idle(Do(s, step).cache, e, i, h) <==> IdleNext(s, step, e, i, h)
  {
    if step.Acquire? {
      AcquireSlots(s.cache, step.dir, e, i, h);
    }
  }

  /** An acquire is warm exactly when a handle is idle, and then hands out the one returned last. */
  lemma AcquireWarmExactly(c: Cache, d: Dir, h: Handle)
    requires Valid(c)
    ensures AfterAcquire(c, d).handle == Some(h) <==> d in c.entries && Idle(c, d, |c.entries[d].idle| - 1, h)
    ensures AfterAcquire(c, d).gen == if d in c.entries then c.entries[d].gen else 0
  {
    TouchExactly(c, d);
  }

  /** Returning to an entry that stands and was not made again since the checkout: the next acquire of the
      directory hands the handle out exactly when no push came since the checkout and there is room. */
  lemma ReturnReusedExactly(s: System, c: Client)
    requires Tracked(s) && Exclusive(s) && Valid(s.cache) && Enabled(s, Release(c))
    requires s.held[c].dir in s.cache.entries && !Recycled(s, c)
    ensures var r := s.held[c];
            AfterAcquire(Do(s, Release(c)).cache, r.dir).handle == Some(r.handle) <==>
              r.epoch == Count(s.pushes, r.dir) && |s.cache.entries[r.dir].idle| < s.cache.perRepo
  {
    var r, s' := s.held[c], Do(s, Release(c));
    StepValid(s, Release(c));
    AcquireWarmExactly(s'.cache, r.dir, r.handle);
    var n := |s'.cache.entries[r.dir].idle| - 1;
    SlotsExactly(s, Release(c), r.dir, n, r.handle);
    assert Aligned(s, r.dir, r.gen, r.life, r.epoch);
    assert !Idle(s.cache, r.dir, n, r.handle);
  }

  /** Returning to a directory whose entry is gone changes nothing in the cache. */
  lemma ReturnOfEvicted(s: System, c: Client)
    requires Enabled(s, Release(c)) && s.held[c].dir !in s.cache.entries
    ensures Do(s, Release(c)).cache == s.cache
  {
  }

  // ---- Which entries stand, and in what order ----

  /** A step uses a directory by checking it out, or by giving back a handle that is kept. */
  predicate Uses(s: System, step: Step, d: Dir)
    requires Enabled(s, step)
  {
    match step
    case Acquire(_, e) => e == d
    case Release(c) => s.held[c].dir == d && Kept(s, c)
    case _ => false
  }

  /** Exactly which directories have an entry after every step. */
  lemma EntriesExactly(s: System, step: Step, d: Dir)
    requires Valid(s.cache) && Enabled(s, step)
    ensures d in Do(s, step).cache.entries <==>
              if step.Acquire? then d == step.dir || (d in s.cache.entries && !Evicted(s.cache, step.dir, d))
              else d in s.cache.entries
  {
    if step.Acquire? {
      TouchExactly(s.cache, step.dir);
    }
  }

  /** One more than the index of the last step that used a directory; 0 if none did. */
  function LastUse(max: int, perRepo: int, steps: seq<Step>, d: Dir): nat
    requires Exec(Initial(max, perRepo), steps).Some?
  {
    if steps == [] then 0
    else
      var front, last := steps[..|steps| - 1], steps[|steps| - 1];
      if Uses(Exec(Initial(max, perRepo), front).value, last, d) then |steps| else LastUse(max, perRepo, front, d)
  }

  lemma {:induction false} LastUseBound(max: int, perRepo: int, steps: seq<Step>, d: Dir)
    requires Exec(Initial(max, perRepo), steps).Some?
    ensures LastUse(max, perRepo, steps, d) <= |steps|
  {
    if steps != [] {
      LastUseBound(max, perRepo, steps[..|steps| - 1], d);
    }
  }

  /** In one list, `x` stands before `y`. */
  ghost predicate Before(list: seq<Dir>, x: Dir, y: Dir) { exists i, j :: 0 <= i < j < |list| && list[i] == x && list[j] == y }

  lemma {:induction false} RemoveKeepsBefore(list: seq<Dir>, d: Dir, x: Dir, y: Dir)
    requires Before(Remove(list, d), x, y)
    ensures Before(list, x, y) && x != d && y != d
  {
    var kept := Remove(list, d);
    var i, j :| 0 <= i < j < |kept| && kept[i] == x && kept[j] == y;
    var rest := list[1..];
    if list[0] == d {
      RemoveKeepsBefore(rest, d, x, y);
      var k, l :| 0 <= k < l < |rest| && rest[k] == x && rest[l] == y;
      assert list[k + 1] == x && list[l + 1] == y;
    } else if i > 0 {
      assert Remove(rest, d)[i - 1] == x && Remove(rest, d)[j - 1] == y;
      RemoveKeepsBefore(rest, d, x, y);
      var k, l :| 0 <= k < l < |rest| && rest[k] == x && rest[l] == y;
      assert list[k + 1] == x && list[l + 1] == y;
    } else {
      assert Remove(rest, d)[j - 1] == y;
      InRemove(rest, d, y);
      var l :| 0 <= l < |rest| && rest[l] == y;
      assert list[0] == x && list[l + 1] == y;
    }
  }

  lemma FrontPairs(list: seq<Dir>, d: Dir, x: Dir, y: Dir)
    requires Before(ToFront(list, d), x, y)
    ensures y != d && (x == d || Before(list, x, y))
  {
    var after, others := ToFront(list, d), Remove(list, d);
    var i, j :| 0 <= i < j < |after| && after[i] == x && after[j] == y;
    assert others[j - 1] == y;
    InRemove(list, d, y);
    if i > 0 {
      assert others[i - 1] == x;
      RemoveKeepsBefore(list, d, x, y);
    }
  }

  lemma AcquirePairs(c: Cache, d: Dir, x: Dir, y: Dir)
    requires Valid(c) && Before(AfterTouch(c, d).order, x, y)
    ensures y != d && (x == d || Before(c.order, x, y))
  {
    if d in c.entries {
      FrontPairs(c.order, d, x, y);
    } else {
      var after := AfterTouch(c, d).order;
      var i, j :| 0 <= i < j < |after| && after[i] == x && after[j] == y;
      PushedPairs(c, d, i, j);
    }
  }

  lemma ReleasePairs(s: System, c: Client, x: Dir, y: Dir)
    requires Enabled(s, Release(c)) && Before(Do(s, Release(c)).cache.order, x, y)
    ensures !Uses(s, Release(c), y) && (Uses(s, Release(c), x) || Before(s.cache.order, x, y))
  {
    if Kept(s, c) {
      FrontPairs(s.cache.order, s.held[c].dir, x, y);
    }
  }

  /** What a step does to the order, pair by pair. */
  lemma PairsExactly(s: System, step: Step, x: Dir, y: Dir)
    requires Valid(s.cache) && Enabled(s, step) && Before(Do(s, step).cache.order, x, y)
    ensures !Uses(s, step, y) && (Uses(s, step, x) || Before(s.cache.order, x, y))
  {
    match step
    case Acquire(_, d) => AcquirePairs(s.cache, d, x, y);
    case Release(c) => ReleasePairs(s, c, x, y);
    case _ =>
  }

  lemma PushedPairs(c: Cache, d: Dir, i: nat, j: nat)
    requires Valid(c) && d !in c.entries && i < j < |AfterTouch(c, d).order|
    ensures var after := AfterTouch(c, d).order;
            after[j] != d && (after[i] == d || Before(c.order, after[i], after[j]))
  {
    MakeRoomExactly(c);
    var after := AfterTouch(c, d).order;
    assert after[j] == c.order[j - 1] && c.order[j - 1] in c.order;
    if i > 0 {
      assert c.order[i - 1] == after[i] && c.order[j - 1] == after[j];
    }
  }

  /** After every run the order list stands by last use, the latest first. */
  lemma {:induction false} RunRecency(max: int, perRepo: int, steps: seq<Step>, x: Dir, y: Dir)
    requires Exec(Initial(max, perRepo), steps).Some?
    requires Before(Exec(Initial(max, perRepo), steps).value.cache.order, x, y)
    ensures LastUse(max, perRepo, steps, x) > LastUse(max, perRepo, steps, y)
  {
    if steps != [] {
      var front, last := steps[..|steps| - 1], steps[|steps| - 1];
      RunExclusive(max, perRepo, front);
      PairsExactly(Exec(Initial(max, perRepo), front).value, last, x, y);
      LastUseBound(max, perRepo, front, y);
      if Before(Exec(Initial(max, perRepo), front).value.cache.order, x, y) {
        RunRecency(max, perRepo, front, x, y);
      }
    }
  }

  /** So an acquire that takes an entry away is one of an unknown directory in a full cache, and of all
      entries it takes the one used longest ago. */
  lemma ColdestGoes(max: int, perRepo: int, steps: seq<Step>, c: Client, d: Dir, gone: Dir, x: Dir)
    requires Exec(Initial(max, perRepo), steps).Some? && Enabled(Exec(Initial(max, perRepo), steps).value, Acquire(c, d))
    requires var s := Exec(Initial(max, perRepo), steps).value;
             gone in s.cache.entries && gone !in Do(s, Acquire(c, d)).cache.entries && x in s.cache.entries && x != gone
    ensures var s := Exec(Initial(max, perRepo), steps).value;
            d !in s.cache.entries && |s.cache.entries| >= max
    ensures LastUse(max, perRepo, steps, x) > LastUse(max, perRepo, steps, gone)
  {
    RunExclusive(max, perRepo, steps);
    GoneIsBehind(Exec(Initial(max, perRepo), steps).value, c, d, gone, x);
    RunRecency(max, perRepo, steps, x, gone);
    RunKeepsBounds(max, perRepo, steps);
  }

  lemma StepKeepsBounds(s: System, step: Step)
    requires Enabled(s, step)
    ensures Do(s, step).cache.max == s.cache.max && Do(s, step).cache.perRepo == s.cache.perRepo
  {
  }

  lemma {:induction false} RunKeepsBounds(max: int, perRepo: int, steps: seq<Step>)
    requires Exec(Initial(max, perRepo), steps).Some?
    ensures var c := Exec(Initial(max, perRepo), steps).value.cache; c.max == max && c.perRepo == perRepo
  {
    if steps != [] {
      var front := steps[..|steps| - 1];
      RunKeepsBounds(max, perRepo, front);
      StepKeepsBounds(Exec(Initial(max, perRepo), front).value, steps[|steps| - 1]);
    }
  }

  lemma GoneIsBehind(s: System, c: Client, d: Dir, gone: Dir, x: Dir)
    requires Valid(s.cache) && Enabled(s, Acquire(c, d)) && x in s.cache.entries && x != gone
    requires gone in s.cache.entries && gone !in Do(s, Acquire(c, d)).cache.entries
    ensures d !in s.cache.entries && |s.cache.entries| >= s.cache.max && Before(s.cache.order, x, gone)
  {
    EntriesExactly(s, Acquire(c, d), gone);
    LastIsBehind(s.cache.order, x);
  }

  lemma LastIsBehind(list: seq<Dir>, x: Dir)
    requires x in list && x != list[|list| - 1]
    ensures Before(list, x, list[|list| - 1])
  {
    var i :| 0 <= i < |list| && list[i] == x;
    assert i < |list| - 1;
  }

  // ---- What each caller gets ----

  predicate SameCaller(s: System, s': System, c: Client) {
    && (c in s'.held <==> c in s.held) && (c in s.held ==> s'.held[c] == s.held[c])
    && (c in s'.opening <==> c in s.opening) && (c in s.opening ==> s'.opening[c] == s.opening[c])
  }

  /** An acquire leaves its caller with the warm handle or on its way to open a cold one. */
  lemma AcquirerExactly(s: System, c: Client, d: Dir)
    requires Valid(s.cache) && Enabled(s, Acquire(c, d))
    ensures var s' := Do(s, Acquire(c, d));
            if d in s.cache.entries && s.cache.entries[d].idle != []
            then c in s'.held && s'.held[c].dir == d && Idle(s.cache, d, |s.cache.entries[d].idle| - 1, s'.held[c].handle)
            else c in s'.opening && s'.opening[c].dir == d && c !in s'.held
  {
    TouchExactly(s.cache, d);
  }

  /** An opening ends with a handle nobody had; giving back, dropping and failing end the caller's claim. */
  lemma CallerExactly(s: System, step: Step)
    requires Enabled(s, step) && !step.Acquire? && !step.Push?
    ensures var s', c := Do(s, step), step.client;
            if step.Opened? then c in s'.held && s'.held[c].dir == s.opening[c].dir && s'.held[c].handle == s.nextHandle && c !in s'.opening
            else if step.OpenFailed? then c !in s'.opening
            else c !in s'.held
  {
  }

  /** Every other caller keeps what it has. */
  lemma OtherCallers(s: System, step: Step, c: Client)
    requires Enabled(s, step) && (step.Push? || c != step.client)
    ensures SameCaller(s, Do(s, step), c)
  {
  }

  /** A caller with nothing in hand can check a directory out and comes to hold a handle of it; a caller
      with a handle can give it back or drop it, and a push can come at any time. */
  lemma CheckoutGoesThrough(s: System, c: Client, d: Dir)
    requires Valid(s.cache) && Enabled(s, Push(d))
    ensures c in s.held ==> Enabled(s, Release(c)) && Enabled(s, Discard(c))
    ensures c !in s.held && c !in s.opening ==>
              Enabled(s, Acquire(c, d)) &&
              (var t := Do(s, Acquire(c, d));
               || (c in t.held && t.held[c].dir == d)
               || (Enabled(t, Opened(c)) && Enabled(t, OpenFailed(c)) && c in Do(t, Opened(c)).held && Do(t, Opened(c)).held[c].dir == d))
  {
    if c !in s.held && c !in s.opening {
      AcquirerExactly(s, c, d);
    }
  }
}
