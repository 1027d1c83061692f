/** The warm-handle cache of git/repocache.go: a bounded LRU of idle handles per repository
    directory. The functions specify one locked method each; the class is the cache itself. */
module RepoCache {
  import opened Strings
  import opened Lists

  type Dir = string

  // A go-git handle, known only by its identity.
  type Handle = nat

  datatype Entry = Entry(gen: nat, idle: seq<Handle>)

  /** `order` lists the directories, most recently used first. */
  datatype Cache = Cache(max: int, perRepo: int, entries: map<Dir, Entry>, order: seq<Dir>)

  function Empty(max: int, perRepo: int): Cache { Cache(max, perRepo, map[], []) }

  /** The least recently used entry goes. */
  function Evict(c: Cache): Cache
    requires c.order != []
  {
    var n := |c.order| - 1;
    c.(entries := c.entries - {c.order[n]}, order := c.order[..n])
  }

  /** The eviction loop: least recently used entries go until one more fits. */
  function MakeRoom(c: Cache): Cache
    decreases |c.order|
  {
    if |c.entries| >= c.max && c.order != [] then MakeRoom(Evict(c)) else c
  }

  function AfterTouch(c: Cache, d: Dir): (r: Cache)
    ensures d in r.entries && r.max == c.max && r.perRepo == c.perRepo
  {
    if d in c.entries then c.(order := ToFront(c.order, d))
    else
      var room := MakeRoom(c);
      MakeRoomKeeps(c);
      room.(entries := room.entries[d := Entry(0, [])], order := [d] + room.order)
  }

  /** What acquire returns: the cache after it, the generation, and the handle if one was warm. */
  datatype Acquired = Acquired(cache: Cache, gen: nat, handle: Option<Handle>)

  function AfterAcquire(c: Cache, d: Dir): Acquired {
    var t := AfterTouch(c, d);
    var e := t.entries[d];
    var n := |e.idle|;
    if n > 0 then
      Acquired(t.(entries := t.entries[d := e.(idle := e.idle[..n - 1])]), e.gen, Some(e.idle[n - 1]))
    else Acquired(t, e.gen, None)
  }

  /** The test release makes before it keeps a handle. */
  predicate Accepts(c: Cache, d: Dir, gen: nat) {
    d in c.entries && c.entries[d].gen == gen && |c.entries[d].idle| < c.perRepo
  }

  function AfterRelease(c: Cache, d: Dir, gen: nat, h: Handle): Cache {
    if Accepts(c, d, gen) then
      var e := c.entries[d];
      c.(entries := c.entries[d := e.(idle := e.idle + [h])], order := ToFront(c.order, d))
    else c
  }

  function AfterInvalidate(c: Cache, d: Dir): Cache {
    if d in c.entries then c.(entries := c.entries[d := Entry(c.entries[d].gen + 1, [])]) else c
  }

  // ---- Bounds and shape ----

  function AtLeast(x: int, floor: int): int { if x < floor then floor else x }

  /** The order list is a duplicate-free listing of the entries, and both bounds hold. A cache
      made for no repositories still keeps the one just touched. */
  ghost predicate Valid(c: Cache) {
    && NoDuplicates(c.order)
    && (forall d :: d in c.order <==> d in c.entries)
    && |c.order| == |c.entries|
    && |c.entries| <= AtLeast(c.max, 1)
    && (forall d :: d in c.entries ==> |c.entries[d].idle| <= AtLeast(c.perRepo, 0))
  }

  lemma {:induction false} MakeRoomKeeps(c: Cache)
    ensures MakeRoom(c).max == c.max && MakeRoom(c).perRepo == c.perRepo
    ensures forall d :: d in MakeRoom(c).entries ==> d in c.entries && MakeRoom(c).entries[d] == c.entries[d]
    decreases |c.order|
  {
    if |c.entries| >= c.max && c.order != [] {
      MakeRoomKeeps(Evict(c));
    }
  }

  /** Evicting the least recently used entry keeps the listing exact. */
  lemma EvictValid(c: Cache)
    requires Valid(c) && c.order != []
    ensures Valid(Evict(c)) && |Evict(c).entries| == |c.entries| - 1 && Evict(c).order <= c.order
  {
    var c', last := Evict(c), c.order[|c.order| - 1];
    assert c.order == c'.order + [last];
    assert last !in c'.order;
    assert c'.entries.Keys == c.entries.Keys - {last};
    assert |c'.entries.Keys| == |c.entries.Keys| - 1;
  }

  lemma {:induction false} MakeRoomValid(c: Cache)
    requires Valid(c)
    ensures Valid(MakeRoom(c)) && |MakeRoom(c).entries| < AtLeast(c.max, 1)
    ensures MakeRoom(c).order <= c.order
    decreases |c.order|
  {
    if |c.entries| >= c.max && c.order != [] {
      EvictValid(c);
      MakeRoomValid(Evict(c));
    }
  }

  lemma PushValid(c: Cache, d: Dir)
    requires Valid(c) && d !in c.entries && |c.entries| < AtLeast(c.max, 1)
    ensures Valid(c.(entries := c.entries[d := Entry(0, [])], order := [d] + c.order))
  {
    var entries := c.entries[d := Entry(0, [])];
    assert entries.Keys == c.entries.Keys + {d};
    assert |entries.Keys| == |c.entries.Keys| + 1;
  }

  lemma TouchValid(c: Cache, d: Dir)
    requires Valid(c)
    ensures Valid(AfterTouch(c, d))
  {
    if d in c.entries {
      ToFrontKeeps(c.order, d);
    } else {
      MakeRoomValid(c);
      MakeRoomKeeps(c);
      PushValid(MakeRoom(c), d);
    }
  }

  lemma AcquireValid(c: Cache, d: Dir)
    requires Valid(c)
    ensures Valid(AfterAcquire(c, d).cache)
  {
    TouchValid(c, d);
    var t := AfterTouch(c, d);
    assert AfterAcquire(c, d).cache.entries.Keys == t.entries.Keys;
  }

  lemma ReleaseValid(c: Cache, d: Dir, gen: nat, h: Handle)
    requires Valid(c)
    ensures Valid(AfterRelease(c, d, gen, h))
  {
    if Accepts(c, d, gen) {
      ToFrontKeeps(c.order, d);
      assert AfterRelease(c, d, gen, h).entries.Keys == c.entries.Keys;
    }
  }

  lemma InvalidateValid(c: Cache, d: Dir)
    requires Valid(c)
    ensures Valid(AfterInvalidate(c, d))
  {
    assert AfterInvalidate(c, d).entries.Keys == c.entries.Keys;
  }

  /** The cache as the code keeps it; each method runs under its mutex. */
  class HandleCache {
    const max: int
    const perRepo: int
    var entries: map<Dir, Entry>
    var order: seq<Dir>

    function View(): Cache
      reads this
    {
      Cache(max, perRepo, entries, order)
    }

    ghost predicate IsValid()
      reads this
    {
      Valid(View())
    }

    /** newRepoCache. */
    constructor (maxRepos: int, perRepo: int)
      ensures View() == Empty(maxRepos, perRepo) && IsValid()
    {
      max, this.perRepo := maxRepos, perRepo;
      entries, order := map[], [];
    }

    method Acquire(d: Dir) returns (h: Option<Handle>, gen: nat)
      requires IsValid()
      modifies this
      ensures IsValid()
      ensures Acquired(View(), gen, h) == AfterAcquire(old(View()), d)
    {
      AcquireValid(View(), d);
      Touch(d);
      var e := entries[d];
      var n := |e.idle|;
      gen := e.gen;
      if n > 0 {
        h := Some(e.idle[n - 1]);
        entries := entries[d := e.(idle := e.idle[..n - 1])];
      } else {
        h := None;
      }
    }

    method Release(d: Dir, gen: nat, h: Handle)
      requires IsValid()
      modifies this
      ensures IsValid()
      ensures View() == AfterRelease(old(View()), d, gen, h)
    {
      ReleaseValid(View(), d, gen, h);
      if d !in entries || entries[d].gen != gen || |entries[d].idle| >= perRepo {
        return;
      }
      entries := entries[d := entries[d].(idle := entries[d].idle + [h])];
      order := ToFront(order, d);
    }

    method Invalidate(d: Dir)
      requires IsValid()
      modifies this
      ensures IsValid()
      ensures View() == AfterInvalidate(old(View()), d)
    {
      InvalidateValid(View(), d);
      if d in entries {
        entries := entries[d := Entry(entries[d].gen + 1, [])];
      }
    }

    /** touch: the entry for `d`, most recently used, made when new, after evicting the coldest. */
    method Touch(d: Dir)
      requires IsValid()
      modifies this
      ensures IsValid()
      ensures View() == AfterTouch(old(View()), d)
    {
      TouchValid(View(), d);
      if d in entries {
        order := ToFront(order, d);
        return;
      }
      while |entries| >= max
        invariant MakeRoom(View()) == MakeRoom(old(View()))
        decreases |order|
      {
        if order == [] {
          break;
        }
        var last := order[|order| - 1];
        order := order[..|order| - 1];
        entries := entries - {last};
      }
      entries := entries[d := Entry(0, [])];
      order := [d] + order;
    }
  }
}
