/** The parsed-diff cache behind ChangedFiles (git/diffcache.go, git/repo_merge.go): keys that hold
    only full object ids, and a cache no caller can see, whatever the interleaving. */
module DiffCache {
  import opened Strings
  import opened Decimal
  import opened CostLru
  import LruCache
  import D = DiffParse

  const MaxBytes := 0x200_0000
  const MaxEntryBytes := 0x80_0000

  type Files = seq<D.FileChange>

  /** diffCost: the strings an entry carries, plus bookkeeping. */
  function DiffCost(files: Files): int {
    if files == [] then 64
    else
      var f := files[|files| - 1];
      DiffCost(files[..|files| - 1]) + |f.patch| + |f.path| + |f.prevPath| + 128
  }

  predicate IsHex(c: char) { '0' <= c <= '9' || 'a' <= c <= 'f' || 'A' <= c <= 'F' }

  predicate IsFullSHA(s: string) { |s| == 40 && forall i :: 0 <= i < |s| ==> IsHex(s[i]) }

  datatype Request = Request(pk: Int64, base: string, head: string, direct: bool, ignoreWhitespace: bool)

  predicate Cacheable(r: Request) { IsFullSHA(r.base) && IsFullSHA(r.head) }

  function DiffKey(pk: Int64, base: string, head: string): string { FormatInt(pk) + [':'] + base + [':'] + head }

  /** The key of a request: the range, marked by the variants that answer differently. */
  function Key(r: Request): string {
    var key := DiffKey(r.pk, r.base, r.head);
    var key' := if r.direct then "direct:" + key else key;
    if r.ignoreWhitespace then "w:" + key' else key'
  }

  /** The arguments git diff is run with. */
  function Args(r: Request): seq<string> {
    ["diff", "--no-color", "--full-index", "--find-renames"]
    + (if r.ignoreWhitespace then ["-w"] else [])
    + (if r.direct then [r.base, r.head] else [r.base + "..." + r.head])
  }

  // ---- Different requests have different keys ----

  lemma DiffKeyInjective(p: Int64, b: string, h: string, p': Int64, b': string, h': string)
    requires |b| == |h| == |b'| == |h'| == 40 && DiffKey(p, b, h) == DiffKey(p', b', h')
    ensures p == p' && b == b' && h == h'
  {
    var k, k' := DiffKey(p, b, h), DiffKey(p', b', h');
    var n := |FormatInt(p)|;
    assert |k| == n + 82 && |k'| == |FormatInt(p')| + 82;
    assert FormatInt(p) == k[..n] == k'[..n] == FormatInt(p');
    assert b == k[n + 1..n + 41] == k'[n + 1..n + 41] == b';
    assert h == k[n + 42..] == k'[n + 42..] == h';
    FormatIntInjective(p, p');
  }

  /** The first character tells the variants apart: a number, a "d" or a "w". */
  lemma KeyStart(r: Request)
    ensures Key(r) != ""
    ensures Key(r)[0] == 'w' <==> r.ignoreWhitespace
    ensures !r.ignoreWhitespace ==> (Key(r)[0] == 'd' <==> r.direct)
  {
    var key := DiffKey(r.pk, r.base, r.head);
    assert key[0] == FormatInt(r.pk)[0];
  }

  lemma KeyInjective(r: Request, q: Request)
    requires Cacheable(r) && Cacheable(q) && Key(r) == Key(q)
    ensures r == q
  {
    KeyStart(r);
    KeyStart(q);
    if r.ignoreWhitespace {
      var r', q' := r.(ignoreWhitespace := false), q.(ignoreWhitespace := false);
      assert Key(r)[2..] == Key(r') && Key(q)[2..] == Key(q');
      PlainKeyInjective(r', q');
    } else {
      PlainKeyInjective(r, q);
    }
  }

  lemma PlainKeyInjective(r: Request, q: Request)
    requires Cacheable(r) && Cacheable(q) && !r.ignoreWhitespace && !q.ignoreWhitespace && Key(r) == Key(q)
    ensures r == q
  {
    KeyStart(r);
    KeyStart(q);
    var k, k' := DiffKey(r.pk, r.base, r.head), DiffKey(q.pk, q.base, q.head);
    if r.direct {
      assert Key(r)[7..] == k && Key(q)[7..] == k';
    }
    DiffKeyInjective(r.pk, r.base, r.head, q.pk, q.base, q.head);
  }

  // ---- Every interleaving ----

  // git diff as a pure function of the repository and its arguments; a run may also fail.
  type Git = (Int64, seq<string>) -> string

  function Truth(git: Git, r: Request): Files { D.Parse(git(r.pk, Args(r))) }

  /** A caller of changedFiles: waiting for git, about to fill the cache, or answered. */
  datatype Caller =
    | Running(request: Request)
    | Filling(request: Request, files: Files)
    | Answered(request: Request, answer: Result<Files>)

  datatype System = System(cache: seq<Item<Files>>, callers: map<nat, Caller>)

  const Start := System([], map[])

  datatype Step =
    | Ask(caller: nat, request: Request)
    | GitRuns(caller: nat)
    | GitFails(caller: nat)
    | Fill(caller: nat)

  predicate Enabled(s: System, step: Step) {
    match step
    case Ask(c, _) => c !in s.callers
    case GitRuns(c) => c in s.callers && s.callers[c].Running?
    case GitFails(c) => c in s.callers && s.callers[c].Running?
    case Fill(c) => c in s.callers && s.callers[c].Filling?
  }

  function Do(git: Git, s: System, step: Step): System
    requires Enabled(s, step)
  {
    match step
    case Ask(c, r) =>
      if !Cacheable(r) then s.(callers := s.callers[c := Running(r)])
      else
        var hit := Find(s.cache, Key(r));
        var next := if hit.Some? && hit.value.val != [] then Answered(r, Ok(hit.value.val)) else Running(r);
        System(AfterGet(s.cache, Key(r)), s.callers[c := next])
    case GitRuns(c) =>
      var r := s.callers[c].request;
      var files := Truth(git, r);
      s.(callers := s.callers[c := if Cacheable(r) && files != [] then Filling(r, files) else Answered(r, Ok(files))])
    case GitFails(c) => s.(callers := s.callers[c := Answered(s.callers[c].request, Err)])
    case Fill(c) =>
      var w := s.callers[c];
      System(AfterPut(s.cache, Item(Key(w.request), w.files, DiffCost(w.files)), MaxBytes, MaxEntryBytes),
             s.callers[c := Answered(w.request, Ok(w.files))])
  }

  function Exec(git: Git, steps: seq<Step>): Option<System> {
    if steps == [] then Some(Start)
    else match Exec(git, steps[..|steps| - 1])
      case None => None
      case Some(s) => if Enabled(s, steps[|steps| - 1]) then Some(Do(git, s, steps[|steps| - 1])) else None
  }

  /** A stored entry answers every request that has its key. */
  ghost predicate Honest(git: Git, item: Item<Files>) {
    forall r :: Cacheable(r) && Key(r) == item.key ==> item.val == Truth(git, r)
  }

  ghost predicate AllHonest(git: Git, s: System) {
    && DistinctKeys(s.cache)
    && (forall item :: item in s.cache ==> Honest(git, item))
    && (forall c :: c in s.callers && s.callers[c].Filling? ==>
          Cacheable(s.callers[c].request) && s.callers[c].files == Truth(git, s.callers[c].request))
    && (forall c :: c in s.callers && s.callers[c].Answered? && s.callers[c].answer.Ok? ==>
          s.callers[c].answer.value == Truth(git, s.callers[c].request))
  }

  lemma GetHonest(git: Git, cache: seq<Item<Files>>, key: string)
    requires DistinctKeys(cache) && forall item :: item in cache ==> Honest(git, item)
    ensures DistinctKeys(AfterGet(cache, key)) && forall item :: item in AfterGet(cache, key) ==> Honest(git, item)
  {
    GetKeepsDistinct(cache, key);
    FindIn(cache, key);
    WithoutKeyKeeps(cache, key);
  }

  lemma PutHonest(git: Git, cache: seq<Item<Files>>, r: Request, cost: int)
    requires DistinctKeys(cache) && (forall item :: item in cache ==> Honest(git, item)) && Cacheable(r)
    ensures var after := AfterPut(cache, Item(Key(r), Truth(git, r), cost), MaxBytes, MaxEntryBytes);
            DistinctKeys(after) && forall item :: item in after ==> Honest(git, item)
  {
    var item := Item(Key(r), Truth(git, r), cost);
    PutKeepsDistinct(cache, item, MaxBytes, MaxEntryBytes);
    WithoutKeyKeeps(cache, item.key);
    TrimIsLongestPrefix([item] + WithoutKey(cache, item.key), MaxBytes);
    assert Honest(git, item) by {
      forall q | Cacheable(q) && Key(q) == item.key ensures item.val == Truth(git, q) { KeyInjective(q, r); }
    }
  }

  lemma StepHonest(git: Git, s: System, step: Step)
    requires AllHonest(git, s) && Enabled(s, step)
    ensures AllHonest(git, Do(git, s, step))
  {
    match step
    case Ask(c, r) =>
      if Cacheable(r) {
        GetHonest(git, s.cache, Key(r));
        FindIn(s.cache, Key(r));
        if Find(s.cache, Key(r)).Some? {
          assert Honest(git, Find(s.cache, Key(r)).value);
        }
      }
    case GitRuns(c) =>
    case GitFails(c) =>
    case Fill(c) => PutHonest(git, s.cache, s.callers[c].request, DiffCost(s.callers[c].files));
  }

  lemma {:induction false} RunHonest(git: Git, steps: seq<Step>)
    requires Exec(git, steps).Some?
    ensures AllHonest(git, Exec(git, steps).value)
  {
    if steps != [] {
      RunHonest(git, steps[..|steps| - 1]);
      StepHonest(git, Exec(git, steps[..|steps| - 1]).value, steps[|steps| - 1]);
    }
  }

  /** Diff caching is invisible: in every interleaving, every answer that is not git's own failure is
      the freshly parsed diff of that very request. */
  lemma CachingIsInvisible(git: Git, steps: seq<Step>, c: nat)
    requires Exec(git, steps).Some? && c in Exec(git, steps).value.callers
    requires Exec(git, steps).value.callers[c].Answered?
    ensures var w := Exec(git, steps).value.callers[c];
            w.answer == Err || w.answer == Ok(Truth(git, w.request))
  {
    RunHonest(git, steps);
  }

  /** What one call leaves in the cache: only full object ids are looked up, and only an answer that was
      not there and is not empty is stored. */
  function AfterChangedFiles(cache: seq<Item<Files>>, git: Git, runs: bool, r: Request): seq<Item<Files>> {
    if !Cacheable(r) then cache
    else
      var hit := Find(cache, Key(r));
      if (hit.Some? && hit.value.val != []) || !runs || Truth(git, r) == [] then AfterGet(cache, Key(r))
      else AfterPut(AfterGet(cache, Key(r)), Item(Key(r), Truth(git, r), DiffCost(Truth(git, r))), MaxBytes, MaxEntryBytes)
  }

  /** changedFiles for one caller running alone, over the cache object. */
  method ChangedFiles(cache: LruCache.ByteLru<Files>, git: Git, runs: bool, r: Request) returns (answer: Result<Files>)
    requires cache.Valid() && cache.max == MaxBytes && cache.maxEntry == MaxEntryBytes
    requires DistinctKeys(cache.contents) && forall item :: item in cache.contents ==> Honest(git, item)
    modifies cache, cache.repr
    ensures cache.Valid() && fresh(cache.repr - old(cache.repr))
    ensures DistinctKeys(cache.contents) && forall item :: item in cache.contents ==> Honest(git, item)
    ensures answer.Ok? ==> answer.value == Truth(git, r)
    ensures runs ==> answer.Ok?
    ensures cache.contents == AfterChangedFiles(old(cache.contents), git, runs, r)
  {
    var key := "";
    var cacheable := IsFullSHA(r.base) && IsFullSHA(r.head);
    if cacheable {
      key := Key(r);
      GetHonest(git, cache.contents, key);
      FindIn(cache.contents, key);
      var hit := cache.Get(key);
      if hit.Some? && hit.value != [] {
        return Ok(hit.value);
      }
    }
    if !runs {
      return Err;
    }
    var files := D.ParseDiff(git(r.pk, Args(r)));
    if cacheable && files != [] {
      PutHonest(git, cache.contents, r, DiffCost(files));
      cache.PutPriced(key, files, DiffCost(files));
    }
    return Ok(files);
  }

  // ---- Prices and commands ----

  lemma {:induction false} CostOfConcat(a: Files, b: Files)
    ensures DiffCost(a + b) == DiffCost(a) + DiffCost(b) - 64
  {
    if b == [] {
      assert a + b == a;
    } else {
      assert (a + b)[..|a + b| - 1] == a + b[..|b| - 1];
      CostOfConcat(a, b[..|b| - 1]);
    }
  }

  lemma CostOfOne(f: D.FileChange)
    ensures DiffCost([f]) == 64 + 128 + |f.patch| + |f.path| + |f.prevPath|
  {
    assert [f][..0] == [];
  }

  /** The four commands: three-dot or two ends, with or without white space. */
  lemma CommandLines(pk: Int64, base: string, head: string)
    ensures Args(Request(pk, base, head, false, false)) == ["diff", "--no-color", "--full-index", "--find-renames", base + "..." + head]
    ensures Args(Request(pk, base, head, false, true)) == ["diff", "--no-color", "--full-index", "--find-renames", "-w", base + "..." + head]
    ensures Args(Request(pk, base, head, true, false)) == ["diff", "--no-color", "--full-index", "--find-renames", base, head]
    ensures Args(Request(pk, base, head, true, true)) == ["diff", "--no-color", "--full-index", "--find-renames", "-w", base, head]
  {
  }

  /** Two cacheable requests that run the same command in a repository are the same request. */
  lemma ArgsInjective(r: Request, q: Request)
    requires Cacheable(r) && Cacheable(q) && r.pk == q.pk && Args(r) == Args(q)
    ensures r == q
  {
    var n := |Args(r)|;
    var f, g := if r.ignoreWhitespace then ["-w"] else [], if q.ignoreWhitespace then ["-w"] else [];
    assert |Args(r)| == 4 + |f| + (if r.direct then 2 else 1) && |Args(q)| == 4 + |g| + if q.direct then 2 else 1;
    assert Args(r)[n - 1] == if r.direct then r.head else r.base + "..." + r.head;
    assert Args(q)[n - 1] == if q.direct then q.head else q.base + "..." + q.head;
    assert |r.base + "..." + r.head| == 83 && |q.base + "..." + q.head| == 83;
    if r.direct {
      assert Args(r)[n - 2] == r.base && Args(q)[n - 2] == q.base;
    } else {
      var both := r.base + "..." + r.head;
      assert both[..40] == r.base && both[..40] == q.base && both[43..] == r.head && both[43..] == q.head;
    }
  }

  lemma HexDigits(c: char)
    ensures IsHex(c) <==> c in "0123456789abcdefABCDEF"
  {
    if '0' <= c <= '9' {
      assert ("0123456789abcdefABCDEF")[c as int - '0' as int] == c;
    } else if 'a' <= c <= 'f' {
      assert ("0123456789abcdefABCDEF")[c as int - 'a' as int + 10] == c;
    } else if 'A' <= c <= 'F' {
      assert ("0123456789abcdefABCDEF")[c as int - 'A' as int + 16] == c;
    }
  }

  /** Once an answer that fits is filled in, the next caller with the request is answered without git. */
  lemma FilledAnswersNext(git: Git, s: System, c: nat, d: nat)
    requires AllHonest(git, s) && Enabled(s, Fill(c)) && d !in s.callers
    requires s.callers[c].files != [] && DiffCost(s.callers[c].files) <= MaxEntryBytes
    ensures var r, filled := s.callers[c].request, Do(git, s, Fill(c));
            Enabled(filled, Ask(d, r)) && Do(git, filled, Ask(d, r)).callers[d] == Answered(r, Ok(Truth(git, r)))
  {
    var w := s.callers[c];
    AdmittedSurvives(s.cache, Item(Key(w.request), w.files, DiffCost(w.files)), MaxBytes, MaxEntryBytes);
  }

  /** A new caller is answered: at once, or when git has run and what it said is filled in. */
  lemma AskGoesThrough(git: Git, s: System, c: nat, r: Request)
    requires AllHonest(git, s) && c !in s.callers
    ensures Enabled(s, Ask(c, r))
    ensures var t := Do(git, s, Ask(c, r));
            || t.callers[c] == Answered(r, Ok(Truth(git, r)))
            || (&& Enabled(t, GitRuns(c)) && Enabled(t, GitFails(c))
                && var u := Do(git, t, GitRuns(c));
                   || u.callers[c] == Answered(r, Ok(Truth(git, r)))
                   || (Enabled(u, Fill(c)) && Do(git, u, Fill(c)).callers[c] == Answered(r, Ok(Truth(git, r)))))
  {
    StepHonest(git, s, Ask(c, r));
  }
}
