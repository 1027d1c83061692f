/** Review comments and their threads (domain/review_service.go): replies hang on a thread's root, and
    the thread listing is a fold over the rows. */
module ReviewThreads {
  import opened Strings

  datatype Row = Row(pk: nat, dbId: int, pull: int, inReplyTo: Option<nat>, path: string, line: Option<int>, resolved: bool)

  function RootOf(r: Row): nat { if r.inReplyTo.Some? then r.inReplyTo.value else r.pk }

  datatype Thread = Thread(rootPk: nat, id: int, path: string, line: Option<int>, isResolved: bool, isOutdated: bool, comments: seq<Row>)

  // ---- What a listing is ----

  /** The rows of one thread, in row order. */
  function Under(rows: seq<Row>, root: nat): seq<Row> {
    if rows == [] then []
    else
      var front, r := Under(rows[..|rows| - 1], root), rows[|rows| - 1];
      if RootOf(r) == root then front + [r] else front
  }

  /** The roots in the order in which a row first names them. */
  function Roots(rows: seq<Row>): seq<nat> {
    if rows == [] then []
    else
      var front, root := Roots(rows[..|rows| - 1]), RootOf(rows[|rows| - 1]);
      if root in front then front else front + [root]
  }

  /** The last row that is the root itself. */
  function RootRow(rows: seq<Row>, root: nat): Option<Row> {
    if rows == [] then None
    else if rows[|rows| - 1].pk == root && RootOf(rows[|rows| - 1]) == root then Some(rows[|rows| - 1])
    else RootRow(rows[..|rows| - 1], root)
  }

  /** A thread of the listing: its place from its first row, its identity and state from the root. */
  function ThreadOf(rows: seq<Row>, root: nat, outdated: Row -> bool): Thread
    requires Under(rows, root) != []
  {
    var comments, self := Under(rows, root), RootRow(rows, root);
    Thread(root, if self.Some? then self.value.dbId else comments[0].dbId, comments[0].path, comments[0].line,
           self.Some? && self.value.resolved, self.Some? && outdated(self.value), comments)
  }

  ghost predicate IsListing(rows: seq<Row>, outdated: Row -> bool, threads: seq<Thread>) {
    && |threads| == |Roots(rows)|
    && forall k :: 0 <= k < |threads| ==> Under(rows, Roots(rows)[k]) != [] && threads[k] == ThreadOf(rows, Roots(rows)[k], outdated)
  }

  lemma {:induction false} RootsAre(rows: seq<Row>, root: nat)
    ensures root in Roots(rows) <==> Under(rows, root) != []
    ensures forall i, j :: 0 <= i < j < |Roots(rows)| ==> Roots(rows)[i] != Roots(rows)[j]
  {
    if rows != [] {
      var front := rows[..|rows| - 1];
      RootsAre(front, root);
    }
  }

  lemma {:induction false} RootRowIsUnder(rows: seq<Row>, root: nat)
    ensures RootRow(rows, root).Some? ==> RootRow(rows, root).value in Under(rows, root) && RootRow(rows, root).value.pk == root
  {
    if rows != [] {
      RootRowIsUnder(rows[..|rows| - 1], root);
    }
  }

  /** One more row leaves every other thread as it was. */
  lemma OthersStay(rows: seq<Row>, row: Row, root: nat, outdated: Row -> bool)
    requires RootOf(row) != root
    ensures Under(rows + [row], root) == Under(rows, root)
    ensures Under(rows, root) != [] ==> ThreadOf(rows + [row], root, outdated) == ThreadOf(rows, root, outdated)
  {
    assert (rows + [row])[..|rows|] == rows;
  }

  /** The map of threads holds the threads of the rows seen. */
  ghost predicate Folded(rows: seq<Row>, outdated: Row -> bool, byRoot: map<nat, Thread>) {
    && (forall root :: root in byRoot <==> Under(rows, root) != [])
    && (forall root :: root in byRoot ==> byRoot[root] == ThreadOf(rows, root, outdated))
  }

  lemma FoldStep(rows: seq<Row>, row: Row, outdated: Row -> bool, byRoot: map<nat, Thread>)
    requires Folded(rows, outdated, byRoot)
    ensures Under(rows + [row], RootOf(row)) == Under(rows, RootOf(row)) + [row]
    ensures Folded(rows + [row], outdated, byRoot[RootOf(row) := ThreadOf(rows + [row], RootOf(row), outdated)])
  {
    assert (rows + [row])[..|rows|] == rows;
    forall root | root != RootOf(row) ensures Under(rows + [row], root) == Under(rows, root) {
      OthersStay(rows, row, root, outdated);
    }
    forall root | root != RootOf(row) && root in byRoot ensures ThreadOf(rows + [row], root, outdated) == byRoot[root] {
      OthersStay(rows, row, root, outdated);
    }
  }

  /** What the loop makes of the row's thread. */
  lemma ThreadGrows(rows: seq<Row>, row: Row, outdated: Row -> bool)
    ensures var root, after := RootOf(row), rows + [row];
            && Under(after, root) == Under(rows, root) + [row]
            && RootRow(after, root) == (if row.pk == root then Some(row) else RootRow(rows, root))
            && (Under(rows, root) == [] ==> RootRow(rows, root).None?)
  {
    assert (rows + [row])[..|rows|] == rows;
    RootRowIsUnder(rows, RootOf(row));
  }

  /** ReviewThreads: one pass, with a thread opened at the first row that names its root. */
  method FoldThreads(rows: seq<Row>, outdated: Row -> bool) returns (out: seq<Thread>)
    ensures IsListing(rows, outdated, out)
  {
    var byRoot: map<nat, Thread> := map[];
    var order: seq<nat> := [];
    for i := 0 to |rows|
      invariant order == Roots(rows[..i])
      invariant Folded(rows[..i], outdated, byRoot)
    {
      var row := rows[i];
      assert rows[..i + 1][..i] == rows[..i] && rows[..i + 1] == rows[..i] + [row];
      var rootPk := if row.inReplyTo.Some? then row.inReplyTo.value else row.pk;
      RootsAre(rows[..i], rootPk);
      FoldStep(rows[..i], row, outdated, byRoot);
      ThreadGrows(rows[..i], row, outdated);
      var thread: Thread;
      if rootPk in byRoot {
        thread := byRoot[rootPk];
      } else {
        thread := Thread(rootPk, row.dbId, row.path, row.line, false, false, []);
        order := order + [rootPk];
      }
      if row.pk == rootPk {
        thread := thread.(id := row.dbId, isResolved := row.resolved, isOutdated := outdated(row));
      }
      thread := thread.(comments := thread.comments + [row]);
      assert thread == ThreadOf(rows[..i + 1], rootPk, outdated);
      byRoot := byRoot[rootPk := thread];
    }
    assert rows[..|rows|] == rows;
    out := Listed(rows, outdated, byRoot, order);
  }

  /** The second loop: the threads in the order of their first rows. */
  method Listed(ghost rows: seq<Row>, ghost outdated: Row -> bool, byRoot: map<nat, Thread>, order: seq<nat>) returns (out: seq<Thread>)
    requires order == Roots(rows) && Folded(rows, outdated, byRoot)
    ensures IsListing(rows, outdated, out)
  {
    forall k | 0 <= k < |order| ensures order[k] in byRoot {
      RootsAre(rows, order[k]);
    }
    out := [];
    for k := 0 to |order|
      invariant |out| == k && forall j :: 0 <= j < k ==> out[j] == byRoot[order[j]]
    {
      out := out + [byRoot[order[k]]];
    }
  }

  // ---- The listing partitions the rows ----

  lemma {:induction false} UnderAre(rows: seq<Row>, root: nat)
    ensures forall r :: r in Under(rows, root) <==> r in rows && RootOf(r) == root
  {
    if rows != [] {
      var front, last := rows[..|rows| - 1], rows[|rows| - 1];
      UnderAre(front, root);
      assert rows == front + [last];
    }
  }

  /** All rows of some threads, thread after thread. */
  function Spread(rows: seq<Row>, roots: seq<nat>): seq<Row> {
    if roots == [] then [] else Spread(rows, roots[..|roots| - 1]) + Under(rows, roots[|roots| - 1])
  }

  lemma {:induction false} SpreadSnoc(rows: seq<Row>, last: Row, roots: seq<nat>)
    requires forall i, j :: 0 <= i < j < |roots| ==> roots[i] != roots[j]
    ensures multiset(Spread(rows + [last], roots)) == multiset(Spread(rows, roots)) + if RootOf(last) in roots then multiset{last} else multiset{}
  {
    if roots != [] {
      var front, root := roots[..|roots| - 1], roots[|roots| - 1];
      assert roots == front + [root];
      SpreadSnoc(rows, last, front);
      assert (rows + [last])[..|rows|] == rows;
    }
  }

  lemma {:induction false} SpreadAbsent(rows: seq<Row>, roots: seq<nat>, root: nat)
    requires Under(rows, root) == []
    ensures Spread(rows, roots + [root]) == Spread(rows, roots)
  {
    assert (roots + [root])[..|roots|] == roots;
    assert Spread(rows, roots) + [] == Spread(rows, roots);
  }

  /** Every row is in exactly one thread, as often as it is a row: nothing is lost or shown twice. */
  lemma {:induction false} ThreadsPartition(rows: seq<Row>)
    ensures multiset(Spread(rows, Roots(rows))) == multiset(rows)
  {
    if rows != [] {
      var front, last := rows[..|rows| - 1], rows[|rows| - 1];
      assert rows == front + [last];
      ThreadsPartition(front);
      RootsAre(front, RootOf(last));
      RootsAre(rows, RootOf(last));
      if RootOf(last) !in Roots(front) {
        SpreadAbsent(front, Roots(front), RootOf(last));
      }
      SpreadSnoc(front, last, Roots(rows));
    }
  }

  /** Two rows share a thread exactly when they have the same root. */
  lemma SharedThread(rows: seq<Row>, outdated: Row -> bool, threads: seq<Thread>, a: Row, b: Row)
    requires IsListing(rows, outdated, threads) && a in rows && b in rows
    ensures (exists k :: 0 <= k < |threads| && a in threads[k].comments && b in threads[k].comments) <==> RootOf(a) == RootOf(b)
  {
    var roots := Roots(rows);
    forall k | 0 <= k < |threads| ensures forall r :: r in threads[k].comments <==> r in rows && RootOf(r) == roots[k] {
      UnderAre(rows, roots[k]);
    }
    RootsAre(rows, RootOf(a));
    UnderAre(rows, RootOf(a));
    assert RootOf(a) in roots;
    var k :| 0 <= k < |roots| && roots[k] == RootOf(a);
    assert a in threads[k].comments;
  }

  /** `part` is what the increasing indices `at` pick from the rows. */
  ghost predicate Picks(at: seq<nat>, rows: seq<Row>, part: seq<Row>) {
    && |at| == |part|
    && (forall i, j :: 0 <= i < j < |at| ==> at[i] < at[j])
    && (forall i :: 0 <= i < |at| ==> at[i] < |rows| && rows[at[i]] == part[i])
  }

  lemma PicksMore(at: seq<nat>, front: seq<Row>, part: seq<Row>, last: Row)
    requires Picks(at, front, part)
    ensures Picks(at, front + [last], part) && Picks(at + [|front|], front + [last], part + [last])
  {
  }

  /** Within a thread rows keep their order: a thread is the listing with the other rows left out. */
  lemma {:induction false} UnderIsSubsequence(rows: seq<Row>, root: nat) returns (at: seq<nat>)
    ensures Picks(at, rows, Under(rows, root))
  {
    if rows == [] {
      at := [];
    } else {
      var front, last := rows[..|rows| - 1], rows[|rows| - 1];
      at := UnderIsSubsequence(front, root);
      PicksMore(at, front, Under(front, root), last);
      assert front + [last] == rows;
      if RootOf(last) == root {
        at := at + [|front|];
      }
    }
  }

  // ---- Creating, replying and deleting, interleaved ----

  // A reply between its read of the parent and its transaction: the pull and the root it will name.
  datatype Waiting = Waiting(pull: int, root: nat, path: string, line: Option<int>)

  /** The rows in key order, the next key, and the replies under way. */
  datatype Table = Table(rows: seq<Row>, next: nat, waiting: map<nat, Waiting>)

  datatype Step =
    | Create(pull: int, dbId: int, path: string, line: Option<int>)
    | ReadParent(client: nat, pull: int, parent: nat)
    | CommitReply(client: nat, dbId: int)
    | Delete(pk: nat)

  function Find(rows: seq<Row>, pk: nat): Option<Row> {
    if rows == [] then None else if rows[|rows| - 1].pk == pk then Some(rows[|rows| - 1]) else Find(rows[..|rows| - 1], pk)
  }

  /** ON DELETE SET NULL: the replies to a deleted row become roots. */
  function Unhook(r: Row, pk: nat): Row { if r.inReplyTo == Some(pk) then r.(inReplyTo := None) else r }

  function Without(rows: seq<Row>, pk: nat): seq<Row> {
    if rows == [] then []
    else
      var front, r := Without(rows[..|rows| - 1], pk), rows[|rows| - 1];
      if r.pk == pk then front else front + [Unhook(r, pk)]
  }

  function Do(t: Table, s: Step): Table {
    match s
    case Create(pull, dbId, path, line) =>
      t.(rows := t.rows + [Row(t.next, dbId, pull, None, path, line, false)], next := t.next + 1)
    case ReadParent(client, pull, parent) =>
      var p := Find(t.rows, parent);
      if p.None? || p.value.pull != pull then t
      else t.(waiting := t.waiting[client := Waiting(pull, RootOf(p.value), p.value.path, p.value.line)])
    case CommitReply(client, dbId) =>
      if client !in t.waiting then t
      else
        var w := t.waiting[client];
        var u := t.(waiting := t.waiting - {client});
        // The foreign key refuses a root that is gone.
        if Find(t.rows, w.root).None? then u
        else u.(rows := t.rows + [Row(t.next, dbId, w.pull, Some(w.root), w.path, w.line, false)], next := t.next + 1)
    case Delete(pk) => t.(rows := Without(t.rows, pk))
  }

  function Run(t: Table, steps: seq<Step>): Table {
    if steps == [] then t else Do(Run(t, steps[..|steps| - 1]), steps[|steps| - 1])
  }

  const Empty := Table([], 0, map[])

  /** Keys increase; every reply points at an earlier root of its own pull; a waiting reply will too,
      if its root is still there. */
  ghost predicate Flat(t: Table) {
    && Increasing(t.rows)
    && (forall r :: r in t.rows ==> r.pk < t.next)
    && (forall r :: r in t.rows && r.inReplyTo.Some? ==> exists p :: IsParent(t.rows, r, p))
    && (forall c :: c in t.waiting ==> t.waiting[c].root < t.next)
    && (forall c, p :: c in t.waiting && p in t.rows && p.pk == t.waiting[c].root ==> p.inReplyTo.None? && p.pull == t.waiting[c].pull)
  }

  ghost predicate IsParent(rows: seq<Row>, r: Row, p: Row) {
    r.inReplyTo.Some? && p in rows && p.pk == r.inReplyTo.value && p.inReplyTo.None? && p.pull == r.pull && p.pk < r.pk
  }

  lemma {:induction false} FindIs(rows: seq<Row>, pk: nat)
    ensures Find(rows, pk).Some? ==> Find(rows, pk).value in rows && Find(rows, pk).value.pk == pk
    ensures Find(rows, pk).None? ==> forall r :: r in rows ==> r.pk != pk
  {
    if rows != [] {
      FindIs(rows[..|rows| - 1], pk);
      assert rows == rows[..|rows| - 1] + [rows[|rows| - 1]];
    }
  }

  /** A row that a deletion leaves, before and after. */
  ghost predicate Survives(rows: seq<Row>, pk: nat, before: Row, after: Row) {
    before in rows && before.pk != pk && after == Unhook(before, pk)
  }

  lemma {:induction false} WithoutComesFrom(rows: seq<Row>, pk: nat, r: Row)
    requires r in Without(rows, pk)
    ensures exists q :: Survives(rows, pk, q, r)
  {
    var front, last := rows[..|rows| - 1], rows[|rows| - 1];
    if r in Without(front, pk) {
      WithoutComesFrom(front, pk, r);
      var q :| Survives(front, pk, q, r);
      assert Survives(rows, pk, q, r);
    } else {
      assert Survives(rows, pk, last, r);
    }
  }

  lemma {:induction false} WithoutKeeps(rows: seq<Row>, pk: nat, q: Row)
    requires q in rows && q.pk != pk
    ensures Unhook(q, pk) in Without(rows, pk)
  {
    if q != rows[|rows| - 1] {
      WithoutKeeps(rows[..|rows| - 1], pk, q);
    }
  }

  ghost predicate Increasing(rows: seq<Row>) { forall i, j :: 0 <= i < j < |rows| ==> rows[i].pk < rows[j].pk }

  lemma IncreasingSnoc(rows: seq<Row>, last: Row)
    requires Increasing(rows) && forall r :: r in rows ==> r.pk < last.pk
    ensures Increasing(rows + [last])
  {
    forall i | 0 <= i < |rows| ensures rows[i].pk < last.pk {
      assert rows[i] in rows;
    }
  }

  lemma LastIsLargest(rows: seq<Row>, r: Row)
    requires Increasing(rows) && rows != [] && r in rows[..|rows| - 1]
    ensures r.pk < rows[|rows| - 1].pk
  {
    var k :| 0 <= k < |rows| - 1 && rows[k] == r;
  }

  lemma {:induction false} WithoutIncreases(rows: seq<Row>, pk: nat)
    requires Increasing(rows)
    ensures Increasing(Without(rows, pk))
  {
    if rows != [] {
      var front, last := rows[..|rows| - 1], rows[|rows| - 1];
      WithoutIncreases(front, pk);
      forall r | r in Without(front, pk) ensures r.pk < Unhook(last, pk).pk {
        WithoutComesFrom(front, pk, r);
        var q :| Survives(front, pk, q, r);
        LastIsLargest(rows, q);
      }
      IncreasingSnoc(Without(front, pk), Unhook(last, pk));
    }
  }

  lemma SamePkSameRow(t: Table, a: Row, b: Row)
    requires Flat(t) && a in t.rows && b in t.rows && a.pk == b.pk
    ensures a == b
  {
    var i :| 0 <= i < |t.rows| && t.rows[i] == a;
    var j :| 0 <= j < |t.rows| && t.rows[j] == b;
    assert i == j;
  }

  lemma AppendKeepsFlat(t: Table, r: Row)
    requires Flat(t) && r.pk == t.next
    requires r.inReplyTo.Some? ==> exists p :: IsParent(t.rows, r, p)
    ensures Flat(t.(rows := t.rows + [r], next := t.next + 1))
  {
    var rows := t.rows + [r];
    forall q | q in rows && q.inReplyTo.Some? ensures exists p :: IsParent(rows, q, p) {
      assert q in t.rows || q == r;
      var p :| IsParent(t.rows, q, p);
      assert IsParent(rows, q, p);
    }
    forall c, p | c in t.waiting && p in rows && p.pk == t.waiting[c].root ensures p.inReplyTo.None? && p.pull == t.waiting[c].pull {
      assert p in t.rows || p == r;
    }
    IncreasingSnoc(t.rows, r);
  }

  lemma DeleteKeepsFlat(t: Table, pk: nat)
    requires Flat(t)
    ensures Flat(Do(t, Delete(pk)))
  {
    var rows := Without(t.rows, pk);
    WithoutIncreases(t.rows, pk);
    forall r | r in rows ensures exists q :: Survives(t.rows, pk, q, r) {
      WithoutComesFrom(t.rows, pk, r);
    }
    forall r | r in rows && r.inReplyTo.Some? ensures exists p :: IsParent(rows, r, p) {
      var q :| Survives(t.rows, pk, q, r);
      var p :| IsParent(t.rows, q, p);
      WithoutKeeps(t.rows, pk, p);
      assert Unhook(p, pk) == p;
      assert IsParent(rows, r, p);
    }
    forall c, p | c in t.waiting && p in rows && p.pk == t.waiting[c].root ensures p.inReplyTo.None? && p.pull == t.waiting[c].pull {
      var q :| Survives(t.rows, pk, q, p);
    }
  }

  lemma ReadKeepsFlat(t: Table, client: nat, pull: int, parent: nat)
    requires Flat(t)
    ensures Flat(Do(t, ReadParent(client, pull, parent)))
  {
    FindIs(t.rows, parent);
    var found := Find(t.rows, parent);
    if found.Some? && found.value.pull == pull {
      var q := found.value;
      if q.inReplyTo.Some? {
        var top :| IsParent(t.rows, q, top);
        forall p | p in t.rows && p.pk == RootOf(q) ensures p == top {
          SamePkSameRow(t, p, top);
        }
      } else {
        forall p | p in t.rows && p.pk == RootOf(q) ensures p == q {
          SamePkSameRow(t, p, q);
        }
      }
    }
  }

  lemma CommitKeepsFlat(t: Table, client: nat, dbId: int)
    requires Flat(t)
    ensures Flat(Do(t, CommitReply(client, dbId)))
  {
    if client in t.waiting {
      var w := t.waiting[client];
      var u := t.(waiting := t.waiting - {client});
      FindIs(t.rows, w.root);
      if Find(t.rows, w.root).Some? {
        var p, r := Find(t.rows, w.root).value, Row(t.next, dbId, w.pull, Some(w.root), w.path, w.line, false);
        assert IsParent(u.rows, r, p);
        AppendKeepsFlat(u, r);
      }
    }
  }

  /** In every interleaving each reply points directly at an existing root of its own pull. */
  lemma {:induction false} RunsStayFlat(steps: seq<Step>)
    ensures Flat(Run(Empty, steps))
  {
    if steps != [] {
      var t, s := Run(Empty, steps[..|steps| - 1]), steps[|steps| - 1];
      RunsStayFlat(steps[..|steps| - 1]);
      match s
      case Create(pull, dbId, path, line) => AppendKeepsFlat(t, Row(t.next, dbId, pull, None, path, line, false));
      case ReadParent(client, pull, parent) => ReadKeepsFlat(t, client, pull, parent);
      case CommitReply(client, dbId) => CommitKeepsFlat(t, client, dbId);
      case Delete(pk) => DeleteKeepsFlat(t, pk);
    }
  }

  /** Deleting a root breaks its thread up: each of its replies is then the root of a thread of its own. */
  lemma DeletingRootSplits(t: Table, pk: nat, r: Row)
    requires Flat(t) && r in t.rows && r.inReplyTo == Some(pk)
    ensures Unhook(r, pk) in Do(t, Delete(pk)).rows && RootOf(Unhook(r, pk)) == r.pk
  {
    var p :| IsParent(t.rows, r, p);
    WithoutKeeps(t.rows, pk, r);
  }

  /** ListReviewComments: a pull's rows, in key order. */
  function OfPull(rows: seq<Row>, pull: int): seq<Row> {
    if rows == [] then []
    else
      var front, r := OfPull(rows[..|rows| - 1], pull), rows[|rows| - 1];
      if r.pull == pull then front + [r] else front
  }

  lemma {:induction false} OfPullAre(rows: seq<Row>, pull: int)
    ensures forall r :: r in OfPull(rows, pull) <==> r in rows && r.pull == pull
  {
    if rows != [] {
      OfPullAre(rows[..|rows| - 1], pull);
      assert rows == rows[..|rows| - 1] + [rows[|rows| - 1]];
    }
  }

  lemma {:induction false} OfPullIncreases(rows: seq<Row>, pull: int)
    requires Increasing(rows)
    ensures Increasing(OfPull(rows, pull))
  {
    if rows != [] {
      var front, last := rows[..|rows| - 1], rows[|rows| - 1];
      OfPullIncreases(front, pull);
      OfPullAre(front, pull);
      forall r | r in OfPull(front, pull) ensures r.pk < last.pk {
        LastIsLargest(rows, r);
      }
      IncreasingSnoc(OfPull(front, pull), last);
    }
  }

  lemma UnderIncreases(rows: seq<Row>, root: nat)
    requires Increasing(rows)
    ensures Increasing(Under(rows, root))
  {
    var at := UnderIsSubsequence(rows, root);
    forall i, j | 0 <= i < j < |at| ensures Under(rows, root)[i].pk < Under(rows, root)[j].pk {
      assert rows[at[i]].pk < rows[at[j]].pk;
    }
  }

  lemma ReplyFollows(all: seq<Row>, rows: seq<Row>, root: nat, r: Row)
    requires forall q :: q in rows <==> q in all && q.pull == r.pull
    requires Increasing(rows)
    requires r in Under(rows, root) && r.inReplyTo.Some? && exists p :: IsParent(all, r, p)
    ensures Under(rows, root)[0].pk < r.pk
  {
    var thread := Under(rows, root);
    UnderAre(rows, root);
    UnderIncreases(rows, root);
    var p :| IsParent(all, r, p);
    assert p in thread;
    var k :| 0 <= k < |thread| && thread[k] == p;
    assert k > 0 ==> thread[0].pk < thread[k].pk;
  }

  /** After any run, every thread of a pull's listing opens with its root, and the rest are replies to
      it: the root leads, by whatever steps the rows came about. */
  lemma ThreadsOpenWithTheirRoot(steps: seq<Step>, pull: int, root: nat)
    requires Under(OfPull(Run(Empty, steps).rows, pull), root) != []
    ensures var thread := Under(OfPull(Run(Empty, steps).rows, pull), root);
            && thread[0].pk == root && thread[0].inReplyTo.None?
            && forall i :: 1 <= i < |thread| ==> thread[i].inReplyTo == Some(root)
  {
    var t := Run(Empty, steps);
    RunsStayFlat(steps);
    var rows := OfPull(t.rows, pull);
    OfPullAre(t.rows, pull);
    OfPullIncreases(t.rows, pull);
    UnderAre(rows, root);
    UnderIncreases(rows, root);
    var thread := Under(rows, root);
    if thread[0].inReplyTo.Some? {
      ReplyFollows(t.rows, rows, root, thread[0]);
    }
    forall i | 1 <= i < |thread| ensures thread[i].inReplyTo == Some(root) {
      assert thread[0].pk < thread[i].pk;
      assert thread[i] in thread;
    }
  }

  // ---- Where comments stand, and what becomes of each request ----

  /** A reply stands where its root stands, and so does one under way. */
  ghost predicate Placed(t: Table) {
    && (forall r, p :: r in t.rows && IsParent(t.rows, r, p) ==> r.path == p.path && r.line == p.line)
    && (forall c, p :: c in t.waiting && p in t.rows && p.pk == t.waiting[c].root ==>
          t.waiting[c].path == p.path && t.waiting[c].line == p.line)
  }

  lemma AppendKeepsPlaced(t: Table, r: Row)
    requires Flat(t) && Placed(t) && r.pk == t.next
    requires forall p :: IsParent(t.rows, r, p) ==> r.path == p.path && r.line == p.line
    ensures Placed(t.(rows := t.rows + [r], next := t.next + 1))
  {
    var rows := t.rows + [r];
    forall q, p | q in rows && IsParent(rows, q, p) ensures q.path == p.path && q.line == p.line {
      assert p in t.rows && IsParent(t.rows, q, p);
    }
  }

  lemma DeleteKeepsPlaced(t: Table, pk: nat)
    requires Flat(t) && Placed(t)
    ensures Placed(Do(t, Delete(pk)))
  {
    var rows := Without(t.rows, pk);
    forall r, p | r in rows && IsParent(rows, r, p) ensures r.path == p.path && r.line == p.line {
      WithoutComesFrom(t.rows, pk, r);
      WithoutComesFrom(t.rows, pk, p);
      var r', p' :| Survives(t.rows, pk, r', r) && Survives(t.rows, pk, p', p);
      var top :| IsParent(t.rows, r', top);
      SamePkSameRow(t, top, p');
    }
    forall c, p | c in t.waiting && p in rows && p.pk == t.waiting[c].root
      ensures t.waiting[c].path == p.path && t.waiting[c].line == p.line
    {
      WithoutComesFrom(t.rows, pk, p);
      var p' :| Survives(t.rows, pk, p', p);
    }
  }

  lemma ReadKeepsPlaced(t: Table, client: nat, pull: int, parent: nat)
    requires Flat(t) && Placed(t)
    ensures Placed(Do(t, ReadParent(client, pull, parent)))
  {
    FindIs(t.rows, parent);
    var found := Find(t.rows, parent);
    if found.Some? && found.value.pull == pull {
      var q := found.value;
      forall p | p in t.rows && p.pk == RootOf(q) ensures q.path == p.path && q.line == p.line {
        if q.inReplyTo.Some? {
          var top :| IsParent(t.rows, q, top);
          SamePkSameRow(t, p, top);
        } else {
          SamePkSameRow(t, p, q);
        }
      }
    }
  }

  lemma CommitKeepsPlaced(t: Table, client: nat, dbId: int)
    requires Flat(t) && Placed(t)
    ensures Placed(Do(t, CommitReply(client, dbId)))
  {
    if client in t.waiting {
      var w := t.waiting[client];
      var u := t.(waiting := t.waiting - {client});
      FindIs(t.rows, w.root);
      if Find(t.rows, w.root).Some? {
        AppendKeepsPlaced(u, Row(t.next, dbId, w.pull, Some(w.root), w.path, w.line, false));
      }
    }
  }

  /** In every interleaving a reply stands on the path and line of its root. */
  lemma {:induction false} RunsStayPlaced(steps: seq<Step>)
    ensures Placed(Run(Empty, steps))
  {
    if steps != [] {
      var t, s := Run(Empty, steps[..|steps| - 1]), steps[|steps| - 1];
      RunsStayPlaced(steps[..|steps| - 1]);
      RunsStayFlat(steps[..|steps| - 1]);
      match s
      case Create(pull, dbId, path, line) => AppendKeepsPlaced(t, Row(t.next, dbId, pull, None, path, line, false));
      case ReadParent(client, pull, parent) => ReadKeepsPlaced(t, client, pull, parent);
      case CommitReply(client, dbId) => CommitKeepsPlaced(t, client, dbId);
      case Delete(pk) => DeleteKeepsPlaced(t, pk);
    }
  }

  /** A reply to a comment of the pull, whichever of a thread's comments it answers, is appended under the
      root of that comment, if the root still stands at the commit; otherwise nothing is. */
  lemma ReplyAppearsExactly(t: Table, client: nat, p: Row, dbId: int, between: Table)
    requires Flat(t) && p in t.rows
    requires between.waiting == Do(t, ReadParent(client, p.pull, p.pk)).waiting
    ensures var root := if p.inReplyTo.Some? then p.inReplyTo.value else p.pk;
            Do(between, CommitReply(client, dbId)).rows ==
              between.rows + if exists q :: q in between.rows && q.pk == root
                             then [Row(between.next, dbId, p.pull, Some(root), p.path, p.line, false)] else []
  {
    FindIs(t.rows, p.pk);
    SamePkSameRow(t, p, Find(t.rows, p.pk).value);
    FindIs(between.rows, RootOf(p));
    assert between.rows + [] == between.rows;
  }

  /** A reply to a comment of another pull, or to none, is refused. */
  lemma ReplyElsewhereRefused(t: Table, client: nat, pull: int, parent: nat)
    requires forall r :: r in t.rows && r.pull == pull ==> r.pk != parent
    ensures Do(t, ReadParent(client, pull, parent)) == t
  {
    FindIs(t.rows, parent);
  }

  /** Deleting takes away the row of that key and no other, and unhooks exactly its replies. */
  lemma DeletesExactly(t: Table, pk: nat, r: Row)
    ensures r in Do(t, Delete(pk)).rows <==>
              exists q :: q in t.rows && q.pk != pk && r == if q.inReplyTo == Some(pk) then q.(inReplyTo := None) else q
  {
    if r in Without(t.rows, pk) {
      WithoutComesFrom(t.rows, pk, r);
      var q :| Survives(t.rows, pk, q, r);
    }
    forall q | q in t.rows && q.pk != pk ensures Unhook(q, pk) in Without(t.rows, pk) { WithoutKeeps(t.rows, pk, q); }
  }

  /** A listed thread shows the identity, place and state of its root. */
  lemma ThreadShowsRoot(steps: seq<Step>, pull: int, outdated: Row -> bool, threads: seq<Thread>, k: nat, r: Row)
    requires var rows := OfPull(Run(Empty, steps).rows, pull);
             IsListing(rows, outdated, threads) && r in rows && k < |threads| && r.pk == threads[k].rootPk
    ensures threads[k].id == r.dbId && threads[k].path == r.path && threads[k].line == r.line
    ensures threads[k].isResolved == r.resolved && threads[k].isOutdated == outdated(r) && threads[k].comments[0] == r
  {
    var t := Run(Empty, steps);
    var rows := OfPull(t.rows, pull);
    RunsStayFlat(steps);
    OfPullAre(t.rows, pull);
    var root := Roots(rows)[k];
    ThreadsOpenWithTheirRoot(steps, pull, root);
    UnderAre(rows, root);
    assert Under(rows, root)[0] in Under(rows, root);
    SamePkSameRow(t, r, Under(rows, root)[0]);
    RootRowFound(rows, root, r);
    SamePkSameRow(t, r, RootRow(rows, root).value);
  }

  lemma {:induction false} RootRowFound(rows: seq<Row>, root: nat, r: Row)
    requires r in rows && r.pk == root && RootOf(r) == root
    ensures RootRow(rows, root).Some? && RootRow(rows, root).value in rows && RootRow(rows, root).value.pk == root
  {
    RootRowIsUnder(rows, root);
    UnderAre(rows, root);
    var last := rows[|rows| - 1];
    if !(last.pk == root && RootOf(last) == root) {
      RootRowFound(rows[..|rows| - 1], root, r);
    }
  }
}
