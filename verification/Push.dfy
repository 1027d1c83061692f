/** What a push moved: the diff of the refs before and after (gittransport/receivepack.go), its updates
    (domain/push.go), and the branches among them. */
module Push {
  import opened Strings

  type Sha = string

  type Refs = map<string, Sha>

  const ZERO_SHA: Sha := "0000000000000000000000000000000000000000"

  /** A value that stands for "no object" in an update. */
  predicate IsNull(sha: Sha) { sha == ZERO_SHA || sha == "" }

  datatype RefUpdate = RefUpdate(name: string, oldSha: Sha, newSha: Sha) {
    predicate Created() { IsNull(oldSha) }
    predicate Deleted() { IsNull(newSha) }
  }

  // ---- The snapshot diff ----

  predicate Same(before: Refs, after: Refs, name: string) {
    (name in before <==> name in after) && (name in before && name in after ==> before[name] == after[name])
  }

  function Side(refs: Refs, name: string): Sha { if name in refs then refs[name] else ZERO_SHA }

  ghost predicate Names(updates: seq<RefUpdate>, name: string) { exists i :: 0 <= i < |updates| && updates[i].name == name }

  /** Of the names seen, the updates list exactly those that differ, each once, with both sides. */
  ghost predicate DiffOver(before: Refs, after: Refs, updates: seq<RefUpdate>, seen: set<string>) {
    && (forall i :: 0 <= i < |updates| ==> updates[i] == RefUpdate(updates[i].name, Side(before, updates[i].name), Side(after, updates[i].name)))
    && (forall i, j :: 0 <= i < j < |updates| ==> updates[i].name != updates[j].name)
    && (forall name :: Names(updates, name) <==> name in seen && !Same(before, after, name))
  }

  /** The updates list exactly the refs that differ. */
  ghost predicate IsDiff(before: Refs, after: Refs, updates: seq<RefUpdate>) {
    DiffOver(before, after, updates, before.Keys + after.Keys)
  }

  lemma NamesSnoc(updates: seq<RefUpdate>, u: RefUpdate)
    ensures forall name :: Names(updates + [u], name) <==> Names(updates, name) || name == u.name
  {
    forall name ensures Names(updates + [u], name) <==> Names(updates, name) || name == u.name {
      if Names(updates, name) {
        var i :| 0 <= i < |updates| && updates[i].name == name;
        assert (updates + [u])[i].name == name;
      }
      if name == u.name {
        assert (updates + [u])[|updates|].name == name;
      }
    }
  }

  /** The update a ref calls for, when its sides differ. */
  function UpdateOf(before: Refs, after: Refs, name: string): seq<RefUpdate> {
    if Same(before, after, name) then [] else [RefUpdate(name, Side(before, name), Side(after, name))]
  }

  lemma DiffGrows(before: Refs, after: Refs, updates: seq<RefUpdate>, seen: set<string>, name: string)
    requires DiffOver(before, after, updates, seen) && name !in seen
    ensures DiffOver(before, after, updates + UpdateOf(before, after, name), seen + {name})
  {
    if Same(before, after, name) {
      assert updates + UpdateOf(before, after, name) == updates;
    } else {
      assert !Names(updates, name);
      NamesSnoc(updates, RefUpdate(name, Side(before, name), Side(after, name)));
    }
  }

  lemma DeletionGrows(before: Refs, after: Refs, updates: seq<RefUpdate>, seen: set<string>, name: string)
    requires DiffOver(before, after, updates, seen) && name !in seen && name in before && name !in after
    ensures DiffOver(before, after, updates + [RefUpdate(name, before[name], ZERO_SHA)], seen + {name})
  {
    DiffGrows(before, after, updates, seen, name);
    assert UpdateOf(before, after, name) == [RefUpdate(name, before[name], ZERO_SHA)];
  }

  /** diffSnapshots: both maps are ranged over in whatever order they yield their keys. */
  method DiffSnapshots(before: Refs, after: Refs) returns (updates: seq<RefUpdate>)
    ensures IsDiff(before, after, updates)
  {
    updates := RangeAfter(before, after);
    updates := RangeBefore(before, after, updates);
  }

  /** The first loop: refs created and moved. */
  method RangeAfter(before: Refs, after: Refs) returns (updates: seq<RefUpdate>)
    ensures DiffOver(before, after, updates, after.Keys)
  {
    updates := [];
    var todo := after.Keys;
    ghost var seen: set<string> := {};
    while todo != {}
      invariant forall name :: name in seen <==> name in after && name !in todo
      invariant todo <= after.Keys
      invariant DiffOver(before, after, updates, seen)
      decreases |todo|
    {
      var name :| name in todo;
      DiffGrows(before, after, updates, seen, name);
      ghost var grown := updates + UpdateOf(before, after, name);
      if name !in before {
        updates := updates + [RefUpdate(name, ZERO_SHA, after[name])];
      } else if before[name] != after[name] {
        updates := updates + [RefUpdate(name, before[name], after[name])];
      }
      assert updates == grown;
      todo, seen := todo - {name}, seen + {name};
    }
    assert seen == after.Keys;
  }

  /** The second loop: refs deleted. */
  method RangeBefore(before: Refs, after: Refs, soFar: seq<RefUpdate>) returns (updates: seq<RefUpdate>)
    requires DiffOver(before, after, soFar, after.Keys)
    ensures IsDiff(before, after, updates)
  {
    updates := soFar;
    var todo := before.Keys;
    ghost var seen := after.Keys;
    while todo != {}
      invariant forall name :: name in seen <==> name in after || (name in before && name !in todo)
      invariant todo <= before.Keys
      invariant DiffOver(before, after, updates, seen)
      decreases |todo|
    {
      var name :| name in todo;
      if name !in after {
        DeletionGrows(before, after, updates, seen, name);
        updates, seen := updates + [RefUpdate(name, before[name], ZERO_SHA)], seen + {name};
      }
      todo := todo - {name};
    }
    assert seen == before.Keys + after.Keys;
  }

  /** What a reader of the batch makes of it, one line at a time. */
  function Apply(updates: seq<RefUpdate>, refs: Refs): Refs {
    if updates == [] then refs
    else
      var front, u := Apply(updates[..|updates| - 1], refs), updates[|updates| - 1];
      if u.Deleted() then front - {u.name} else front[u.name := u.newSha]
  }

  lemma {:induction false} AppliedAt(updates: seq<RefUpdate>, refs: Refs, name: string)
    requires forall i, j :: 0 <= i < j < |updates| ==> updates[i].name != updates[j].name
    ensures !Names(updates, name) ==> Same(refs, Apply(updates, refs), name)
    ensures forall i :: 0 <= i < |updates| && updates[i].name == name ==>
              (name in Apply(updates, refs) <==> !updates[i].Deleted())
              && (name in Apply(updates, refs) ==> Apply(updates, refs)[name] == updates[i].newSha)
  {
    if updates != [] {
      var front, u := updates[..|updates| - 1], updates[|updates| - 1];
      assert updates == front + [u];
      AppliedAt(front, refs, name);
      NamesSnoc(front, u);
      if u.name == name {
        assert !Names(front, name);
      }
    }
  }

  /** The refs that moved and whose new value reads as a deletion. */
  ghost predicate MovedToNull(before: Refs, after: Refs, name: string) {
    name in after && IsNull(after[name]) && !Same(before, after, name)
  }

  /** Replaying the batch over the old refs gives the new refs, exactly when no moved ref holds the
      value that marks an absent side. Git stores no ref at that value. */
  lemma ApplyDiff(before: Refs, after: Refs, updates: seq<RefUpdate>)
    requires IsDiff(before, after, updates)
    ensures Apply(updates, before) == after <==> forall name :: !MovedToNull(before, after, name)
  {
    var out := Apply(updates, before);
    forall name ensures Same(out, after, name) <==> !MovedToNull(before, after, name) {
      AppliedAt(updates, before, name);
      if Names(updates, name) {
        var i :| 0 <= i < |updates| && updates[i].name == name;
        assert updates[i] == RefUpdate(name, Side(before, name), Side(after, name));
      }
    }
    if forall name :: !MovedToNull(before, after, name) {
      forall name ensures Same(out, after, name) {
        assert !MovedToNull(before, after, name);
      }
      SameRefs(out, after);
    } else {
      var name :| MovedToNull(before, after, name);
      assert !Same(out, after, name);
    }
  }

  lemma SameRefs(a: Refs, b: Refs)
    requires forall name :: Same(a, b, name)
    ensures a == b
  {
    forall name ensures name in a <==> name in b { assert Same(a, b, name); }
    forall name | name in a ensures a[name] == b[name] { assert Same(a, b, name); }
  }

  /** Git stores no ref at the value that marks an absent side. */
  ghost predicate Stored(refs: Refs) { forall name :: name in refs ==> !IsNull(refs[name]) }

  /** Between stored snapshots an update reads as a creation exactly for a new ref and as a deletion
      exactly for a lost one, never as both, and no update leaves its ref where it was. */
  lemma UpdatesReadTruly(before: Refs, after: Refs, updates: seq<RefUpdate>, i: nat)
    requires IsDiff(before, after, updates) && Stored(before) && Stored(after) && i < |updates|
    ensures updates[i].Created() <==> updates[i].name !in before
    ensures updates[i].Deleted() <==> updates[i].name !in after
    ensures !(updates[i].Created() && updates[i].Deleted()) && updates[i].oldSha != updates[i].newSha
  {
    assert Names(updates, updates[i].name);
  }

  function Reversed(updates: seq<RefUpdate>): (r: seq<RefUpdate>)
  {
    seq(|updates|, i requires 0 <= i < |updates| => RefUpdate(updates[i].name, updates[i].newSha, updates[i].oldSha))
  }

  /** The batch carries enough to go back: with its sides exchanged it is a diff the other way. */
  lemma DiffReverses(before: Refs, after: Refs, updates: seq<RefUpdate>)
    requires IsDiff(before, after, updates)
    ensures IsDiff(after, before, Reversed(updates))
  {
    var r := Reversed(updates);
    forall name ensures Names(r, name) <==> !Same(after, before, name) {
      assert Same(after, before, name) <==> Same(before, after, name);
      if Names(r, name) {
        var i :| 0 <= i < |r| && r[i].name == name;
        assert updates[i].name == name;
      }
      if Names(updates, name) {
        var i :| 0 <= i < |updates| && updates[i].name == name;
        assert r[i].name == name;
      }
    }
  }

  // ---- The branches a batch moves ----

  const HEADS := "refs/heads/"

  function BranchRef(branch: string): string { HEADS + branch }

  /** The branch is there after the push, at another tip than before. */
  predicate Moved(before: Refs, after: Refs, branch: string) {
    var name := BranchRef(branch);
    name in after && !IsNull(after[name]) && !Same(before, after, name)
  }

  /** strings.CutPrefix(name, "refs/heads/"). */
  function BranchOf(name: string): (b: Option<string>)
    ensures b.Some? <==> HEADS <= name
    ensures b.Some? ==> name == BranchRef(b.value)
  {
    if HEADS <= name then Some(name[|HEADS|..]) else None
  }

  /** The branches a batch moves, with their new tips. */
  function Tips(updates: seq<RefUpdate>): map<string, Sha> {
    if updates == [] then map[]
    else
      var front, u := Tips(updates[..|updates| - 1]), updates[|updates| - 1];
      match BranchOf(u.name)
      case None => front
      case Some(b) => if u.Deleted() then front else front[b := u.newSha]
  }

  lemma {:induction false} TipsAt(updates: seq<RefUpdate>, branch: string)
    requires forall i, j :: 0 <= i < j < |updates| ==> updates[i].name != updates[j].name
    ensures branch in Tips(updates) <==> exists i :: 0 <= i < |updates| && updates[i].name == BranchRef(branch) && !updates[i].Deleted()
    ensures forall i :: 0 <= i < |updates| && updates[i].name == BranchRef(branch) && !updates[i].Deleted() ==> branch in Tips(updates) && Tips(updates)[branch] == updates[i].newSha
  {
    if updates != [] {
      var front, u := updates[..|updates| - 1], updates[|updates| - 1];
      assert updates == front + [u];
      TipsAt(front, branch);
      assert BranchOf(u.name) == Some(branch) <==> u.name == BranchRef(branch);
      if branch in Tips(front) {
        var i :| 0 <= i < |front| && front[i].name == BranchRef(branch) && !front[i].Deleted();
        assert updates[i] == front[i];
      }
    }
  }

  /** A diff moves exactly the branches that are there afterwards at another tip, to that tip. */
  lemma DiffTips(before: Refs, after: Refs, updates: seq<RefUpdate>, branch: string)
    requires IsDiff(before, after, updates)
    ensures branch in Tips(updates) <==> Moved(before, after, branch)
    ensures branch in Tips(updates) ==> Tips(updates)[branch] == after[BranchRef(branch)]
  {
    TipsAt(updates, branch);
    var name := BranchRef(branch);
    if Names(updates, name) {
      var i :| 0 <= i < |updates| && updates[i].name == name;
      assert updates[i] == RefUpdate(name, Side(before, name), Side(after, name));
    }
    if branch in Tips(updates) {
      var i :| 0 <= i < |updates| && updates[i].name == name && !updates[i].Deleted();
      assert Names(updates, name);
    }
  }
}
