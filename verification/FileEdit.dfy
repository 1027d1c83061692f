/** One file written to or deleted from a branch: the path split and the branch update around the tree
    rewrite (applyFileChange in git/repo_write_file.go). */
module FileEdit {
  import opened Strings
  import opened TreeEdit
  import Push

  // ---- The path ----

  /** One component folded onto those kept so far, as path.Clean does: "" and "." go, ".." takes its
      predecessor with it, and stays only where a relative path has none. */
  function Fold(kept: Path, part: string, rooted: bool): Path {
    if part == "" || part == "." then kept
    else if part != ".." then kept + [part]
    else if kept != [] && kept[|kept| - 1] != ".." then kept[..|kept| - 1]
    else if rooted then kept
    else kept + [part]
  }

  function Kept(parts: Path, rooted: bool): Path {
    if parts == [] then [] else Fold(Kept(parts[..|parts| - 1], rooted), parts[|parts| - 1], rooted)
  }

  predicate Rooted(path: string) { path != "" && path[0] == '/' }

  /** path.Clean. */
  function Clean(path: string): string {
    var kept := Kept(Split(path, '/'), Rooted(path));
    if Rooted(path) then "/" + Join(kept, '/') else if kept == [] then "." else Join(kept, '/')
  }

  /** The components applyFileChange hands to rebuildTree. */
  function PathParts(path: string): (parts: Path)
    ensures parts != []
  {
    Split(Clean(TrimPrefix(path, "/")), '/')
  }

  predicate ProperName(name: string) { name != "" && name != "." && name != ".." && '/' !in name }

  predicate ProperPath(parts: Path) { parts != [] && forall i :: 0 <= i < |parts| ==> ProperName(parts[i]) }

  /** The names kept: leading ".."s, of a relative path only, then proper names. */
  ghost predicate Climbs(kept: Path, ups: nat) {
    && ups <= |kept|
    && (forall i :: 0 <= i < ups ==> kept[i] == "..")
    && (forall i :: ups <= i < |kept| ==> ProperName(kept[i]))
  }

  lemma {:induction false} KeptClimbs(parts: Path, rooted: bool) returns (ups: nat)
    requires NoneContain(parts, '/')
    ensures Climbs(Kept(parts, rooted), ups) && (rooted ==> ups == 0)
  {
    if parts == [] {
      ups := 0;
    } else {
      var front, part := parts[..|parts| - 1], parts[|parts| - 1];
      ups := KeptClimbs(front, rooted);
      var before := Kept(front, rooted);
      if part == ".." && !rooted && |before| == ups {
        ups := ups + 1;
      }
    }
  }

  lemma ClimbsIsSplittable(kept: Path, ups: nat)
    requires Climbs(kept, ups)
    ensures NoneContain(kept, '/')
  {
    forall i | 0 <= i < |kept| ensures '/' !in kept[i] {
      assert i < ups ==> kept[i] == "..";
    }
  }

  lemma SplitAfterSlash(rest: string)
    ensures Split("/" + rest, '/') == [""] + Split(rest, '/')
  {
    assert ("/" + rest)[1..] == rest;
  }

  /** The components of a path are proper file names exactly when, without one leading slash, it is
      relative, names something, and does not climb out of the root. */
  lemma PartsProperExactly(path: string)
    ensures var rel := TrimPrefix(path, "/");
            ProperPath(PathParts(path)) <==>
              !Rooted(rel) && Clean(rel) != "." && !(".." <= Clean(rel) && (|Clean(rel)| == 2 || Clean(rel)[2] == '/'))
  {
    var rel := TrimPrefix(path, "/");
    var kept := Kept(Split(rel, '/'), Rooted(rel));
    SplitNoneContain(rel, '/');
    var ups := KeptClimbs(Split(rel, '/'), Rooted(rel));
    ClimbsIsSplittable(kept, ups);
    if Rooted(rel) {
      SplitAfterSlash(Join(kept, '/'));
      assert PathParts(path)[0] == "";
    } else if kept == [] {
      SplitSingle(".", '/');
      assert PathParts(path)[0] == ".";
    } else {
      SplitOfJoin(kept, '/');
      assert PathParts(path) == kept;
      FirstOfJoin(kept);
      assert ups == 0 <==> ProperName(kept[0]);
    }
  }

  /** The text of joined components says what the first one is. */
  lemma FirstOfJoin(kept: Path)
    requires kept != [] && NoneContain(kept, '/') && forall i :: 0 <= i < |kept| ==> kept[i] != "" && kept[i] != "."
    ensures Join(kept, '/') != "."
    ensures kept[0] == ".." <==> ".." <= Join(kept, '/') && (|Join(kept, '/')| == 2 || Join(kept, '/')[2] == '/')
  {
    var s := Join(kept, '/');
    if |kept| == 1 {
      assert s == kept[0];
    } else {
      assert s == kept[0] + ['/'] + Join(kept[1..], '/');
      assert s[|kept[0]|] == '/';
      assert forall i :: 0 <= i < |kept[0]| ==> s[i] == kept[0][i] && s[i] != '/';
    }
  }

  /** Proper components joined by slashes split into themselves again: the path a listing shows is
      the path to write to. */
  lemma PartsRoundTrip(parts: Path)
    requires ProperPath(parts)
    ensures PathParts(Join(parts, '/')) == parts
  {
    var s := Join(parts, '/');
    SplitOfJoin(parts, '/');
    KeptProper(parts);
    assert s[0] == parts[0][0];
    assert TrimPrefix(s, "/") == s;
  }

  lemma {:induction false} KeptProper(parts: Path)
    requires forall i :: 0 <= i < |parts| ==> ProperName(parts[i])
    ensures Kept(parts, false) == parts
  {
    if parts != [] {
      KeptProper(parts[..|parts| - 1]);
    }
  }

  lemma {:induction false} KeptAgree(x: Path, x': Path, y: Path, rooted: bool)
    requires Kept(x, rooted) == Kept(x', rooted)
    ensures Kept(x + y, rooted) == Kept(x' + y, rooted)
  {
    if y == [] {
      assert x + y == x && x' + y == x';
    } else {
      var n := |y| - 1;
      KeptAgree(x, x', y[..n], rooted);
      assert (x + y)[..|x + y| - 1] == x + y[..n] && (x' + y)[..|x' + y| - 1] == x' + y[..n];
    }
  }

  lemma KeptSnoc(x: Path, part: string, rooted: bool)
    ensures Kept(x + [part], rooted) == Fold(Kept(x, rooted), part, rooted)
  {
    assert (x + [part])[..|x|] == x;
  }

  /** What path.Clean takes out of a path, wherever it stands: empty components, ".", and a name with the
      ".." behind it; in a rooted path also a ".." at the top. A ".." at the start of a relative path stays. */
  lemma NoiseGoes(x: Path, y: Path, name: string, rooted: bool)
    requires ProperName(name)
    ensures Kept(x + [""] + y, rooted) == Kept(x + y, rooted) == Kept(x + ["."] + y, rooted)
    ensures Kept(x + [name] + [".."] + y, rooted) == Kept(x + y, rooted)
    ensures Kept([".."] + y, true) == Kept(y, true) && Kept([".."], false) == [".."]
  {
    KeptSnoc(x, "", rooted);
    KeptAgree(x + [""], x, y, rooted);
    KeptSnoc(x, ".", rooted);
    KeptAgree(x + ["."], x, y, rooted);
    KeptSnoc(x, name, rooted);
    KeptSnoc(x + [name], "..", rooted);
    KeptAgree(x + [name] + [".."], x, y, rooted);
    KeptSnoc([], "..", true);
    KeptSnoc([], "..", false);
    assert [] + [".."] == [".."] && [] + y == y;
    KeptAgree([".."], [], y, true);
  }

  // ---- The branch ----

  datatype Commit = Commit(tree: Tree, parents: seq<Commit>)

  datatype Outcome = Done | NotFastForward | RefNotFound

  function BranchName(branch: string): string {
    if branch == "" then "refs/heads/main" else if "refs/" <= branch then branch else "refs/heads/" + branch
  }

  /** A branch is edited under the name a push reports it by; no name is the default branch, and a full
      ref name is taken as it is. */
  lemma BranchNameReads(branch: string)
    ensures branch != "" && !("refs/" <= branch) ==> Push.BranchOf(BranchName(branch)) == Some(branch)
    ensures Push.BranchOf(BranchName("")) == Some("main")
    ensures "refs/" <= branch ==> BranchName(branch) == branch
  {
  }

  /** Where an edit starts: the branch's tip, or nothing. */
  function Base(tips: map<string, Commit>, name: string): Tree { if name in tips then tips[name].tree else EmptyTree }

  /** The files an edit leaves: those at, above and below the target gone, the target as written. */
  ghost function EditedFiles(before: Tree, parts: Path, blob: string, del: bool): imap<Path, File> {
    (imap p | p in Files(before) && !Comparable(p, parts) :: Files(before)[p]) + (if del then imap[] else imap[parts := File(Regular, blob)])
  }

  datatype Request = Request(branch: string, path: string, blob: string, parentSha: string, del: bool)

  function Tip(tips: map<string, Commit>, name: string): Option<Commit> { if name in tips then Some(tips[name]) else None }

  /** What an edit makes of the branch tip it read: a refusal, or the commit to point the branch at. */
  function Prepare(hash: Commit -> string, tip: Option<Commit>, r: Request): (Outcome, Option<Commit>) {
    if tip.Some? && r.parentSha != "" && hash(tip.value) != r.parentSha then (NotFastForward, None)
    else if tip.None? && r.del then (RefNotFound, None)
    else
      var before := if tip.Some? then tip.value.tree else EmptyTree;
      (Done, Some(Commit(Rebuild(before, PathParts(r.path), r.blob, r.del), if tip.Some? then [tip.value] else [])))
  }

  function Pointed(tips: map<string, Commit>, name: string, commit: Option<Commit>): map<string, Commit> {
    if commit.Some? then tips[name := commit.value] else tips
  }

  /** The edit done in one piece. */
  function AfterEdit(hash: Commit -> string, tips: map<string, Commit>, r: Request): map<string, Commit> {
    Pointed(tips, BranchName(r.branch), Prepare(hash, Tip(tips, BranchName(r.branch)), r).1)
  }

  /** A well-formed tree with the files the edit calls for, in canonical order along the path. */
  ghost predicate IsEdit(before: Tree, after: Tree, parts: Path, blob: string, del: bool) {
    WellFormed(after) && Files(after) == EditedFiles(before, parts, blob, del) && CanonicalAlong(after, parts)
  }

  lemma RebuildIsEdit(before: Tree, parts: Path, blob: string, del: bool)
    requires WellFormed(before) && parts != []
    ensures IsEdit(before, Rebuild(before, parts, blob, del), parts, blob, del)
  {
    FilesUpdated(before, parts, blob, del);
    RebuildWellFormed(before, parts, blob, del);
    RebuildCanonical(before, parts, blob, del);
  }

  /** The refs of a repository; `hash` names a commit. */
  class Branches {
    const hash: Commit -> string
    var tips: map<string, Commit>

    ghost predicate Valid()
      reads this
    {
      forall name :: name in tips ==> WellFormed(tips[name].tree)
    }

    constructor (hash: Commit -> string)
      ensures Valid() && this.hash == hash && tips == map[]
    {
      this.hash, tips := hash, map[];
    }

    /** applyFileChange: refused when the branch is not where the caller last saw it, or when there is
        no branch to delete from; else one new commit on the old tip, and no other branch moves. */
    method ApplyFileChange(r: Request) returns (outcome: Outcome)
      requires Valid()
      modifies this
      ensures Valid()
      ensures outcome == Prepare(hash, Tip(old(tips), BranchName(r.branch)), r).0
      ensures tips == AfterEdit(hash, old(tips), r)
      ensures var name := BranchName(r.branch);
              && (outcome == NotFastForward <==> name in old(tips) && r.parentSha != "" && hash(old(tips)[name]) != r.parentSha)
              && (outcome == RefNotFound <==> name !in old(tips) && r.del)
              && (outcome != Done ==> tips == old(tips))
              && forall other :: other != name ==> (other in tips <==> other in old(tips)) && (other in tips ==> tips[other] == old(tips)[other])
      ensures outcome == Done ==>
                var name := BranchName(r.branch);
                && name in tips && tips[name].parents == (if name in old(tips) then [old(tips)[name]] else [])
                && IsEdit(Base(old(tips), name), tips[name].tree, PathParts(r.path), r.blob, r.del)
    {
      var name := BranchName(r.branch);
      var root, parents := EmptyTree, [];
      if name in tips {
        if r.parentSha != "" && hash(tips[name]) != r.parentSha {
          return NotFastForward;
        }
        root, parents := tips[name].tree, [tips[name]];
      } else if r.del {
        return RefNotFound;
      }
      var parts := PathParts(r.path);
      RebuildIsEdit(root, parts, r.blob, r.del);
      var tree := RebuildTree(root, parts, r.blob, r.del);
      tips := tips[name := Commit(tree, parents)];
      return Done;
    }
  }

  // ---- Two edits at once ----

  /** The tip is read and checked first and the ref is set last, with nothing held in between. Done in
      two pieces the edit leaves what it would leave done in one at the end, exactly when the branch
      has not moved meanwhile, or has moved to the very commit that is about to be set and would now be
      refused. */
  lemma TwoPiecesAreOneExactly(hash: Commit -> string, read: map<string, Commit>, now: map<string, Commit>, r: Request)
    requires Prepare(hash, Tip(read, BranchName(r.branch)), r).0 == Done
    ensures var name := BranchName(r.branch);
            var commit := Prepare(hash, Tip(read, name), r).1;
            Pointed(now, name, commit) == AfterEdit(hash, now, r) <==>
              || Tip(now, name) == Tip(read, name)
              || (Tip(now, name) == commit && Prepare(hash, Tip(now, name), r).0 != Done)
  {
    var name := BranchName(r.branch);
    var commit := Prepare(hash, Tip(read, name), r).1;
    assert Pointed(now, name, commit)[name] == commit.value;
    var again := Prepare(hash, Tip(now, name), r);
    if again.0 == Done && Tip(now, name) != Tip(read, name) {
      assert again.1.value.parents != commit.value.parents;
      assert AfterEdit(hash, now, r)[name] == again.1.value;
    }
  }

  /** So the parent check does not detect every race: of two edits that both saw the tip they named,
      the later one to finish wins, and the branch shows nothing of the earlier one. One after the
      other, the second would have been refused. */
  lemma RacedEditIsLost(hash: Commit -> string, tips: map<string, Commit>, first: Request, second: Request)
    requires var name := BranchName(first.branch);
             && name in tips && WellFormed(tips[name].tree) && BranchName(second.branch) == name
             && first.parentSha == second.parentSha == hash(tips[name]) != ""
    ensures var name := BranchName(first.branch);
            var one, two := Prepare(hash, Tip(tips, name), first), Prepare(hash, Tip(tips, name), second);
            && one.0 == two.0 == Done
            && (var raced := Pointed(Pointed(tips, name, one.1), name, two.1);
                Files(raced[name].tree) == EditedFiles(tips[name].tree, PathParts(second.path), second.blob, second.del))
            && (hash(one.1.value) != hash(tips[name]) ==> AfterEdit(hash, AfterEdit(hash, tips, first), second) == AfterEdit(hash, tips, first))
  {
    RebuildIsEdit(tips[BranchName(first.branch)].tree, PathParts(second.path), second.blob, second.del);
  }
}
