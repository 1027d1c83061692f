/** The tree rewrite of git/repo_write_file.go: one file written or deleted by rebuilding the trees
    on its path, as an update of the finite map from paths to files. */
module TreeEdit {
  import opened Strings
  import opened Sorting

  datatype Mode = Regular | Executable | Symlink | Submodule | Dir

  // Objects are content-addressed, so a tree entry stands for the object its hash names.
  datatype Obj = Blob(hash: string) | Subtree(tree: Tree)

  datatype Entry = Entry(name: string, mode: Mode, obj: Obj)

  datatype Tree = Tree(entries: seq<Entry>)

  const EmptyTree := Tree([])

  type Path = seq<string>

  datatype File = File(mode: Mode, hash: string)

  /** Distinct names at every level; exactly the directory entries hold trees. */
  ghost predicate WellFormed(t: Tree) {
    && (forall i, j :: 0 <= i < j < |t.entries| ==> t.entries[i].name != t.entries[j].name)
    && (forall e :: e in t.entries ==> (e.mode == Dir <==> e.obj.Subtree?))
    && (forall e :: e in t.entries && e.obj.Subtree? ==> WellFormed(e.obj.tree))
  }

  function Lookup(entries: seq<Entry>, name: string): Option<Entry> {
    if entries == [] then None
    else if entries[0].name == name then Some(entries[0])
    else Lookup(entries[1..], name)
  }

  /** The file at a path, if there is one. */
  function FileAt(t: Tree, path: Path): Option<File>
    decreases |path|
  {
    if path == [] then None
    else match Lookup(t.entries, path[0])
      case None => None
      case Some(e) =>
        match e.obj
        case Blob(hash) => if |path| == 1 then Some(File(e.mode, hash)) else None
        case Subtree(sub) => FileAt(sub, path[1..])
  }

  /** All files of a tree, by path. */
  ghost function Files(t: Tree): imap<Path, File> { imap p | FileAt(t, p).Some? :: FileAt(t, p).value }

  /** git's canonical key: a directory compares with a trailing slash. */
  function SortKey(e: Entry): string { if e.mode == Dir then e.name + "/" else e.name }

  function OtherEntries(entries: seq<Entry>, name: string): seq<Entry> {
    if entries == [] then []
    else
      var front, last := OtherEntries(entries[..|entries| - 1], name), entries[|entries| - 1];
      if last.name != name then front + [last] else front
  }

  /** The directory an edit descends into: the existing one, or an empty one. */
  function SubtreeFor(t: Tree, name: string): Tree {
    match Lookup(t.entries, name)
    case Some(e) => if e.mode == Dir && e.obj.Subtree? then e.obj.tree else EmptyTree
    case None => EmptyTree
  }

  /** What an edit puts under the first name of its path. A rebuilt directory is kept unless its hash is
      the zero hash, and no tree object has that, so it is always kept: see NoEmptyDirsExactly. */
  function Added(t: Tree, parts: Path, blob: string, del: bool): (added: seq<Entry>)
    requires parts != []
    ensures |added| <= 1 && (added != [] ==> added[0].name == parts[0])
    decreases |parts|, 0
  {
    var name := parts[0];
    if |parts| == 1 then if del then [] else [Entry(name, Regular, Blob(blob))]
    else [Entry(name, Dir, Subtree(Rebuild(SubtreeFor(t, name), parts[1..], blob, del)))]
  }

  /** rebuildTree. */
  function Rebuild(t: Tree, parts: Path, blob: string, del: bool): Tree
    requires parts != []
    decreases |parts|, 1
  {
    Tree(Sort(SortKey, OtherEntries(t.entries, parts[0]) + Added(t, parts, blob, del)))
  }

  /** The same, entry by entry, as the code runs it. */
  method RebuildTree(t: Tree, parts: Path, blob: string, del: bool) returns (r: Tree)
    requires parts != [] && WellFormed(t)
    ensures r == Rebuild(t, parts, blob, del)
    decreases |parts|
  {
    var name := parts[0];
    var newEntries: seq<Entry> := [];
    for i := 0 to |t.entries|
      invariant newEntries == OtherEntries(t.entries[..i], name)
    {
      assert t.entries[..i + 1][..i] == t.entries[..i];
      if t.entries[i].name != name {
        newEntries := newEntries + [t.entries[i]];
      }
    }
    assert t.entries[..|t.entries|] == t.entries;
    if |parts| == 1 {
      if !del {
        newEntries := newEntries + [Entry(name, Regular, Blob(blob))];
      }
    } else {
      var subTree := EmptyTree;
      var i := 0;
      while i < |t.entries|
        invariant 0 <= i <= |t.entries|
        invariant subTree == EmptyTree
        invariant forall j :: 0 <= j < i ==> !(t.entries[j].name == name && t.entries[j].mode == Dir)
      {
        if t.entries[i].name == name && t.entries[i].mode == Dir {
          LookupFinds(t.entries, t.entries[i]);
          assert t.entries[i] in t.entries;
          subTree := t.entries[i].obj.tree;
          break;
        }
        i := i + 1;
      }
      LookupIn(t.entries, name);
      assert subTree == SubtreeFor(t, name);
      SubtreeForWellFormed(t, name);
      var sub := RebuildTree(subTree, parts[1..], blob, del);
      newEntries := newEntries + [Entry(name, Dir, Subtree(sub))];
    }
    assert OtherEntries(t.entries, name) + [] == OtherEntries(t.entries, name);
    r := Tree(Sort(SortKey, newEntries));
  }

  // ---- Lookups ----

  lemma {:induction false} LookupIn(entries: seq<Entry>, name: string)
    ensures Lookup(entries, name).Some? ==> Lookup(entries, name).value in entries && Lookup(entries, name).value.name == name
    ensures Lookup(entries, name).None? ==> forall e :: e in entries ==> e.name != name
  {
    if entries != [] && entries[0].name != name {
      LookupIn(entries[1..], name);
      forall e | e in entries && Lookup(entries, name).None? ensures e.name != name {
        assert e == entries[0] || e in entries[1..];
      }
    }
  }

  ghost predicate DistinctNames(entries: seq<Entry>) {
    forall i, j :: 0 <= i < j < |entries| ==> entries[i].name != entries[j].name
  }

  /** Under distinct names an entry is what its name finds. */
  lemma LookupFinds(entries: seq<Entry>, e: Entry)
    requires DistinctNames(entries) && e in entries
    ensures Lookup(entries, e.name) == Some(e)
  {
    LookupIn(entries, e.name);
    var f := Lookup(entries, e.name).value;
    var i :| 0 <= i < |entries| && entries[i] == e;
    var j :| 0 <= j < |entries| && entries[j] == f;
    assert i < j ==> entries[i].name != entries[j].name;
    assert j < i ==> entries[j].name != entries[i].name;
  }

  lemma SubtreeForWellFormed(t: Tree, name: string)
    requires WellFormed(t)
    ensures WellFormed(SubtreeFor(t, name))
  {
    LookupIn(t.entries, name);
  }

  lemma {:induction false} InOtherEntries(entries: seq<Entry>, name: string, e: Entry)
    ensures e in OtherEntries(entries, name) <==> e in entries && e.name != name
  {
    if entries != [] {
      var front, last := entries[..|entries| - 1], entries[|entries| - 1];
      InOtherEntries(front, name, e);
      assert entries == front + [last];
    }
  }

  lemma SnocDistinct(front: seq<Entry>, last: Entry)
    ensures DistinctNames(front + [last]) <==> DistinctNames(front) && forall e :: e in front ==> e.name != last.name
  {
    var all := front + [last];
    if DistinctNames(all) {
      forall i, j | 0 <= i < j < |front| ensures front[i].name != front[j].name { assert all[i].name != all[j].name; }
      forall e | e in front ensures e.name != last.name {
        var i :| 0 <= i < |front| && front[i] == e;
        assert all[i].name != all[|front|].name;
      }
    }
  }

  lemma {:induction false} OtherEntriesDistinct(entries: seq<Entry>, name: string)
    requires DistinctNames(entries)
    ensures DistinctNames(OtherEntries(entries, name))
  {
    if entries != [] {
      var front, last := entries[..|entries| - 1], entries[|entries| - 1];
      assert entries == front + [last];
      SnocDistinct(front, last);
      OtherEntriesDistinct(front, name);
      forall e | e in OtherEntries(front, name) ensures e.name != last.name { InOtherEntries(front, name, e); }
      SnocDistinct(OtherEntries(front, name), last);
    }
  }

  lemma OtherEntriesAre(entries: seq<Entry>, name: string)
    requires DistinctNames(entries)
    ensures forall e :: e in OtherEntries(entries, name) <==> e in entries && e.name != name
    ensures DistinctNames(OtherEntries(entries, name))
  {
    forall e ensures e in OtherEntries(entries, name) <==> e in entries && e.name != name { InOtherEntries(entries, name, e); }
    OtherEntriesDistinct(entries, name);
  }

  lemma SortKeepsNames(entries: seq<Entry>)
    requires DistinctNames(entries)
    ensures DistinctNames(Sort(SortKey, entries))
  {
    var out := Sort(SortKey, entries);
    SortPermutes(SortKey, entries);
    SortKeepsDistinct(SortKey, entries);
    forall i, j | 0 <= i < j < |out| ensures out[i].name != out[j].name {
      if out[i].name == out[j].name {
        LookupFinds(entries, out[i]);
        LookupFinds(entries, out[j]);
      }
    }
  }

  /** One rebuilt level: every other entry as it was, and under the edited name only what was added. */
  ghost predicate Relevelled(before: seq<Entry>, name: string, added: seq<Entry>, after: seq<Entry>) {
    && DistinctNames(after)
    && (forall e :: e in after <==> (e in before && e.name != name) || e in added)
  }

  lemma RebuiltLevel(entries: seq<Entry>, name: string, added: seq<Entry>)
    requires DistinctNames(entries) && |added| <= 1 && (added != [] ==> added[0].name == name)
    ensures Relevelled(entries, name, added, Sort(SortKey, OtherEntries(entries, name) + added))
  {
    var all := OtherEntries(entries, name) + added;
    OtherEntriesAre(entries, name);
    AppendDistinct(OtherEntries(entries, name), added);
    SortKeepsNames(all);
    SortPermutes(SortKey, all);
  }

  lemma AppendDistinct(entries: seq<Entry>, added: seq<Entry>)
    requires DistinctNames(entries) && |added| <= 1
    requires added != [] ==> forall e :: e in entries ==> e.name != added[0].name
    ensures DistinctNames(entries + added)
  {
    forall i | 0 <= i < |entries| ensures added != [] ==> entries[i].name != added[0].name { assert entries[i] in entries; }
  }

  lemma LookupEdited(before: seq<Entry>, name: string, added: seq<Entry>, after: seq<Entry>)
    requires Relevelled(before, name, added, after) && |added| <= 1 && (added != [] ==> added[0].name == name)
    ensures Lookup(after, name) == if added == [] then None else Some(added[0])
  {
    LookupIn(after, name);
    if added != [] {
      LookupFinds(after, added[0]);
    }
  }

  lemma LookupOther(before: seq<Entry>, name: string, added: seq<Entry>, after: seq<Entry>, other: string)
    requires DistinctNames(before) && Relevelled(before, name, added, after)
    requires other != name && forall e :: e in added ==> e.name == name
    ensures Lookup(after, other) == Lookup(before, other)
  {
    LookupIn(after, other);
    LookupIn(before, other);
    if Lookup(before, other).Some? {
      LookupFinds(after, Lookup(before, other).value);
    }
  }

  // ---- The edit is a finite-map update ----

  /** One path runs through the other: equal, above or below. */
  predicate Comparable(p: Path, q: Path) { p <= q || q <= p }

  function Edited(before: Option<File>, path: Path, parts: Path, blob: string, del: bool): Option<File> {
    if path == parts then if del then None else Some(File(Regular, blob))
    else if Comparable(path, parts) then None
    else before
  }

  /** What each path holds afterwards: the target what was written, paths above and below it nothing,
      every other path what it held. */
  lemma {:induction false} RebuildEdits(t: Tree, parts: Path, blob: string, del: bool, path: Path)
    requires WellFormed(t) && parts != []
    ensures FileAt(Rebuild(t, parts, blob, del), path) == Edited(FileAt(t, path), path, parts, blob, del)
    decreases |parts|
  {
    if path != [] {
      var name := parts[0];
      var added := Added(t, parts, blob, del);
      var after := Rebuild(t, parts, blob, del).entries;
      RebuiltLevel(t.entries, name, added);
      if path[0] != name {
        LookupOther(t.entries, name, added, after, path[0]);
        assert !Comparable(path, parts);
      } else {
        LookupEdited(t.entries, name, added, after);
        PathTails(path, parts);
        if |parts| > 1 {
          var sub := SubtreeFor(t, name);
          SubtreeForWellFormed(t, name);
          RebuildEdits(sub, parts[1..], blob, del, path[1..]);
          Descend(t, name, path);
        }
      }
    }
  }

  /** A path into the edited name holds what the subtree descended into holds, unless it is the name
      itself. */
  lemma Descend(t: Tree, name: string, path: Path)
    requires WellFormed(t) && path != [] && path[0] == name
    ensures |path| > 1 ==> FileAt(t, path) == FileAt(SubtreeFor(t, name), path[1..])
  {
    LookupIn(t.entries, name);
  }

  lemma PathTails(path: Path, parts: Path)
    requires path != [] && parts != [] && path[0] == parts[0]
    ensures Comparable(path, parts) <==> Comparable(path[1..], parts[1..])
    ensures path == parts <==> path[1..] == parts[1..]
  {
    assert path == [path[0]] + path[1..] && parts == [parts[0]] + parts[1..];
    assert path <= parts <==> path[1..] <= parts[1..];
    assert parts <= path <==> parts[1..] <= path[1..];
  }

  /** The old files but for those at, above and below the target, plus the target when one is written. */
  ghost function Updated(files: imap<Path, File>, parts: Path, blob: string, del: bool): imap<Path, File> {
    (imap p | p in files && !Comparable(p, parts) :: files[p]) + if del then imap[] else imap[parts := File(Regular, blob)]
  }

  lemma EditedEverywhere(before: Tree, after: Tree, parts: Path, blob: string, del: bool)
    requires forall p :: FileAt(after, p) == Edited(FileAt(before, p), p, parts, blob, del)
    ensures Files(after) == Updated(Files(before), parts, blob, del)
  {
    forall p ensures p in Files(after) <==> p in Updated(Files(before), parts, blob, del) {}
  }

  /** The whole map at once. */
  lemma FilesUpdated(t: Tree, parts: Path, blob: string, del: bool)
    requires WellFormed(t) && parts != []
    ensures Files(Rebuild(t, parts, blob, del)) == Updated(Files(t), parts, blob, del)
  {
    forall p ensures FileAt(Rebuild(t, parts, blob, del), p) == Edited(FileAt(t, p), p, parts, blob, del) {
      RebuildEdits(t, parts, blob, del, p);
    }
    EditedEverywhere(t, Rebuild(t, parts, blob, del), parts, blob, del);
  }

  /** The rebuilt tree is well formed again. */
  lemma {:induction false} RebuildWellFormed(t: Tree, parts: Path, blob: string, del: bool)
    requires WellFormed(t) && parts != []
    ensures WellFormed(Rebuild(t, parts, blob, del))
    decreases |parts|
  {
    RebuiltLevel(t.entries, parts[0], Added(t, parts, blob, del));
    if |parts| > 1 {
      SubtreeForWellFormed(t, parts[0]);
      RebuildWellFormed(SubtreeFor(t, parts[0]), parts[1..], blob, del);
    }
  }

  /** Every level on the path is in git's canonical order, so the encoder accepts it. */
  ghost predicate CanonicalAlong(t: Tree, parts: Path)
    decreases |parts|
  {
    SortedBy(SortKey, t.entries) && (|parts| > 1 ==> CanonicalAlong(SubtreeFor(t, parts[0]), parts[1..]))
  }

  lemma {:induction false} RebuildCanonical(t: Tree, parts: Path, blob: string, del: bool)
    requires WellFormed(t) && parts != []
    ensures CanonicalAlong(Rebuild(t, parts, blob, del), parts)
    decreases |parts|
  {
    var added := Added(t, parts, blob, del);
    SortSorts(SortKey, OtherEntries(t.entries, parts[0]) + added);
    if |parts| > 1 {
      SubtreeForWellFormed(t, parts[0]);
      RebuildCanonical(SubtreeFor(t, parts[0]), parts[1..], blob, del);
      RebuiltLevel(t.entries, parts[0], added);
      LookupEdited(t.entries, parts[0], added, Rebuild(t, parts, blob, del).entries);
    }
  }

  /** Writing and then deleting the same path leaves the files as deleting alone would. */
  lemma WriteThenDelete(t: Tree, parts: Path, blob: string)
    requires WellFormed(t) && parts != []
    ensures Files(Rebuild(Rebuild(t, parts, blob, false), parts, blob, true)) == Files(Rebuild(t, parts, blob, true))
  {
    RebuildWellFormed(t, parts, blob, false);
    FilesUpdated(t, parts, blob, false);
    FilesUpdated(t, parts, blob, true);
    FilesUpdated(Rebuild(t, parts, blob, false), parts, blob, true);
  }

  // ---- Empty directories ----

  /** Every directory below the root holds something, at every depth. */
  ghost predicate NoEmptyDirs(t: Tree) {
    forall e :: e in t.entries && e.obj.Subtree? ==> e.obj.tree.entries != [] && NoEmptyDirs(e.obj.tree)
  }

  /** The directory the target is in holds nothing else; a missing directory holds nothing at all. */
  ghost predicate Alone(t: Tree, parts: Path)
    requires parts != []
    decreases |parts|
  {
    if |parts| == 1 then forall e :: e in t.entries ==> e.name == parts[0]
    else Alone(SubtreeFor(t, parts[0]), parts[1..])
  }

  lemma SubtreeForNoEmptyDirs(t: Tree, name: string)
    requires NoEmptyDirs(t)
    ensures NoEmptyDirs(SubtreeFor(t, name))
  {
    LookupIn(t.entries, name);
  }

  /** A level put together from a tree without empty directories and one new directory has none exactly
      when the new one is not empty and has none inside. */
  lemma LevelNoEmptyDirs(before: Tree, name: string, sub: Tree, after: Tree)
    requires NoEmptyDirs(before) && Relevelled(before.entries, name, [Entry(name, Dir, Subtree(sub))], after.entries)
    ensures NoEmptyDirs(after) <==> sub.entries != [] && NoEmptyDirs(sub)
  {
    assert Entry(name, Dir, Subtree(sub)) in after.entries;
  }

  lemma LeafNoEmptyDirs(t: Tree, name: string, blob: string, del: bool)
    requires WellFormed(t) && NoEmptyDirs(t)
    ensures NoEmptyDirs(Rebuild(t, [name], blob, del))
    ensures Rebuild(t, [name], blob, del).entries == [] <==> del && Alone(t, [name])
  {
    var after := Rebuild(t, [name], blob, del);
    var added := Added(t, [name], blob, del);
    RebuiltLevel(t.entries, name, added);
    if del && Alone(t, [name]) {
      SomeMember(after.entries);
    } else if del {
      var e :| e in t.entries && e.name != name;
      assert e in after.entries;
    } else {
      assert added[0] in after.entries;
    }
  }

  lemma SomeMember(entries: seq<Entry>)
    ensures entries == [] || exists e :: e in entries
  {
    if entries != [] {
      assert entries[0] in entries;
    }
  }

  /** The zero-hash test is meant to keep a directory only when something is left in it. An edit of a
      tree without empty directories does leave it so, exactly unless it deletes a target that is alone
      in its directory below the root. */
  lemma {:induction false} NoEmptyDirsExactly(t: Tree, parts: Path, blob: string, del: bool)
    requires WellFormed(t) && parts != [] && NoEmptyDirs(t)
    ensures NoEmptyDirs(Rebuild(t, parts, blob, del)) <==> !(del && |parts| > 1 && Alone(t, parts))
    decreases |parts|
  {
    var name := parts[0];
    if |parts| == 1 {
      assert parts == [name];
      LeafNoEmptyDirs(t, name, blob, del);
    } else {
      var sub, rest := SubtreeFor(t, name), parts[1..];
      SubtreeForWellFormed(t, name);
      SubtreeForNoEmptyDirs(t, name);
      RebuiltLevel(t.entries, name, Added(t, parts, blob, del));
      LevelNoEmptyDirs(t, name, Rebuild(sub, rest, blob, del), Rebuild(t, parts, blob, del));
      NoEmptyDirsExactly(sub, rest, blob, del);
      if |parts| == 2 {
        assert rest == [parts[1]];
        LeafNoEmptyDirs(sub, parts[1], blob, del);
      } else {
        RebuiltLevel(sub.entries, rest[0], Added(sub, rest, blob, del));
        assert Added(sub, rest, blob, del)[0] in Rebuild(sub, rest, blob, del).entries;
      }
    }
  }

  /** Deleting the only file of a directory leaves the directory behind, empty. */
  lemma EmptiedDirectoryStays(name: string, file: string, blob: string)
    ensures var t := Tree([Entry(name, Dir, Subtree(Tree([Entry(file, Regular, Blob(blob))])))]);
            WellFormed(t) && NoEmptyDirs(t) && !NoEmptyDirs(Rebuild(t, [name, file], "", true))
  {
    var inner := Tree([Entry(file, Regular, Blob(blob))]);
    var t := Tree([Entry(name, Dir, Subtree(inner))]);
    assert WellFormed(inner) && NoEmptyDirs(inner);
    assert [name, file][1..] == [file];
    NoEmptyDirsExactly(t, [name, file], "", true);
  }

  /** Deleting a file from a directory that is not there makes the directory, empty. */
  lemma MissingDirectoryAppears(name: string, file: string)
    ensures NoEmptyDirs(EmptyTree) && !NoEmptyDirs(Rebuild(EmptyTree, [name, file], "", true))
    ensures Rebuild(EmptyTree, [name, file], "", true) == Tree([Entry(name, Dir, Subtree(EmptyTree))])
  {
    assert [name, file][1..] == [file];
    NoEmptyDirsExactly(EmptyTree, [name, file], "", true);
    assert Rebuild(EmptyTree, [file], "", true) == EmptyTree;
    SortOne(SortKey, Entry(name, Dir, Subtree(EmptyTree)));
    assert OtherEntries([], name) + [Entry(name, Dir, Subtree(EmptyTree))] == [Entry(name, Dir, Subtree(EmptyTree))];
  }

  // ---- git's order ----

  /** The character that decides when one name starts the other: a directory counts as ending in '/'. */
  function AfterName(e: Entry, i: nat): int {
    if i < |e.name| then e.name[i] as int else if e.mode == Dir then '/' as int else 0
  }

  /** git's base_name_compare: the common length first, then the characters that follow. */
  predicate GitLeq(e: Entry, f: Entry) {
    var n := if |e.name| < |f.name| then |e.name| else |f.name|;
    if e.name[..n] != f.name[..n] then LexLeq(e.name[..n], f.name[..n]) else AfterName(e, n) <= AfterName(f, n)
  }

  /** A name git allows in a tree. */
  predicate GitName(name: string) { forall i :: 0 <= i < |name| ==> name[i] != '/' && name[i] as int != 0 }

  /** Sorting by the key is sorting the way git compares entries. */
  lemma {:induction false} KeyOrderIsGit(e: Entry, f: Entry)
    requires GitName(e.name) && GitName(f.name)
    ensures LexLeq(SortKey(e), SortKey(f)) <==> GitLeq(e, f)
    decreases |e.name|
  {
    if e.name != "" && f.name != "" && e.name[0] == f.name[0] {
      var e', f' := e.(name := e.name[1..]), f.(name := f.name[1..]);
      KeyOrderIsGit(e', f');
      TailOrder(e, f);
      assert SortKey(e)[1..] == SortKey(e') && SortKey(f)[1..] == SortKey(f');
    } else if e.name != "" && f.name != "" {
      HeadsDiffer(e, f);
    }
  }

  lemma TailOrder(e: Entry, f: Entry)
    requires e.name != "" && f.name != "" && e.name[0] == f.name[0]
    ensures GitLeq(e, f) <==> GitLeq(e.(name := e.name[1..]), f.(name := f.name[1..]))
  {
    var n := if |e.name| < |f.name| then |e.name| else |f.name|;
    var a, b := e.name[..n], f.name[..n];
    assert a[1..] == e.name[1..][..n - 1] && b[1..] == f.name[1..][..n - 1];
    assert a == [e.name[0]] + a[1..] && b == [f.name[0]] + b[1..];
  }

  lemma HeadsDiffer(e: Entry, f: Entry)
    requires e.name != "" && f.name != "" && e.name[0] != f.name[0]
    ensures LexLeq(SortKey(e), SortKey(f)) <==> GitLeq(e, f)
  {
    var n := if |e.name| < |f.name| then |e.name| else |f.name|;
    assert e.name[..n][0] == e.name[0] && f.name[..n][0] == f.name[0];
  }
}
