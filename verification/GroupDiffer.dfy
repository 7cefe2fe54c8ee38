/** `DirectoryLister`, `Diff` and `GroupDiffer` of sync_project.rb: the difference between the
    file system and the folder groups of a project. */
module GroupDiffer {
  import opened Text
  import opened Graph

  type Path = seq<string>

  /** A file reference object of the project; `id` is its identity. */
  datatype FileRef = FileRef(id: nat, path: Path, sourceTree: string)

  /** A folder group. Its directory need not be below that of its parent, and groups may share one. */
  datatype Group = Group(name: string, path: Path, children: seq<Group>, files: seq<FileRef>)

  /** What each directory holds, and which paths are regular files. */
  datatype FileSystem = FileSystem(dirs: map<Path, seq<Path>>, files: set<Path>)

  /** `ignore_basename?` or `ignore_pathname?` */
  type Ignore = Path -> bool

  // ----- what the groups and the file system hold -----

  function GroupDirs(g: Group): set<Path>
    decreases g
  {
    {g.path} + ForestDirs(g.children)
  }

  function ForestDirs(groups: seq<Group>): set<Path>
    decreases groups
  {
    if groups == [] then {} else GroupDirs(groups[0]) + ForestDirs(groups[1..])
  }

  function GroupRefs(g: Group): set<FileRef>
    decreases g
  {
    Elements(g.files) + ForestRefs(g.children)
  }

  function ForestRefs(groups: seq<Group>): set<FileRef>
    decreases groups
  {
    if groups == [] then {} else GroupRefs(groups[0]) + ForestRefs(groups[1..])
  }

  function Paths(refs: set<FileRef>): set<Path> {
    set r | r in refs :: r.path
  }

  /** Which directories a directory lists. */
  ghost function DirGraph(fs: FileSystem, ignore: Ignore): Digraph<Path> {
    map d | d in fs.dirs :: set c | c in fs.dirs[d] && !ignore(c) && c in fs.dirs
  }

  /** The other entries that a directory lists. */
  function FilesOf(fs: FileSystem, ignore: Ignore, d: Path): set<Path> {
    if d in fs.dirs then set c | c in fs.dirs[d] && !ignore(c) && c !in fs.dirs else {}
  }

  function FilesIn(fs: FileSystem, ignore: Ignore, dirs: set<Path>): set<Path> {
    set d, c | d in dirs && c in FilesOf(fs, ignore, d) :: c
  }

  /** The entries found below these directories, at any depth, without the ignored ones. */
  ghost predicate IsListed(fs: FileSystem, ignore: Ignore, starts: set<Path>, p: Path) {
    exists s, d :: s in starts && Reaches(DirGraph(fs, ignore), {}, s, d) && p in FilesOf(fs, ignore, d)
  }

  // ----- differences -----

  datatype DiffEntry = DiffEntry(inSource: bool, inTarget: bool, ref: Option<FileRef>)

  type Entries = map<Path, DiffEntry>

  predicate InSource(e: Entries, p: Path) { p in e && e[p].inSource }

  predicate InTarget(e: Entries, p: Path) { p in e && e[p].inTarget }

  function ToAdd(e: Entries): set<Path> { set p | p in e && e[p].inSource && !e[p].inTarget }

  function ToRemove(e: Entries): set<Path> { set p | p in e && !e[p].inSource && e[p].inTarget }

  /** `changes` */
  function Changes(e: Entries): nat {
    |set p | p in e && e[p].inSource != e[p].inTarget|
  }

  lemma ChangesCounts(e: Entries)
    ensures Changes(e) == |ToAdd(e)| + |ToRemove(e)|
  {
    assert (set p | p in e && e[p].inSource != e[p].inTarget) == ToAdd(e) + ToRemove(e);
    assert ToAdd(e) !! ToRemove(e);
  }

  /** `track(path)` */
  function Tracked(e: Entries, p: Path): DiffEntry {
    if p in e then e[p] else DiffEntry(false, false, None)
  }

  /** The entries after `in_source` is set for these paths. */
  function MarkSource(e: Entries, paths: set<Path>): Entries {
    map p | p in e.Keys + paths :: if p in paths then Tracked(e, p).(inSource := true) else e[p]
  }

  lemma MarkSourceTwice(e: Entries, a: set<Path>, b: set<Path>)
    ensures MarkSource(MarkSource(e, a), b) == MarkSource(e, a + b)
  {
  }

  /** The state of a differ: which directories it has read, and which references it has seen. */
  ghost predicate Tracks(fs: FileSystem, ignore: Ignore, e: Entries, dirs: set<Path>, refs: set<FileRef>) {
    && IsClosed(DirGraph(fs, ignore), {}, dirs)
    && (forall p :: InSource(e, p) <==> p in FilesIn(fs, ignore, dirs) || (p in Paths(refs) && p in fs.files))
    && (forall p :: InTarget(e, p) <==> p in Paths(refs))
    && (forall p :: p in e ==> e[p].inSource || e[p].inTarget)
    && (forall p :: p in e && e[p].inTarget ==> e[p].ref.Some? && e[p].ref.value in refs && e[p].ref.value.path == p)
  }

  /** What `GroupDiffer.diff` promises, whatever order it reads in and however groups alias. */
  ghost predicate IsDiff(fs: FileSystem, ignore: Ignore, groups: seq<Group>, e: Entries) {
    var refs := ForestRefs(groups);
    && (forall p :: InTarget(e, p) <==> p in Paths(refs))
    && (forall p :: InSource(e, p) <==>
                      IsListed(fs, ignore, ForestDirs(groups), p) || (p in Paths(refs) && p in fs.files))
    && (forall p :: p in e ==> e[p].inSource || e[p].inTarget)
    && (forall p :: p in e && e[p].inTarget ==> e[p].ref.Some? && e[p].ref.value in refs && e[p].ref.value.path == p)
  }

  // ----- reading a directory -----

  function PlainFiles(fs: FileSystem, ignore: Ignore, children: seq<Path>): set<Path> {
    set c | c in children && !ignore(c) && c !in fs.dirs
  }

  function SubDirs(fs: FileSystem, ignore: Ignore, children: seq<Path>): set<Path> {
    set c | c in children && !ignore(c) && c in fs.dirs
  }

  function ChildrenOf(fs: FileSystem, d: Path): seq<Path> {
    if d in fs.dirs then fs.dirs[d] else []
  }

  /** All of these directories but `parent` have been read with everything they list. */
  ghost predicate Below(fs: FileSystem, ignore: Ignore, parent: Path, read: set<Path>, dirs: set<Path>) {
    forall d :: d in read ==> Edges(DirGraph(fs, ignore), d) <= dirs && Reaches(DirGraph(fs, ignore), {}, parent, d)
  }

  /** The read of `parent` that began with `start` and `e0` has come to child `i`. */
  ghost predicate Partial(fs: FileSystem, ignore: Ignore, start: set<Path>, e0: Entries, parent: Path, i: nat,
                          dirs: set<Path>, e: Entries)
  {
    && i <= |ChildrenOf(fs, parent)|
    && parent !in start && start + {parent} <= dirs
    && Below(fs, ignore, parent, dirs - start - {parent}, dirs)
    && SubDirs(fs, ignore, ChildrenOf(fs, parent)[..i]) <= dirs
    && e == MarkSource(e0, FilesIn(fs, ignore, dirs - start - {parent})
                           + PlainFiles(fs, ignore, ChildrenOf(fs, parent)[..i]))
  }

  /** The read of `parent` that began with `start` and `e0` is over. */
  ghost predicate Complete(fs: FileSystem, ignore: Ignore, start: set<Path>, e0: Entries, parent: Path,
                           dirs: set<Path>, e: Entries)
  {
    && start + {parent} <= dirs
    && Below(fs, ignore, parent, dirs - start, dirs)
    && e == MarkSource(e0, FilesIn(fs, ignore, dirs - start))
  }

  lemma ReadNothing(fs: FileSystem, ignore: Ignore, start: set<Path>, e0: Entries, parent: Path)
    ensures parent in start ==> Complete(fs, ignore, start, e0, parent, start, e0)
    ensures parent !in start ==> Partial(fs, ignore, start, e0, parent, 0, start + {parent}, e0)
  {
    assert start - start == {} && start + {parent} - start - {parent} == {};
    assert MarkSource(e0, {}) == e0;
  }

  lemma ReadIgnored(fs: FileSystem, ignore: Ignore, start: set<Path>, e0: Entries, parent: Path, i: nat,
                    dirs: set<Path>, e: Entries)
    requires Partial(fs, ignore, start, e0, parent, i, dirs, e)
    requires i < |ChildrenOf(fs, parent)| && ignore(ChildrenOf(fs, parent)[i])
    ensures Partial(fs, ignore, start, e0, parent, i + 1, dirs, e)
  {
    NextChild(fs, ignore, ChildrenOf(fs, parent), i);
  }

  lemma NextChild(fs: FileSystem, ignore: Ignore, children: seq<Path>, i: nat)
    requires i < |children|
    ensures var c := children[i];
            && SubDirs(fs, ignore, children[..i + 1])
               == SubDirs(fs, ignore, children[..i]) + (if !ignore(c) && c in fs.dirs then {c} else {})
            && PlainFiles(fs, ignore, children[..i + 1])
               == PlainFiles(fs, ignore, children[..i]) + (if !ignore(c) && c !in fs.dirs then {c} else {})
  {
    assert children[..i + 1] == children[..i] + [children[i]];
  }

  lemma ReadFile(fs: FileSystem, ignore: Ignore, start: set<Path>, e0: Entries, parent: Path, i: nat,
                 dirs: set<Path>, e: Entries)
    requires Partial(fs, ignore, start, e0, parent, i, dirs, e)
    requires i < |ChildrenOf(fs, parent)| && !ignore(ChildrenOf(fs, parent)[i]) && ChildrenOf(fs, parent)[i] !in fs.dirs
    ensures var p := ChildrenOf(fs, parent)[i];
            Partial(fs, ignore, start, e0, parent, i + 1, dirs, e[p := Tracked(e, p).(inSource := true)])
  {
    var children := ChildrenOf(fs, parent);
    var p := children[i];
    NextChild(fs, ignore, children, i);
    var found := FilesIn(fs, ignore, dirs - start - {parent});
    assert e[p := Tracked(e, p).(inSource := true)] == MarkSource(e, {p});
    MarkSourceTwice(e0, found + PlainFiles(fs, ignore, children[..i]), {p});
    assert found + PlainFiles(fs, ignore, children[..i]) + {p} == found + PlainFiles(fs, ignore, children[..i + 1]);
  }

  lemma FilesSplit(fs: FileSystem, ignore: Ignore, a: set<Path>, b: set<Path>)
    ensures FilesIn(fs, ignore, a + b) == FilesIn(fs, ignore, a) + FilesIn(fs, ignore, b)
  {
  }

  lemma BelowGrows(fs: FileSystem, ignore: Ignore, parent: Path, path: Path, done: set<Path>, dirs: set<Path>,
                   more: set<Path>, dirs': set<Path>)
    requires Below(fs, ignore, parent, done, dirs) && dirs <= dirs'
    requires path in Edges(DirGraph(fs, ignore), parent) && Below(fs, ignore, path, more, dirs')
    ensures Below(fs, ignore, parent, done + more, dirs')
  {
    var g := DirGraph(fs, ignore);
    forall d | d in more ensures Reaches(g, {}, parent, d) {
      ReachesFrom(g, {}, parent, path, d);
    }
  }

  lemma EntriesGrow(fs: FileSystem, ignore: Ignore, e0: Entries, done: set<Path>, plain: set<Path>, more: set<Path>)
    ensures MarkSource(MarkSource(e0, FilesIn(fs, ignore, done) + plain), FilesIn(fs, ignore, more))
         == MarkSource(e0, FilesIn(fs, ignore, done + more) + plain)
  {
    FilesSplit(fs, ignore, done, more);
    MarkSourceTwice(e0, FilesIn(fs, ignore, done) + plain, FilesIn(fs, ignore, more));
    assert FilesIn(fs, ignore, done) + plain + FilesIn(fs, ignore, more) == FilesIn(fs, ignore, done + more) + plain;
  }

  lemma ReadDirectory(fs: FileSystem, ignore: Ignore, start: set<Path>, e0: Entries, parent: Path, i: nat,
                      dirs: set<Path>, e: Entries, dirs': set<Path>, e': Entries)
    requires Partial(fs, ignore, start, e0, parent, i, dirs, e)
    requires i < |ChildrenOf(fs, parent)| && !ignore(ChildrenOf(fs, parent)[i]) && ChildrenOf(fs, parent)[i] in fs.dirs
    requires Complete(fs, ignore, dirs, e, ChildrenOf(fs, parent)[i], dirs', e')
    ensures Partial(fs, ignore, start, e0, parent, i + 1, dirs', e')
  {
    var children := ChildrenOf(fs, parent);
    var done, more := dirs - start - {parent}, dirs' - dirs;
    var all := dirs' - start - {parent};
    assert all == done + more;
    assert children[i] in Edges(DirGraph(fs, ignore), parent);
    assert Below(fs, ignore, parent, all, dirs') by {
      BelowGrows(fs, ignore, parent, children[i], done, dirs, more, dirs');
    }
    assert e' == MarkSource(e0, FilesIn(fs, ignore, all) + PlainFiles(fs, ignore, children[..i])) by {
      EntriesGrow(fs, ignore, e0, done, PlainFiles(fs, ignore, children[..i]), more);
    }
    NextChild(fs, ignore, children, i);
    assert PlainFiles(fs, ignore, children[..i + 1]) == PlainFiles(fs, ignore, children[..i]);
  }

  lemma ReadAll(fs: FileSystem, ignore: Ignore, start: set<Path>, e0: Entries, parent: Path, dirs: set<Path>,
                e: Entries)
    requires Partial(fs, ignore, start, e0, parent, |ChildrenOf(fs, parent)|, dirs, e)
    ensures Complete(fs, ignore, start, e0, parent, dirs, e)
  {
    var g, children := DirGraph(fs, ignore), ChildrenOf(fs, parent);
    assert children[..|children|] == children;
    ReachesSelf(g, {}, parent);
    assert Edges(g, parent) == SubDirs(fs, ignore, children);
    assert FilesOf(fs, ignore, parent) == PlainFiles(fs, ignore, children);
    assert dirs - start == (dirs - start - {parent}) + {parent};
    FilesSplit(fs, ignore, dirs - start - {parent}, {parent});
    assert FilesIn(fs, ignore, {parent}) == FilesOf(fs, ignore, parent);
  }

  // ----- reading groups -----

  /** Everything read in between is below one of these directories. */
  ghost predicate ReadFrom(fs: FileSystem, ignore: Ignore, starts: set<Path>, read: set<Path>) {
    forall d :: d in read ==> exists s :: s in starts && Reaches(DirGraph(fs, ignore), {}, s, d)
  }

  lemma TracksRead(fs: FileSystem, ignore: Ignore, e: Entries, dirs: set<Path>, refs: set<FileRef>, parent: Path,
                   dirs': set<Path>, e': Entries)
    requires Tracks(fs, ignore, e, dirs, refs) && Complete(fs, ignore, dirs, e, parent, dirs', e')
    ensures Tracks(fs, ignore, e', dirs', refs)
    ensures ReadFrom(fs, ignore, {parent}, dirs' - dirs)
  {
    var more := dirs' - dirs;
    assert dirs' == dirs + more;
    FilesSplit(fs, ignore, dirs, more);
    MarkSourceMarks(e, FilesIn(fs, ignore, more));
  }

  lemma MarkSourceMarks(e: Entries, paths: set<Path>)
    ensures var e' := MarkSource(e, paths);
            && (forall p :: InSource(e', p) <==> InSource(e, p) || p in paths)
            && (forall p :: InTarget(e', p) <==> InTarget(e, p))
            && (forall p :: p in e' && e'[p].inTarget ==> p in e && e[p].inTarget && e[p].ref == e'[p].ref)
            && (forall p :: p in e' ==> p in paths || (p in e && e'[p] == e[p]))
  {
  }

  /** The entries after a group names `ref`. */
  function MarkTarget(fs: FileSystem, e: Entries, ref: FileRef): Entries {
    var entry := Tracked(e, ref.path);
    e[ref.path := DiffEntry(entry.inSource || ref.path in fs.files, true, Some(ref))]
  }

  lemma TracksRef(fs: FileSystem, ignore: Ignore, e: Entries, dirs: set<Path>, refs: set<FileRef>, ref: FileRef)
    requires Tracks(fs, ignore, e, dirs, refs)
    ensures Tracks(fs, ignore, MarkTarget(fs, e, ref), dirs, refs + {ref})
  {
    assert Paths(refs + {ref}) == Paths(refs) + {ref.path};
    var e' := MarkTarget(fs, e, ref);
    forall p
      ensures InTarget(e', p) <==> p in Paths(refs + {ref})
      ensures InSource(e', p) <==> p in FilesIn(fs, ignore, dirs) || (p in Paths(refs + {ref}) && p in fs.files)
    {
      assert InTarget(e, p) <==> p in Paths(refs);
      assert InSource(e, p) <==> p in FilesIn(fs, ignore, dirs) || (p in Paths(refs) && p in fs.files);
    }
  }

  lemma {:induction false} ForestConcat(a: seq<Group>, b: seq<Group>)
    ensures ForestRefs(a + b) == ForestRefs(a) + ForestRefs(b)
    ensures ForestDirs(a + b) == ForestDirs(a) + ForestDirs(b)
    decreases |a|
  {
    if a == [] {
      assert a + b == b;
    } else {
      ForestConcat(a[1..], b);
      assert (a + b)[1..] == a[1..] + b && (a + b)[0] == a[0];
    }
  }

  lemma ForestNext(groups: seq<Group>, i: nat)
    requires i < |groups|
    ensures ForestRefs(groups[..i + 1]) == ForestRefs(groups[..i]) + GroupRefs(groups[i])
    ensures ForestDirs(groups[..i + 1]) == ForestDirs(groups[..i]) + GroupDirs(groups[i])
  {
    assert groups[..i + 1] == groups[..i] + [groups[i]];
    assert [groups[i]][1..] == [];
    ForestConcat(groups[..i], [groups[i]]);
  }

  lemma NextElement(files: seq<FileRef>, i: nat)
    requires i < |files|
    ensures Elements(files[..i + 1]) == Elements(files[..i]) + {files[i]}
  {
    assert files[..i + 1] == files[..i] + [files[i]];
  }

  lemma ReadFromMore(fs: FileSystem, ignore: Ignore, a: set<Path>, x: set<Path>, b: set<Path>, y: set<Path>)
    requires ReadFrom(fs, ignore, a, x) && ReadFrom(fs, ignore, b, y)
    ensures ReadFrom(fs, ignore, a + b, x + y)
  {
  }

  lemma ReadIsListed(fs: FileSystem, ignore: Ignore, starts: set<Path>, dirs: set<Path>, p: Path)
    requires ReadFrom(fs, ignore, starts, dirs) && p in FilesIn(fs, ignore, dirs)
    ensures IsListed(fs, ignore, starts, p)
  {
    var d :| d in dirs && p in FilesOf(fs, ignore, d);
    var s :| s in starts && Reaches(DirGraph(fs, ignore), {}, s, d);
  }

  lemma ListedIsRead(fs: FileSystem, ignore: Ignore, starts: set<Path>, dirs: set<Path>, p: Path)
    requires IsClosed(DirGraph(fs, ignore), {}, dirs) && starts <= dirs && IsListed(fs, ignore, starts, p)
    ensures p in FilesIn(fs, ignore, dirs)
  {
    var s, d :| s in starts && Reaches(DirGraph(fs, ignore), {}, s, d) && p in FilesOf(fs, ignore, d);
    ReachesStaysInside(DirGraph(fs, ignore), {}, dirs, s, d);
  }

  lemma DiffIsExact(fs: FileSystem, ignore: Ignore, groups: seq<Group>, e: Entries, dirs: set<Path>)
    requires Tracks(fs, ignore, e, dirs, ForestRefs(groups))
    requires ForestDirs(groups) <= dirs && ReadFrom(fs, ignore, ForestDirs(groups), dirs)
    ensures IsDiff(fs, ignore, groups, e)
  {
    forall p
      ensures InSource(e, p) <==> IsListed(fs, ignore, ForestDirs(groups), p)
                                  || (p in Paths(ForestRefs(groups)) && p in fs.files)
    {
      if p in FilesIn(fs, ignore, dirs) {
        ReadIsListed(fs, ignore, ForestDirs(groups), dirs, p);
      }
      if IsListed(fs, ignore, ForestDirs(groups), p) {
        ListedIsRead(fs, ignore, ForestDirs(groups), dirs, p);
      }
    }
  }

  class Differ {
    const fs: FileSystem
    const ignore: Ignore
    var dirs: set<Path>
    var entries: Entries

    constructor (fs: FileSystem, ignore: Ignore)
      ensures this.fs == fs && this.ignore == ignore && dirs == {} && entries == map[]
    {
      this.fs, this.ignore, dirs, entries := fs, ignore, {}, map[];
    }

    /** Reads a directory and those below it, unless it was read before. */
    method FindFsFiles(parent: Path)
      modifies this
      ensures Complete(fs, ignore, old(dirs), old(entries), parent, dirs, entries)
      decreases fs.dirs.Keys - dirs
    {
      ReadNothing(fs, ignore, dirs, entries, parent);
      if parent in dirs {
        return;
      }
      ghost var start, e0 := dirs, entries;
      dirs := dirs + {parent};
      var children := ChildrenOf(fs, parent);
      for i := 0 to |children|
        invariant Partial(fs, ignore, start, e0, parent, i, dirs, entries)
      {
        var path := children[i];
        if ignore(path) {
          ReadIgnored(fs, ignore, start, e0, parent, i, dirs, entries);
        } else if path in fs.dirs {
          assert parent in fs.dirs.Keys - start && parent !in fs.dirs.Keys - dirs;
          ghost var before, e := dirs, entries;
          FindFsFiles(path);
          ReadDirectory(fs, ignore, start, e0, parent, i, before, e, dirs, entries);
        } else {
          ReadFile(fs, ignore, start, e0, parent, i, dirs, entries);
          entries := entries[path := Tracked(entries, path).(inSource := true)];
        }
      }
      ReadAll(fs, ignore, start, e0, parent, dirs, entries);
    }

    /** Reads a group, its subgroups and their directories. */
    method DiffProjectFiles(group: Group, ghost refs: set<FileRef>)
      requires Tracks(fs, ignore, entries, dirs, refs)
      modifies this
      ensures Tracks(fs, ignore, entries, dirs, refs + GroupRefs(group))
      ensures old(dirs) + GroupDirs(group) <= dirs
      ensures ReadFrom(fs, ignore, GroupDirs(group), dirs - old(dirs))
      decreases group
    {
      ghost var start, e := dirs, entries;
      FindFsFiles(group.path);
      TracksRead(fs, ignore, e, start, refs, group.path, dirs, entries);
      ghost var here := dirs;
      DiffForest(group.children, refs);
      ReadFromMore(fs, ignore, {group.path}, here - start, ForestDirs(group.children), dirs - here);
      assert (here - start) + (dirs - here) == dirs - start;
      DiffFiles(group.files, refs + ForestRefs(group.children));
      assert refs + ForestRefs(group.children) + Elements(group.files) == refs + GroupRefs(group);
    }

    /** The loop over the files of a group. */
    method DiffFiles(files: seq<FileRef>, ghost refs: set<FileRef>)
      requires Tracks(fs, ignore, entries, dirs, refs)
      modifies this`entries
      ensures Tracks(fs, ignore, entries, dirs, refs + Elements(files))
    {
      assert refs + Elements(files[..0]) == refs;
      for i := 0 to |files|
        invariant Tracks(fs, ignore, entries, dirs, refs + Elements(files[..i]))
      {
        var ref := files[i];
        TracksRef(fs, ignore, entries, dirs, refs + Elements(files[..i]), ref);
        NextElement(files, i);
        assert refs + Elements(files[..i + 1]) == refs + Elements(files[..i]) + {ref};
        var entry := Tracked(entries, ref.path).(inTarget := true, ref := Some(ref));
        if ref.path in fs.files {
          entry := entry.(inSource := true);
        }
        entries := entries[ref.path := entry];
      }
      assert files[..|files|] == files;
    }

    method DiffForest(groups: seq<Group>, ghost refs: set<FileRef>)
      requires Tracks(fs, ignore, entries, dirs, refs)
      modifies this
      ensures Tracks(fs, ignore, entries, dirs, refs + ForestRefs(groups))
      ensures old(dirs) + ForestDirs(groups) <= dirs
      ensures ReadFrom(fs, ignore, ForestDirs(groups), dirs - old(dirs))
      decreases groups
    {
      ghost var start := dirs;
      assert refs + ForestRefs(groups[..0]) == refs;
      for i := 0 to |groups|
        invariant Tracks(fs, ignore, entries, dirs, refs + ForestRefs(groups[..i]))
        invariant start + ForestDirs(groups[..i]) <= dirs
        invariant ReadFrom(fs, ignore, ForestDirs(groups[..i]), dirs - start)
      {
        ghost var before := dirs;
        ForestNext(groups, i);
        DiffProjectFiles(groups[i], refs + ForestRefs(groups[..i]));
        assert refs + ForestRefs(groups[..i]) + GroupRefs(groups[i]) == refs + ForestRefs(groups[..i + 1]);
        ReadFromMore(fs, ignore, ForestDirs(groups[..i]), before - start, GroupDirs(groups[i]), dirs - before);
        assert (before - start) + (dirs - before) == dirs - start;
      }
      assert groups[..|groups|] == groups;
    }

    /** `diff(groups)` on a fresh differ. */
    method Diff(groups: seq<Group>) returns (e: Entries)
      requires dirs == {} && entries == map[]
      modifies this
      ensures IsDiff(fs, ignore, groups, e)
    {
      DiffForest(groups, {});
      assert {} + ForestRefs(groups) == ForestRefs(groups) && dirs - {} == dirs;
      DiffIsExact(fs, ignore, groups, entries, dirs);
      e := entries;
    }
  }

  lemma SidesDiffer(e: Entries, named: set<Path>, listed: set<Path>, files: set<Path>)
    requires forall p :: InTarget(e, p) <==> p in named
    requires forall p :: InSource(e, p) <==> p in listed || (p in named && p in files)
    ensures ToAdd(e) == listed - named
    ensures ToRemove(e) == named - listed - files
  {
    forall p
      ensures p in ToAdd(e) <==> p in listed - named
      ensures p in ToRemove(e) <==> p in named - listed - files
    {
      assert InTarget(e, p) <==> p in named;
      assert InSource(e, p) <==> p in listed || (p in named && p in files);
    }
  }

  /** The difference holds nothing but the two sides, so its changes are the symmetric difference. */
  lemma DiffCounts(fs: FileSystem, ignore: Ignore, groups: seq<Group>, e: Entries, listed: set<Path>)
    requires IsDiff(fs, ignore, groups, e)
    requires forall p :: p in listed <==> IsListed(fs, ignore, ForestDirs(groups), p)
    ensures var named := Paths(ForestRefs(groups));
            && ToAdd(e) == listed - named
            && ToRemove(e) == named - listed - fs.files
            && Changes(e) == |listed - named| + |named - listed - fs.files|
  {
    SidesDiffer(e, Paths(ForestRefs(groups)), listed, fs.files);
    ChangesCounts(e);
  }

  /** Only the set of directories and the set of references matter, not how groups nest or in which
      order they are read. */
  lemma OrderDoesNotMatter(fs: FileSystem, ignore: Ignore, a: seq<Group>, b: seq<Group>, ea: Entries, eb: Entries)
    requires IsDiff(fs, ignore, a, ea) && IsDiff(fs, ignore, b, eb)
    requires ForestDirs(a) == ForestDirs(b) && ForestRefs(a) == ForestRefs(b)
    ensures ToAdd(ea) == ToAdd(eb) && ToRemove(ea) == ToRemove(eb) && Changes(ea) == Changes(eb)
  {
    forall p
      ensures InSource(ea, p) <==> InSource(eb, p)
      ensures InTarget(ea, p) <==> InTarget(eb, p)
    {
      assert InTarget(ea, p) <==> p in Paths(ForestRefs(a));
      assert InTarget(eb, p) <==> p in Paths(ForestRefs(b));
      assert InSource(ea, p) <==>
               IsListed(fs, ignore, ForestDirs(a), p) || (p in Paths(ForestRefs(a)) && p in fs.files);
      assert InSource(eb, p) <==>
               IsListed(fs, ignore, ForestDirs(b), p) || (p in Paths(ForestRefs(b)) && p in fs.files);
    }
    forall p ensures p in ToAdd(ea) <==> p in ToAdd(eb) ensures p in ToRemove(ea) <==> p in ToRemove(eb) {
      assert InSource(ea, p) <==> InSource(eb, p);
      assert InTarget(ea, p) <==> InTarget(eb, p);
    }
    ChangesCounts(ea);
    ChangesCounts(eb);
  }
}
