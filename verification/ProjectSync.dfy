/** `Syncer.sync` of sync_project.rb: brings the folder groups and the target phases of a
    project in line with the file system. */
module ProjectSync {
  import opened Text
  import opened Graph
  import opened GroupDiffer
  import opened GroupForest
  import opened TargetSync

  // ----- one target -----

  /** Synchronizes one target, its entries in any order. */
  method SyncTarget(cfg: Config, def: TargetDef, projectFiles: set<FileRef>, t0: Target)
    returns (t: Target, changes: nat)
    ensures t.name == t0.name && (changes == 0 ==> t == t0)
    ensures TargetOk(cfg, t0) ==> TargetSynced(cfg, def, projectFiles, t0, t, changes)
  {
    var e := TargetDiff(cfg, def, projectFiles, t0);
    ghost var wanted := Wanted(cfg, def, projectFiles);
    t, changes := SyncEntries(cfg, e, t0, wanted);
    if TargetOk(cfg, t0) {
      HalfwayEnds(cfg, def, projectFiles, e, t0, t, ChangedOutside(cfg, e, {}));
    }
  }

  /** The loop over the entries. */
  method SyncEntries(cfg: Config, e: Entries, t0: Target, ghost wanted: set<Path>) returns (t: Target, changes: nat)
    requires IsTargetDiff(e, wanted, TargetRefs(t0))
    ensures t.name == t0.name && (changes == 0 ==> t == t0)
    ensures TargetOk(cfg, t0) ==> Progress(cfg, e, wanted, t0, {}, t, changes)
  {
    t, changes := t0, 0;
    ghost var tidy := TargetOk(cfg, t0);
    if tidy {
      ProgressBegins(cfg, e, wanted, t0);
    }
    var rest := e.Keys;
    while rest != {}
      invariant rest <= e.Keys && t.name == t0.name && (changes == 0 ==> t == t0)
      invariant tidy ==> Progress(cfg, e, wanted, t0, rest, t, changes)
      decreases rest
    {
      var p :| p in rest;
      if tidy {
        ProgressStep(cfg, e, wanted, t0, rest, t, changes, p);
      }
      var (t', n) := SyncEntry(cfg, t, p, e[p]);
      t, changes, rest := t', changes + n, rest - {p};
    }
  }

  // ----- all targets -----

  ghost predicate AllTidy(cfg: Config, targets: seq<Target>) {
    forall i :: 0 <= i < |targets| && IsSynced(cfg, targets[i]) ==> TargetOk(cfg, targets[i])
  }

  /** What a synchronized target should hold. */
  function Goal(cfg: Config, projectFiles: set<FileRef>, t: Target): set<Path>
    requires IsSynced(cfg, t)
  {
    WantedMembers(cfg, FindTarget(cfg.defs, t.name).value, projectFiles)
  }

  /** The number of members of the first `n` targets that differ from what they should hold. */
  function TargetChanges(cfg: Config, projectFiles: set<FileRef>, targets: seq<Target>, n: nat): nat
    requires n <= |targets|
  {
    if n == 0 then 0
    else
      var t := targets[n - 1];
      TargetChanges(cfg, projectFiles, targets, n - 1)
      + if IsSynced(cfg, t) then
          |Members(cfg, t) - Goal(cfg, projectFiles, t)| + |Goal(cfg, projectFiles, t) - Members(cfg, t)|
        else 0
  }

  /** A header is left alone unless its reference was removed. */
  ghost predicate SameHeaders(cfg: Config, removed: set<FileRef>, t0: Target, t: Target) {
    forall r: FileRef :: cfg.phaseOf(r.path) == NoPhase ==>
      (r in TargetRefs(t) <==> r in TargetRefs(t0) && r !in removed)
  }

  /** The first `n` targets hold what they should, the others are as before. */
  ghost predicate TargetsSynced(cfg: Config, projectFiles: set<FileRef>, before: seq<Target>, after: seq<Target>,
                                n: nat)
  {
    && |after| == |before| && n <= |before| && AllTidy(cfg, after)
    && (forall i :: 0 <= i < |after| ==> after[i].name == before[i].name && SameHeaders(cfg, {}, before[i], after[i]))
    && (forall i :: 0 <= i < |after| && (i >= n || !IsSynced(cfg, before[i])) ==> after[i] == before[i])
    && (forall i :: 0 <= i < n && IsSynced(cfg, before[i]) ==>
          Members(cfg, after[i]) == Goal(cfg, projectFiles, before[i]))
  }

  method SyncTargets(cfg: Config, projectFiles: set<FileRef>, before: seq<Target>)
    returns (after: seq<Target>, changes: nat)
    ensures changes == 0 ==> after == before
    ensures AllTidy(cfg, before) ==>
              && TargetsSynced(cfg, projectFiles, before, after, |before|)
              && changes == TargetChanges(cfg, projectFiles, before, |before|)
  {
    after, changes := before, 0;
    for i := 0 to |before|
      invariant |after| == |before| && after[i..] == before[i..] && (changes == 0 ==> after == before)
      invariant AllTidy(cfg, before) ==>
                  && TargetsSynced(cfg, projectFiles, before, after, i)
                  && changes == TargetChanges(cfg, projectFiles, before, i)
    {
      assert after[i] == after[i..][0] == before[i];
      assert after[i + 1..] == after[i..][1..] == before[i..][1..] == before[i + 1..];
      var def := FindTarget(cfg.defs, after[i].name);
      if def.Some? && def.value.syncSources {
        var t, n := SyncTarget(cfg, def.value, projectFiles, after[i]);
        if AllTidy(cfg, before) {
          NextTargetSynced(cfg, projectFiles, before, after, i, t, n);
        }
        after, changes := after[i := t], changes + n;
      }
    }
  }

  lemma NextTargetSynced(cfg: Config, projectFiles: set<FileRef>, before: seq<Target>, after: seq<Target>, i: nat,
                         t: Target, n: nat)
    requires TargetsSynced(cfg, projectFiles, before, after, i) && i < |before| && after[i] == before[i]
    requires IsSynced(cfg, before[i]) && t.name == before[i].name
    requires TargetSynced(cfg, FindTarget(cfg.defs, t.name).value, projectFiles, before[i], t, n)
    ensures TargetsSynced(cfg, projectFiles, before, after[i := t], i + 1)
    ensures TargetChanges(cfg, projectFiles, before, i + 1) == TargetChanges(cfg, projectFiles, before, i) + n
  {
    NextTargetHolds(cfg, projectFiles, before, after, i, t);
  }

  lemma NextTargetHolds(cfg: Config, projectFiles: set<FileRef>, before: seq<Target>, after: seq<Target>, i: nat,
                        t: Target)
    requires TargetsSynced(cfg, projectFiles, before, after, i) && i < |before|
    requires IsSynced(cfg, before[i]) && t.name == before[i].name && TargetOk(cfg, t)
    requires Members(cfg, t) == Goal(cfg, projectFiles, before[i]) && SameHeaders(cfg, {}, before[i], t)
    ensures TargetsSynced(cfg, projectFiles, before, after[i := t], i + 1)
  {
    var next := after[i := t];
    forall j | 0 <= j < |next|
      ensures next[j].name == before[j].name && SameHeaders(cfg, {}, before[j], next[j])
      ensures IsSynced(cfg, next[j]) ==> TargetOk(cfg, next[j])
    {
      assert j != i ==> next[j] == after[j];
    }
  }

  // ----- what a target holds after references were removed -----

  /** Removing a reference drops its build files from every phase of every target. */
  function DropRefs(t: Target, removed: set<FileRef>): Target {
    t.(headers := Keep(t.headers, removed),
       sources := Keep(t.sources, removed),
       resources := Keep(t.resources, removed))
  }

  function DropFromAll(targets: seq<Target>, removed: set<FileRef>): (r: seq<Target>)
    ensures |r| == |targets| && forall i :: 0 <= i < |r| ==> r[i] == DropRefs(targets[i], removed)
  {
    seq(|targets|, i requires 0 <= i < |targets| => DropRefs(targets[i], removed))
  }

  /** The target without one more reference. */
  function DropRef(t: Target, ref: FileRef): Target {
    t.(headers := Without(t.headers, ref),
       sources := Without(t.sources, ref),
       resources := Without(t.resources, ref))
  }

  lemma DropOneMore(t: Target, removed: set<FileRef>, ref: FileRef)
    ensures DropRef(DropRefs(t, removed), ref) == DropRefs(t, removed + {ref})
  {
    KeepWithout(t.headers, removed, ref);
    KeepWithout(t.sources, removed, ref);
    KeepWithout(t.resources, removed, ref);
  }

  lemma DropNothing(targets: seq<Target>)
    ensures DropFromAll(targets, {}) == targets
  {
    forall i | 0 <= i < |targets| ensures DropRefs(targets[i], {}) == targets[i] {
      KeepElements(targets[i].headers, {});
      KeepElements(targets[i].sources, {});
      KeepElements(targets[i].resources, {});
    }
  }

  lemma DroppedRefs(t: Target, removed: set<FileRef>)
    ensures TargetRefs(DropRefs(t, removed)) == TargetRefs(t) - removed
  {
    KeepElements(t.headers, removed);
    KeepElements(t.sources, removed);
    KeepElements(t.resources, removed);
  }

  lemma {:induction false} TidyKeep(phaseOf: Path -> Phase, refs: seq<FileRef>, here: Phase, removed: set<FileRef>)
    requires Tidy(phaseOf, refs, here)
    ensures Tidy(phaseOf, Keep(refs, removed), here)
  {
    if refs != [] {
      var first, rest, kept := refs[0], refs[1..], Keep(refs[1..], removed);
      assert forall i :: 0 <= i < |rest| ==> rest[i] == refs[i + 1];
      TidyKeep(phaseOf, rest, here, removed);
      KeepElements(rest, removed);
      forall i | 0 <= i < |kept| && phaseOf(first.path) != NoPhase ensures kept[i].path != first.path {
        assert kept[i] in Elements(kept) && kept[i] in Elements(rest);
      }
      TidyFirst(phaseOf, first, kept, here);
    }
  }

  lemma TidyFirst(phaseOf: Path -> Phase, first: FileRef, kept: seq<FileRef>, here: Phase)
    requires Tidy(phaseOf, kept, here) && (phaseOf(first.path) == NoPhase || phaseOf(first.path) == here)
    requires phaseOf(first.path) != NoPhase ==> forall i :: 0 <= i < |kept| ==> kept[i].path != first.path
    ensures Tidy(phaseOf, [first] + kept, here)
  {
    var refs := [first] + kept;
    assert forall i :: 0 < i < |refs| ==> refs[i] == kept[i - 1];
  }

  lemma DropKeepsTidy(cfg: Config, t: Target, removed: set<FileRef>)
    requires TargetOk(cfg, t)
    ensures TargetOk(cfg, DropRefs(t, removed))
  {
    TidyKeep(cfg.phaseOf, t.headers, NoPhase, removed);
    TidyKeep(cfg.phaseOf, t.sources, SourcePhase, removed);
    TidyKeep(cfg.phaseOf, t.resources, ResourcePhase, removed);
  }

  /** All targets after a run that removed these references: synchronized ones hold what they should,
      the others lose exactly the removed references, and so do the headers of all. */
  ghost predicate TargetsDone(cfg: Config, projectFiles: set<FileRef>, removed: set<FileRef>,
                              before: seq<Target>, after: seq<Target>)
  {
    && |after| == |before| && AllTidy(cfg, after)
    && (forall i :: 0 <= i < |after| ==>
          after[i].name == before[i].name && SameHeaders(cfg, removed, before[i], after[i]))
    && (forall i :: 0 <= i < |after| && !IsSynced(cfg, before[i]) ==> after[i] == DropRefs(before[i], removed))
    && (forall i :: 0 <= i < |after| && IsSynced(cfg, before[i]) ==>
          Members(cfg, after[i]) == Goal(cfg, projectFiles, before[i]))
  }

  /** No member of a synchronized target is among the removed references. */
  lemma DropKeepsMembers(cfg: Config, projectFiles: set<FileRef>, t: Target, removed: set<FileRef>)
    requires Paths(removed) !! Paths(projectFiles) && Members(cfg, t) <= Paths(projectFiles)
    ensures Members(cfg, DropRefs(t, removed)) == Members(cfg, t)
  {
    DroppedRefs(t, removed);
    forall r | r in TargetRefs(t) && cfg.phaseOf(r.path) != NoPhase ensures r !in removed {
      assert r.path in Members(cfg, t);
      assert r in removed ==> r.path in Paths(removed);
    }
  }

  lemma DropKeepsSynced(cfg: Config, projectFiles: set<FileRef>, removed: set<FileRef>,
                        before: seq<Target>, synced: seq<Target>)
    requires TargetsSynced(cfg, projectFiles, before, synced, |before|) && Paths(removed) !! Paths(projectFiles)
    ensures TargetsDone(cfg, projectFiles, removed, before, DropFromAll(synced, removed))
  {
    var after := DropFromAll(synced, removed);
    forall i | 0 <= i < |after|
      ensures SameHeaders(cfg, removed, before[i], after[i])
      ensures IsSynced(cfg, before[i]) ==>
                TargetOk(cfg, after[i]) && Members(cfg, after[i]) == Goal(cfg, projectFiles, before[i])
    {
      DroppedRefs(synced[i], removed);
      if IsSynced(cfg, before[i]) {
        DropKeepsTidy(cfg, synced[i], removed);
        assert Goal(cfg, projectFiles, before[i]) <= Paths(projectFiles);
        DropKeepsMembers(cfg, projectFiles, synced[i], removed);
      }
    }
  }

  // ----- the project -----

  /** What the file system offers to these groups. */
  ghost function Listed(cfg: Config, groups: seq<Group>): set<Path> {
    set d, c | d in cfg.fs.dirs && c in FilesOf(cfg.fs, cfg.ignore, d) && IsBelow(cfg, ForestDirs(groups), d) :: c
  }

  ghost predicate IsBelow(cfg: Config, starts: set<Path>, d: Path) {
    exists s :: s in starts && Reaches(DirGraph(cfg.fs, cfg.ignore), {}, s, d)
  }

  lemma ListedMeaning(cfg: Config, groups: seq<Group>, p: Path)
    ensures p in Listed(cfg, groups) <==> IsListed(cfg.fs, cfg.ignore, ForestDirs(groups), p)
  {
    if IsListed(cfg.fs, cfg.ignore, ForestDirs(groups), p) {
      var s, d :| s in ForestDirs(groups) && Reaches(DirGraph(cfg.fs, cfg.ignore), {}, s, d)
                  && p in FilesOf(cfg.fs, cfg.ignore, d);
      assert IsBelow(cfg, ForestDirs(groups), d);
    }
  }

  /** The paths that the groups refer to. */
  function Named(groups: seq<Group>): set<Path> { Paths(ForestRefs(groups)) }

  /** The paths whose references are to be removed. */
  ghost function Gone(cfg: Config, groups: seq<Group>): set<Path> {
    Named(groups) - Listed(cfg, groups) - cfg.fs.files
  }

  /** `find_project_files_after_removal` */
  function ProjectFiles(cfg: Config, files: set<FileRef>, removed: set<Path>): set<FileRef> {
    set r | r in files && r.sourceTree == "<group>" && r.path !in removed && !cfg.ignore(r.path)
  }

  /** What a synchronized target should hold, said by the files themselves: the paths of group
      references, not ignored, that match a source pattern, match no exclude pattern, and are no headers. */
  lemma WantedMeaning(cfg: Config, def: TargetDef, files: set<FileRef>, p: Path)
    ensures p in WantedMembers(cfg, def, ProjectFiles(cfg, files, {})) <==>
              && (exists r :: r in files && r.path == p && r.sourceTree == "<group>")
              && !cfg.ignore(p) && cfg.phaseOf(p) != NoPhase
              && (exists s :: s in def.sourceFiles && cfg.fnmatch(p, s))
              && (forall x :: x in def.excludeFiles ==> !cfg.fnmatch(p, x))
  {
    if r :| r in files && r.path == p && r.sourceTree == "<group>" && !cfg.ignore(p) {
      assert r in ProjectFiles(cfg, files, {});
    }
    if s :| s in def.sourceFiles && cfg.fnmatch(p, s) {
      assert MatchesAny(cfg, p, def.sourceFiles);
    }
    assert MatchesAny(cfg, p, def.excludeFiles) <==> exists x :: x in def.excludeFiles && cfg.fnmatch(p, x);
  }

  /** No two references to one of these paths. */
  ghost predicate SingleRefs(files: set<FileRef>, paths: set<Path>) {
    forall r, s :: r in files && s in files && r.path == s.path && r.path in paths ==> r == s
  }

  /** What a project must satisfy for a synchronization to be exact. */
  ghost predicate Ready(cfg: Config, groups: seq<Group>, files: set<FileRef>, targets: seq<Target>) {
    SingleRefs(files, Gone(cfg, groups)) && AllTidy(cfg, targets)
  }

  /** What a synchronization that counted `changes` achieves. */
  ghost predicate Synced(cfg: Config, groups0: seq<Group>, files0: set<FileRef>, targets0: seq<Target>,
                         groups: seq<Group>, files: set<FileRef>, targets: seq<Target>, changes: nat)
  {
    var listed, named, gone := Listed(cfg, groups0), Named(groups0), Gone(cfg, groups0);
    && Named(groups) == named + listed - gone
    && Paths(files) == Paths(files0) + (listed - named) - gone
    && (listed <= named && gone == {} ==> files == files0 && ForestRefs(groups) == ForestRefs(groups0))
    && TargetsDone(cfg, ProjectFiles(cfg, files, {}), files0 - files, targets0, targets)
    && changes == |listed - named| + |gone| + TargetChanges(cfg, ProjectFiles(cfg, files, {}), targets0, |targets0|)
  }

  ghost predicate AddedRefs(before: set<FileRef>, added: set<FileRef>, paths: set<Path>) {
    Paths(added) == paths && added !! before && forall r :: r in added ==> r.sourceTree == "<group>"
  }

  function RemovedRefs(e: Entries): set<FileRef> {
    set p | p in ToRemove(e) && e[p].ref.Some? :: e[p].ref.value
  }

  lemma DiffSets(cfg: Config, groups: seq<Group>, e: Entries)
    requires IsDiff(cfg.fs, cfg.ignore, groups, e)
    ensures ToAdd(e) == Listed(cfg, groups) - Named(groups)
    ensures ToRemove(e) == Gone(cfg, groups)
    ensures Changes(e) == |Listed(cfg, groups) - Named(groups)| + |Gone(cfg, groups)|
    ensures Paths(RemovedRefs(e)) == Gone(cfg, groups) && RemovedRefs(e) <= ForestRefs(groups)
  {
    forall p ensures p in Listed(cfg, groups) <==> IsListed(cfg.fs, cfg.ignore, ForestDirs(groups), p) {
      ListedMeaning(cfg, groups, p);
    }
    DiffCounts(cfg.fs, cfg.ignore, groups, e, Listed(cfg, groups));
    forall p | p in Gone(cfg, groups) ensures p in Paths(RemovedRefs(e)) {
      assert p in ToRemove(e);
      assert e[p].ref.value in RemovedRefs(e);
    }
  }

  lemma DiffEffect(cfg: Config, groups: seq<Group>, e: Entries)
    requires IsDiff(cfg.fs, cfg.ignore, groups, e)
    ensures ToAdd(e) == Listed(cfg, groups) - Named(groups) && |ToAdd(e)| <= Changes(e)
    ensures Changes(e) == 0 ==> ToAdd(e) == {} && RemovedRefs(e) == {}
  {
    DiffSets(cfg, groups, e);
  }

  /** With one reference for each removed path, removing the references removes the paths. */
  lemma RemovedExactly(files: set<FileRef>, removed: set<FileRef>, gone: set<Path>)
    requires SingleRefs(files, gone) && Paths(removed) == gone && removed <= files
    ensures Paths(files - removed) == Paths(files) - gone
    ensures forall r :: r in files ==> (r in removed <==> r.path in gone)
  {
    forall r | r in files && r.path in gone ensures r in removed {
      var s :| s in removed && s.path == r.path;
    }
    forall r | r in removed ensures r.path in gone {
      assert r.path in Paths(removed);
    }
  }

  lemma PathsAdd(a: set<FileRef>, b: set<FileRef>)
    ensures Paths(a + b) == Paths(a) + Paths(b)
  {
  }

  lemma OneMoreAdded(before: set<FileRef>, added: set<FileRef>, all: set<Path>, rest: set<Path>, ref: FileRef)
    requires ref.path in rest && rest <= all && ref.sourceTree == "<group>" && ref !in before
    requires AddedRefs(before, added, all - rest)
    ensures AddedRefs(before, added + {ref}, all - (rest - {ref.path}))
    ensures before + (added + {ref}) == before + added + {ref}
    ensures all - (rest - {ref.path}) == (all - rest) + {ref.path}
  {
    PathsAdd(added, {ref});
    assert Paths({ref}) == {ref.path};
  }

  /** Removing after adding: the groups, the files and the project files. */
  lemma ProjectAfter(cfg: Config, refs: set<FileRef>, files: set<FileRef>, added: set<FileRef>, removed: set<FileRef>,
                     found: set<Path>, gone: set<Path>)
    requires refs <= files && removed <= refs && AddedRefs(files, added, found) && found !! gone
    requires Paths(removed) == gone && SingleRefs(files, gone)
    ensures Paths(refs + added - removed) == Paths(refs) + found - gone
    ensures Paths(files + added - removed) == Paths(files) + found - gone
    ensures ProjectFiles(cfg, files + added - removed, {}) == ProjectFiles(cfg, files + added, gone)
  {
    forall r | r in added ensures r.path in found {
      assert r.path in Paths(added);
    }
    assert SingleRefs(files + added, gone) && SingleRefs(refs + added, gone);
    RemovedExactly(files + added, removed, gone);
    RemovedExactly(refs + added, removed, gone);
    PathsAdd(files, added);
    PathsAdd(refs, added);
  }

  lemma SyncSets(cfg: Config, groups0: seq<Group>, files0: set<FileRef>, e: Entries, added: set<FileRef>,
                 groups: seq<Group>, files: set<FileRef>)
    requires SingleRefs(files0, Gone(cfg, groups0)) && IsDiff(cfg.fs, cfg.ignore, groups0, e)
    requires ForestRefs(groups0) <= files0 && AddedRefs(files0, added, ToAdd(e))
    requires ForestRefs(groups) == ForestRefs(groups0) + added - RemovedRefs(e)
    requires files == files0 + added - RemovedRefs(e)
    ensures Named(groups) == Named(groups0) + Listed(cfg, groups0) - Gone(cfg, groups0)
    ensures Paths(files) == Paths(files0) + (Listed(cfg, groups0) - Named(groups0)) - Gone(cfg, groups0)
    ensures ProjectFiles(cfg, files, {}) == ProjectFiles(cfg, files0 + added, ToRemove(e))
    ensures files0 - files == RemovedRefs(e) && Paths(RemovedRefs(e)) == ToRemove(e)
    ensures Listed(cfg, groups0) <= Named(groups0) && Gone(cfg, groups0) == {} ==>
              files == files0 && ForestRefs(groups) == ForestRefs(groups0)
    ensures Changes(e) == |Listed(cfg, groups0) - Named(groups0)| + |Gone(cfg, groups0)|
  {
    DiffSets(cfg, groups0, e);
    ProjectAfter(cfg, ForestRefs(groups0), files0, added, RemovedRefs(e), ToAdd(e), ToRemove(e));
    UnionOfRest(Named(groups0), Listed(cfg, groups0));
    WhatIsMissing(files0, added, RemovedRefs(e));
    NoPathsNoRefs(added);
    NoPathsNoRefs(RemovedRefs(e));
  }

  lemma NoPathsNoRefs(refs: set<FileRef>)
    ensures Paths(refs) == {} ==> refs == {}
  {
    if refs != {} {
      var r :| r in refs;
      assert r.path in Paths(refs);
    }
  }

  lemma WhatIsMissing(files: set<FileRef>, added: set<FileRef>, removed: set<FileRef>)
    requires removed <= files && added !! files
    ensures files - (files + added - removed) == removed
  {
  }

  lemma UnionOfRest(a: set<Path>, b: set<Path>)
    ensures a + (b - a) == a + b
  {
  }

  lemma SyncAchieves(cfg: Config, groups0: seq<Group>, files0: set<FileRef>, targets0: seq<Target>, e: Entries,
                     added: set<FileRef>, pf: set<FileRef>, synced: seq<Target>,
                     groups: seq<Group>, files: set<FileRef>, targets: seq<Target>, n: nat)
    requires SingleRefs(files0, Gone(cfg, groups0)) && IsDiff(cfg.fs, cfg.ignore, groups0, e)
    requires ForestRefs(groups0) <= files0 && AddedRefs(files0, added, ToAdd(e))
    requires ForestRefs(groups) == ForestRefs(groups0) + added - RemovedRefs(e)
    requires files == files0 + added - RemovedRefs(e) && pf == ProjectFiles(cfg, files0 + added, ToRemove(e))
    requires TargetsSynced(cfg, pf, targets0, synced, |targets0|) && n == TargetChanges(cfg, pf, targets0, |targets0|)
    requires targets == DropFromAll(synced, RemovedRefs(e))
    ensures Synced(cfg, groups0, files0, targets0, groups, files, targets, Changes(e) + n)
  {
    SyncSets(cfg, groups0, files0, e, added, groups, files);
    DropKeepsSynced(cfg, pf, RemovedRefs(e), targets0, synced);
  }

  lemma InsertIntoForest(cfg: Config, groups: seq<Group>, k: nat, names: seq<string>, ref: FileRef, good: iset<Path>)
    requires k < |groups|
    ensures var groups' := groups[k := Insert(cfg.newDir, groups[k], names, ref)];
            && SameRoots(groups, groups')
            && ForestRefs(groups') == ForestRefs(groups) + {ref}
            && ForestDirs(groups) <= ForestDirs(groups')
            && (StaysIn(cfg.newDir, good) && AllIn(ForestDirs(groups), good) ==> AllIn(ForestDirs(groups'), good))
  {
    InsertAdds(cfg.newDir, groups[k], names, ref, good);
    ForestUpdate(groups, k, Insert(cfg.newDir, groups[k], names, ref));
  }

  ghost predicate SameRoots(a: seq<Group>, b: seq<Group>) {
    |a| == |b| && forall i :: 0 <= i < |a| ==> a[i].path == b[i].path
  }

  /** Some root group contains the path. */
  predicate HasRoot(groups: seq<Group>, p: Path) {
    exists i :: 0 <= i < |groups| && Contains(groups[i].path, p)
  }

  /** The directories from which a listing shows nothing that one from the groups' directories does
      not: those below one of theirs, and paths that are no directory. */
  ghost function Covered(cfg: Config, groups: seq<Group>): iset<Path> {
    iset d | IsBelow(cfg, ForestDirs(groups), d) || d !in cfg.fs.dirs
  }

  /** Groups created in covered directories get covered directories. */
  ghost predicate CreatesCovered(cfg: Config, groups: seq<Group>) {
    StaysIn(cfg.newDir, Covered(cfg, groups))
  }

  lemma ExistingCovered(cfg: Config, groups: seq<Group>)
    ensures AllIn(ForestDirs(groups), Covered(cfg, groups))
  {
    forall d | d in ForestDirs(groups) ensures d in Covered(cfg, groups) {
      ReachesSelf(DirGraph(cfg.fs, cfg.ignore), {}, d);
    }
  }

  /** The reference is in the group that its path, relative to the first root group that contains it,
      leads to from there. */
  ghost predicate Placed(groups: seq<Group>, r: FileRef) {
    var k := FindRoot(groups, r.path);
    k < |groups| && r in FilesAt(groups[k], SubPath(groups[k].path, r.path))
  }

  ghost predicate AllPlaced(groups: seq<Group>, added: set<FileRef>) {
    forall r :: r in added ==> Placed(groups, r)
  }

  lemma SameRootFound(a: seq<Group>, b: seq<Group>, p: Path)
    requires SameRoots(a, b)
    ensures FindRoot(a, p) == FindRoot(b, p)
  {
    var j, k := FindRoot(a, p), FindRoot(b, p);
    assert j < |a| ==> Contains(b[j].path, p);
    assert k < |b| ==> Contains(a[k].path, p);
  }

  lemma StaysPlaced(cfg: Config, groups: seq<Group>, k: nat, names: seq<string>, ref: FileRef, r: FileRef)
    requires k < |groups| && SameRoots(groups, groups[k := Insert(cfg.newDir, groups[k], names, ref)])
    requires Placed(groups, r)
             || (r == ref && k == FindRoot(groups, ref.path) && names == SubPath(groups[k].path, ref.path))
    ensures Placed(groups[k := Insert(cfg.newDir, groups[k], names, ref)], r)
  {
    var after := groups[k := Insert(cfg.newDir, groups[k], names, ref)];
    SameRootFound(groups, after, r.path);
    var j := FindRoot(groups, r.path);
    InsertPlaces(cfg.newDir, groups[k], names, ref, SubPath(groups[j].path, r.path));
  }

  lemma PlacedWithout(groups: seq<Group>, ref: FileRef, r: FileRef)
    requires Placed(groups, r) && r != ref
    ensures Placed(RemoveFromForest(groups, ref), r)
  {
    var k := FindRoot(groups, r.path);
    RemoveEach(groups, ref);
    SameRootFound(groups, RemoveFromForest(groups, ref), r.path);
    var names := SubPath(groups[k].path, r.path);
    RemoveKeepsPlaces(groups[k], ref, names);
    WithoutElements(FilesAt(groups[k], names), ref);
    assert r in Elements(FilesAt(groups[k], names)) - {ref};
  }

  /** References to the paths outside `rest` have been added to the groups and the files at entry. */
  ghost predicate Adding(cfg: Config, groups0: seq<Group>, files0: set<FileRef>,
                         groups: seq<Group>, files: set<FileRef>, added: set<FileRef>,
                         toAdd: set<Path>, rest: set<Path>, good: iset<Path>)
  {
    && (forall p :: p in toAdd - rest ==> HasRoot(groups0, p))
    && AddedRefs(files0, added, toAdd - rest) && files == files0 + added
    && ForestRefs(groups) == ForestRefs(groups0) + added
    && SameRoots(groups0, groups) && ForestDirs(groups0) <= ForestDirs(groups)
    && AllPlaced(groups, added)
    && (StaysIn(cfg.newDir, good) && AllIn(ForestDirs(groups0), good) ==> AllIn(ForestDirs(groups), good))
  }

  lemma AddingStep(cfg: Config, groups0: seq<Group>, files0: set<FileRef>, groups: seq<Group>, files: set<FileRef>,
                   added: set<FileRef>, toAdd: set<Path>, rest: set<Path>, good: iset<Path>,
                   k: nat, names: seq<string>, ref: FileRef)
    requires Adding(cfg, groups0, files0, groups, files, added, toAdd, rest, good)
    requires ref.path in rest && rest <= toAdd && ref.sourceTree == "<group>" && ref !in files
    requires k < |groups| && k == FindRoot(groups, ref.path) && names == SubPath(groups[k].path, ref.path)
    ensures Adding(cfg, groups0, files0, groups[k := Insert(cfg.newDir, groups[k], names, ref)], files + {ref},
                   added + {ref}, toAdd, rest - {ref.path}, good)
    ensures ForestRefs(groups[k := Insert(cfg.newDir, groups[k], names, ref)]) == ForestRefs(groups) + {ref}
  {
    assert Contains(groups0[k].path, ref.path);
    InsertIntoForest(cfg, groups, k, names, ref, good);
    OneMoreAdded(files0, added, toAdd, rest, ref);
    forall r | r in added + {ref} ensures Placed(groups[k := Insert(cfg.newDir, groups[k], names, ref)], r) {
      StaysPlaced(cfg, groups, k, names, ref, r);
    }
  }

  class Syncer {
    const cfg: Config
    var groups: seq<Group>
    var files: set<FileRef>
    var targets: seq<Target>
    var nextId: nat

    ghost predicate Valid()
      reads this
    {
      ForestRefs(groups) <= files && forall r :: r in files ==> r.id < nextId
    }

    constructor (cfg: Config, groups: seq<Group>, files: set<FileRef>, targets: seq<Target>, nextId: nat)
      requires ForestRefs(groups) <= files && forall r :: r in files ==> r.id < nextId
      ensures Valid() && this.cfg == cfg && this.groups == groups && this.files == files && this.targets == targets
    {
      this.cfg, this.groups, this.files, this.targets, this.nextId := cfg, groups, files, targets, nextId;
    }

    /** Adds a reference for every path, or stops at one that no root group contains. */
    method AddToProject(toAdd: set<Path>, ghost good: iset<Path>) returns (ok: bool, added: set<FileRef>)
      requires Valid()
      modifies this`groups, this`files, this`nextId
      ensures Valid()
      ensures ok <==> forall p :: p in toAdd ==> HasRoot(old(groups), p)
      ensures ok ==> AddedRefs(old(files), added, toAdd) && files == old(files) + added
                     && ForestRefs(groups) == old(ForestRefs(groups)) + added && AllPlaced(groups, added)
      ensures toAdd == {} ==> groups == old(groups) && files == old(files)
      ensures ForestDirs(old(groups)) <= ForestDirs(groups)
      ensures StaysIn(cfg.newDir, good) && AllIn(ForestDirs(old(groups)), good) ==> AllIn(ForestDirs(groups), good)
    {
      added := {};
      var rest := toAdd;
      while rest != {}
        invariant Valid() && rest <= toAdd
        invariant Adding(cfg, old(groups), old(files), groups, files, added, toAdd, rest, good)
        invariant rest == toAdd ==> groups == old(groups) && files == old(files)
        decreases rest
      {
        var p :| p in rest;
        var k := FindRoot(groups, p);
        if k == |groups| {
          assert !HasRoot(old(groups), p);
          return false, added;
        }
        var ref := FileRef(nextId, p, "<group>");
        var names := SubPath(groups[k].path, p);
        AddingStep(cfg, old(groups), old(files), groups, files, added, toAdd, rest, good, k, names, ref);
        groups := groups[k := Insert(cfg.newDir, groups[k], names, ref)];
        files, nextId := files + {ref}, nextId + 1;
        added, rest := added + {ref}, rest - {p};
      }
      assert toAdd - {} == toAdd;
      ok := true;
    }

    /** Takes the references out of the groups, the project and, with their build files, all targets. */
    method RemoveFromProject(removed: set<FileRef>)
      requires Valid()
      modifies this`groups, this`files, this`targets
      ensures Valid() && files == old(files) - removed
      ensures targets == DropFromAll(old(targets), removed)
      ensures removed == {} ==> groups == old(groups)
      ensures forall r :: Placed(old(groups), r) && r !in removed ==> Placed(groups, r)
      ensures ForestRefs(groups) == old(ForestRefs(groups)) - removed
      ensures ForestDirs(groups) == old(ForestDirs(groups))
    {
      DropNothing(targets);
      var rest := removed;
      assert removed - rest == {};
      while rest != {}
        invariant rest <= removed && files == old(files) - (removed - rest)
        invariant targets == DropFromAll(old(targets), removed - rest)
        invariant removed == {} ==> groups == old(groups)
        invariant forall r :: Placed(old(groups), r) && r !in removed ==> Placed(groups, r)
        invariant ForestRefs(groups) == old(ForestRefs(groups)) - (removed - rest)
        invariant ForestDirs(groups) == old(ForestDirs(groups))
        decreases rest
      {
        var ref :| ref in rest;
        RemoveFromForestRemoves(groups, ref);
        forall r | Placed(groups, r) && r != ref ensures Placed(RemoveFromForest(groups, ref), r) {
          PlacedWithout(groups, ref, r);
        }
        groups, files := RemoveFromForest(groups, ref), files - {ref};
        DropFromTargets(ref, old(targets), removed - rest);
        assert removed - (rest - {ref}) == (removed - rest) + {ref};
        rest := rest - {ref};
      }
      assert removed - {} == removed;
    }

    method DropFromTargets(ref: FileRef, ghost targets0: seq<Target>, ghost removed: set<FileRef>)
      requires targets == DropFromAll(targets0, removed)
      modifies this`targets
      ensures targets == DropFromAll(targets0, removed + {ref})
    {
      ghost var before := targets;
      for i := 0 to |targets|
        invariant |targets| == |before|
        invariant forall j :: 0 <= j < i ==> targets[j] == DropRefs(targets0[j], removed + {ref})
        invariant forall j :: i <= j < |targets| ==> targets[j] == before[j]
      {
        DropOneMore(targets0[i], removed, ref);
        targets := targets[i := DropRef(targets[i], ref)];
      }
    }

    /** Returns the number of changes, or None if an added path is in no root group. */
    method Sync() returns (r: Option<nat>)
      requires Valid()
      modifies this
      ensures Valid()
      ensures r.None? <==> exists p :: p in Listed(cfg, old(groups)) - Named(old(groups)) && !HasRoot(old(groups), p)
      ensures r.Some? ==> r.value >= |Listed(cfg, old(groups)) - Named(old(groups))|
      ensures r.Some? && old(Ready(cfg, groups, files, targets)) ==>
                Synced(cfg, old(groups), old(files), old(targets), groups, files, targets, r.value)
      ensures r.Some? ==> AllPlaced(groups, files - old(files))
      ensures r == Some(0) ==> groups == old(groups) && files == old(files) && targets == old(targets)
      ensures ForestDirs(old(groups)) <= ForestDirs(groups)
      ensures CreatesCovered(cfg, old(groups)) ==> AllIn(ForestDirs(groups), Covered(cfg, old(groups)))
    {
      ghost var groups0, files0, targets0 := groups, files, targets;
      var differ := new Differ(cfg.fs, cfg.ignore);
      var e := differ.Diff(groups);
      DiffEffect(cfg, groups0, e);
      ExistingCovered(cfg, groups0);
      ghost var added, synced;
      var n;
      r, added, synced, n := ApplyDiff(e, Covered(cfg, groups0));
      if r.Some? && Ready(cfg, groups0, files0, targets0) {
        SyncAchieves(cfg, groups0, files0, targets0, e, added, ProjectFiles(cfg, files0 + added, ToRemove(e)), synced,
                     groups, files, targets, n);
      }
    }

    /** Brings groups and targets in line with the difference `e`; `n` counts the changes in targets. */
    method ApplyDiff(e: Entries, ghost good: iset<Path>)
      returns (r: Option<nat>, ghost added: set<FileRef>, ghost synced: seq<Target>, n: nat)
      requires Valid()
      modifies this
      ensures Valid()
      ensures r.Some? <==> forall p :: p in ToAdd(e) ==> HasRoot(old(groups), p)
      ensures r.Some? ==>
                && r.value == Changes(e) + n && AddedRefs(old(files), added, ToAdd(e))
                && files == old(files) + added - RemovedRefs(e)
                && ForestRefs(groups) == ForestRefs(old(groups)) + added - RemovedRefs(e)
                && targets == DropFromAll(synced, RemovedRefs(e)) && AllPlaced(groups, files - old(files))
      ensures var pf := ProjectFiles(cfg, old(files) + added, ToRemove(e));
              r.Some? && AllTidy(cfg, old(targets)) ==>
                && TargetsSynced(cfg, pf, old(targets), synced, |old(targets)|)
                && n == TargetChanges(cfg, pf, old(targets), |old(targets)|)
      ensures r.Some? && n == 0 && ToAdd(e) == {} && RemovedRefs(e) == {} ==>
                groups == old(groups) && files == old(files) && targets == old(targets)
      ensures ForestDirs(old(groups)) <= ForestDirs(groups)
      ensures StaysIn(cfg.newDir, good) && AllIn(ForestDirs(old(groups)), good) ==> AllIn(ForestDirs(groups), good)
    {
      var ok, refs := AddToProject(ToAdd(e), good);
      added, synced, n := refs, targets, 0;
      if !ok {
        return None, added, synced, n;
      }
      targets, n := SyncTargets(cfg, ProjectFiles(cfg, files, ToRemove(e)), targets);
      synced := targets;
      DropNothing(synced);
      RemoveFromProject(RemovedRefs(e));
      return Some(Changes(e) + n), added, synced, n;
    }
  }

  // ----- synchronizing again -----

  /** Nothing is gone after a synchronization, and what is listed from covered directories is named. */
  lemma NothingGone(cfg: Config, groups0: seq<Group>, groups: seq<Group>)
    requires Named(groups) == Named(groups0) + Listed(cfg, groups0) - Gone(cfg, groups0)
    requires ForestDirs(groups0) <= ForestDirs(groups)
    ensures Gone(cfg, groups) == {}
    ensures AllIn(ForestDirs(groups), Covered(cfg, groups0)) ==> Listed(cfg, groups) <= Named(groups)
  {
    forall p | p in Listed(cfg, groups0) ensures p in Listed(cfg, groups) {
      ListedGrows(cfg, groups0, groups, p);
    }
    if AllIn(ForestDirs(groups), Covered(cfg, groups0)) {
      forall p | p in Listed(cfg, groups) ensures p in Listed(cfg, groups0) {
        CoveredListsNoMore(cfg, groups0, groups, p);
      }
    }
  }

  lemma CoveredListsNoMore(cfg: Config, groups0: seq<Group>, groups: seq<Group>, p: Path)
    requires AllIn(ForestDirs(groups), Covered(cfg, groups0)) && p in Listed(cfg, groups)
    ensures p in Listed(cfg, groups0)
  {
    var g := DirGraph(cfg.fs, cfg.ignore);
    var d :| d in cfg.fs.dirs && p in FilesOf(cfg.fs, cfg.ignore, d) && IsBelow(cfg, ForestDirs(groups), d);
    var s :| s in ForestDirs(groups) && Reaches(g, {}, s, d);
    assert s in Covered(cfg, groups0);
    if s !in cfg.fs.dirs {
      assert IsClosed(g, {}, {s});
      ReachesStaysInside(g, {}, {s}, s, d);
    } else {
      var s0 :| s0 in ForestDirs(groups0) && Reaches(g, {}, s0, s);
      ReachesThrough(g, {}, s0, s, d);
    }
    assert IsBelow(cfg, ForestDirs(groups0), d);
  }

  lemma ListedGrows(cfg: Config, groups0: seq<Group>, groups: seq<Group>, p: Path)
    requires ForestDirs(groups0) <= ForestDirs(groups) && p in Listed(cfg, groups0)
    ensures p in Listed(cfg, groups)
  {
    var d :| d in cfg.fs.dirs && p in FilesOf(cfg.fs, cfg.ignore, d) && IsBelow(cfg, ForestDirs(groups0), d);
    var s :| s in ForestDirs(groups0) && Reaches(DirGraph(cfg.fs, cfg.ignore), {}, s, d);
    assert IsBelow(cfg, ForestDirs(groups), d);
  }

  lemma {:induction false} NoTargetChanges(cfg: Config, pf: set<FileRef>, targets: seq<Target>, n: nat)
    requires n <= |targets|
    requires forall i :: 0 <= i < n && IsSynced(cfg, targets[i]) ==>
               Members(cfg, targets[i]) == Goal(cfg, pf, targets[i])
    ensures TargetChanges(cfg, pf, targets, n) == 0
  {
    if n > 0 {
      NoTargetChanges(cfg, pf, targets, n - 1);
      var t := targets[n - 1];
      if IsSynced(cfg, t) {
        SameDiffer(Members(cfg, t), Goal(cfg, pf, t));
      }
    }
  }

  lemma SameDiffer(a: set<Path>, b: set<Path>)
    requires a == b
    ensures |a - b| + |b - a| == 0
  {
    assert a - b == {} && b - a == {};
  }

  lemma GoalsMet(cfg: Config, pf: set<FileRef>, removed: set<FileRef>, before: seq<Target>, after: seq<Target>)
    requires TargetsDone(cfg, pf, removed, before, after)
    ensures TargetChanges(cfg, pf, after, |after|) == 0
  {
    forall i | 0 <= i < |after| && IsSynced(cfg, after[i])
      ensures Members(cfg, after[i]) == Goal(cfg, pf, after[i])
    {
      assert after[i].name == before[i].name;
    }
    NoTargetChanges(cfg, pf, after, |after|);
  }

  /** If the second run finds no new file, it counts no change. */
  lemma SecondSyncIsIdle(cfg: Config, groups0: seq<Group>, files0: set<FileRef>, targets0: seq<Target>,
                         groups1: seq<Group>, files1: set<FileRef>, targets1: seq<Target>, n1: nat,
                         groups2: seq<Group>, files2: set<FileRef>, targets2: seq<Target>, n2: nat)
    requires Synced(cfg, groups0, files0, targets0, groups1, files1, targets1, n1)
    requires Synced(cfg, groups1, files1, targets1, groups2, files2, targets2, n2)
    requires Gone(cfg, groups1) == {} && Listed(cfg, groups1) <= Named(groups1)
    ensures n2 == 0
  {
    GoalsMet(cfg, ProjectFiles(cfg, files1, {}), files0 - files1, targets0, targets1);
    assert Listed(cfg, groups1) - Named(groups1) == {};
  }

  lemma ReadyAgain(cfg: Config, groups0: seq<Group>, files0: set<FileRef>, targets0: seq<Target>,
                   groups: seq<Group>, files: set<FileRef>, targets: seq<Target>, n: nat)
    requires Synced(cfg, groups0, files0, targets0, groups, files, targets, n)
    requires ForestDirs(groups0) <= ForestDirs(groups)
    ensures Gone(cfg, groups) == {} && Ready(cfg, groups, files, targets)
    ensures AllIn(ForestDirs(groups), Covered(cfg, groups0)) ==> Listed(cfg, groups) <= Named(groups)
  {
    NothingGone(cfg, groups0, groups);
  }

  lemma NotIdle(listed: set<Path>, named: set<Path>, n: nat)
    requires !(listed <= named) && n >= |listed - named|
    ensures n > 0
  {
    var p :| p in listed && p !in named;
    assert p in listed - named;
  }

  /** A synchronization of the first three made the last three out of them. */
  ghost predicate JustSynced(cfg: Config, groups0: seq<Group>, files0: set<FileRef>, targets0: seq<Target>, n: nat,
                             groups: seq<Group>, files: set<FileRef>, targets: seq<Target>)
  {
    Synced(cfg, groups0, files0, targets0, groups, files, targets, n) && ForestDirs(groups0) <= ForestDirs(groups)
  }

  /** Synchronizes a project that was just synchronized, on an unchanged file system. This is idle
      exactly when the groups that the first run created list no further file. */
  method Resync(s: Syncer, ghost groups0: seq<Group>, ghost files0: set<FileRef>, ghost targets0: seq<Target>,
                ghost n: nat)
    returns (r: Option<nat>)
    requires s.Valid()
    modifies s
    ensures JustSynced(s.cfg, groups0, files0, targets0, n, old(s.groups), old(s.files), old(s.targets)) ==>
              (r == Some(0) <==> Listed(s.cfg, old(s.groups)) <= Named(old(s.groups)))
    ensures r == Some(0) ==> s.groups == old(s.groups) && s.files == old(s.files) && s.targets == old(s.targets)
  {
    ghost var cfg, groups1, files1, targets1 := s.cfg, s.groups, s.files, s.targets;
    r := s.Sync();
    if JustSynced(cfg, groups0, files0, targets0, n, groups1, files1, targets1) {
      ReadyAgain(cfg, groups0, files0, targets0, groups1, files1, targets1, n);
      if Listed(cfg, groups1) <= Named(groups1) {
        assert Listed(cfg, groups1) - Named(groups1) == {};
        SecondSyncIsIdle(cfg, groups0, files0, targets0, groups1, files1, targets1, n,
                         s.groups, s.files, s.targets, r.value);
      } else if r.Some? {
        NotIdle(Listed(cfg, groups1), Named(groups1), r.value);
      }
    }
  }

  /** Two synchronizations in a row. If created groups get covered directories, such as that of the
      group they are created in, the second one counts no change; and then it leaves the groups, the
      references and all phases of all targets as the first one made them. */
  method SyncTwice(s: Syncer) returns (first: Option<nat>, second: Option<nat>)
    requires s.Valid()
    modifies s
    ensures first.None? <==>
              exists p :: p in Listed(s.cfg, old(s.groups)) - Named(old(s.groups)) && !HasRoot(old(s.groups), p)
    ensures first.None? ==> second.None?
    ensures first.Some? && old(Ready(s.cfg, s.groups, s.files, s.targets)) && CreatesCovered(s.cfg, old(s.groups)) ==>
              second == Some(0)
    ensures second == Some(0) && old(Ready(s.cfg, s.groups, s.files, s.targets)) ==>
              first.Some? && Synced(s.cfg, old(s.groups), old(s.files), old(s.targets),
                                    s.groups, s.files, s.targets, first.value)
  {
    ghost var cfg, groups0, files0, targets0 := s.cfg, s.groups, s.files, s.targets;
    first := s.Sync();
    if first.None? {
      return first, None;
    }
    if Ready(cfg, groups0, files0, targets0) {
      ReadyAgain(cfg, groups0, files0, targets0, s.groups, s.files, s.targets, first.value);
    }
    second := Resync(s, groups0, files0, targets0, first.value);
  }

  /** A created group that takes the directory of the group it is created in, as one without a path
      does, gets a covered directory. */
  lemma InheritedIsCovered(cfg: Config, groups: seq<Group>)
    requires forall d, n :: cfg.newDir(d, n) == d
    ensures CreatesCovered(cfg, groups)
  {
  }

  /** The program's own choices: the phase by extension, and groups that are created without a path. */
  function ProgramConfig(fs: FileSystem, ignore: Ignore, fnmatch: (Path, string) -> bool, defs: seq<TargetDef>)
    : Config
  {
    Config(fs, ignore, fnmatch, PhaseByExtension, (d, n) => d, defs)
  }

  /** With these, two runs in a row are covered by `SyncTwice`, whatever the project. */
  lemma ProgramCreatesCovered(fs: FileSystem, ignore: Ignore, fnmatch: (Path, string) -> bool, defs: seq<TargetDef>,
                              groups: seq<Group>)
    ensures CreatesCovered(ProgramConfig(fs, ignore, fnmatch, defs), groups)
  {
    InheritedIsCovered(ProgramConfig(fs, ignore, fnmatch, defs), groups);
  }
}
