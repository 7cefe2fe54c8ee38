/** Adding file references to and removing them from the folder groups of a project, as
    sync_project.rb does through Xcodeproj. */
module GroupForest {
  import opened Text
  import opened GroupDiffer

  /** The first child with this name, or the number of children. */
  function FindChild(children: seq<Group>, name: string): (k: nat)
    ensures k <= |children| && (k < |children| ==> children[k].name == name)
    ensures forall i :: 0 <= i < k ==> children[i].name != name
  {
    if children == [] || children[0].name == name then 0 else 1 + FindChild(children[1..], name)
  }

  /** `find_subpath(names, true)` followed by `new_file`. A group that is created in a group with
      directory `d` gets the directory `newDir(d, name)`. */
  function Insert(newDir: (Path, string) -> Path, g: Group, names: seq<string>, ref: FileRef): Group
    decreases |names|
  {
    if names == [] then g.(files := g.files + [ref])
    else
      var k := FindChild(g.children, names[0]);
      if k < |g.children| then
        g.(children := g.children[k := Insert(newDir, g.children[k], names[1..], ref)])
      else
        var created := Group(names[0], newDir(g.path, names[0]), [], []);
        g.(children := g.children + [Insert(newDir, created, names[1..], ref)])
  }

  /** A group that is created in one of these directories gets one of them too. */
  ghost predicate StaysIn(newDir: (Path, string) -> Path, dirs: iset<Path>) {
    forall d, n :: d in dirs ==> newDir(d, n) in dirs
  }

  ghost predicate AllIn(dirs: set<Path>, good: iset<Path>) {
    forall d :: d in dirs ==> d in good
  }

  lemma ForestUpdate(groups: seq<Group>, k: nat, g: Group)
    requires k < |groups|
    ensures ForestRefs(groups) == ForestRefs(groups[..k]) + GroupRefs(groups[k]) + ForestRefs(groups[k + 1..])
    ensures ForestDirs(groups) == ForestDirs(groups[..k]) + GroupDirs(groups[k]) + ForestDirs(groups[k + 1..])
    ensures ForestRefs(groups[k := g]) == ForestRefs(groups[..k]) + GroupRefs(g) + ForestRefs(groups[k + 1..])
    ensures ForestDirs(groups[k := g]) == ForestDirs(groups[..k]) + GroupDirs(g) + ForestDirs(groups[k + 1..])
  {
    ForestSplit(groups, k);
    var changed := groups[k := g];
    ForestSplit(changed, k);
    assert changed[..k] == groups[..k] && changed[k + 1..] == groups[k + 1..];
  }

  lemma ForestSplit(groups: seq<Group>, k: nat)
    requires k < |groups|
    ensures ForestRefs(groups) == ForestRefs(groups[..k]) + GroupRefs(groups[k]) + ForestRefs(groups[k + 1..])
    ensures ForestDirs(groups) == ForestDirs(groups[..k]) + GroupDirs(groups[k]) + ForestDirs(groups[k + 1..])
  {
    assert groups == groups[..k] + groups[k..];
    ForestConcat(groups[..k], groups[k..]);
    assert groups[k..][0] == groups[k] && groups[k..][1..] == groups[k + 1..];
  }

  lemma ForestSingle(g: Group)
    ensures ForestRefs([g]) == GroupRefs(g) && ForestDirs([g]) == GroupDirs(g)
  {
    assert [g][1..] == [];
  }

  /** The reference joins the group's, no directory is lost, and none leaves `good`. */
  lemma {:induction false} InsertAdds(newDir: (Path, string) -> Path, g: Group, names: seq<string>, ref: FileRef,
                                      good: iset<Path>)
    ensures var g' := Insert(newDir, g, names, ref);
            && g'.path == g.path
            && GroupRefs(g') == GroupRefs(g) + {ref}
            && GroupDirs(g) <= GroupDirs(g')
            && (StaysIn(newDir, good) && AllIn(GroupDirs(g), good) ==> AllIn(GroupDirs(g'), good))
    decreases |names|
  {
    if names == [] {
      ElementsConcat(g.files, [ref]);
    } else {
      var k := FindChild(g.children, names[0]);
      if k < |g.children| {
        InsertAdds(newDir, g.children[k], names[1..], ref, good);
        ForestUpdate(g.children, k, Insert(newDir, g.children[k], names[1..], ref));
      } else {
        var created := Group(names[0], newDir(g.path, names[0]), [], []);
        var child := Insert(newDir, created, names[1..], ref);
        InsertAdds(newDir, created, names[1..], ref, good);
        ForestConcat(g.children, [child]);
        ForestSingle(child);
        assert GroupRefs(created) == {} && GroupDirs(created) == {newDir(g.path, names[0])};
      }
    }
  }

  /** The group that a list of names leads to. */
  function GroupAt(g: Group, names: seq<string>): Option<Group>
    decreases |names|
  {
    if names == [] then Some(g)
    else
      var k := FindChild(g.children, names[0]);
      if k == |g.children| then None else GroupAt(g.children[k], names[1..])
  }

  function FilesAt(g: Group, names: seq<string>): seq<FileRef> {
    match GroupAt(g, names) case None => [] case Some(h) => h.files
  }

  /** A child found is the first of its name, so it is the only answer. */
  lemma FindChildIs(children: seq<Group>, name: string, k: nat)
    requires k < |children| && children[k].name == name && forall i :: 0 <= i < k ==> children[i].name != name
    ensures FindChild(children, name) == k
  {
  }

  lemma FindChildNone(children: seq<Group>, name: string)
    requires forall i :: 0 <= i < |children| ==> children[i].name != name
    ensures FindChild(children, name) == |children|
  {
  }

  lemma FindChildUpdated(children: seq<Group>, k: nat, child: Group, name: string)
    requires k < |children| && child.name == children[k].name
    ensures FindChild(children[k := child], name) == FindChild(children, name)
  {
    var updated, j := children[k := child], FindChild(children, name);
    assert forall i :: 0 <= i < |children| ==> updated[i].name == children[i].name;
    if j < |children| {
      FindChildIs(updated, name, j);
    } else {
      FindChildNone(updated, name);
    }
  }

  lemma FindChildAppended(children: seq<Group>, child: Group, name: string)
    ensures var j := FindChild(children, name);
            FindChild(children + [child], name) ==
              if j == |children| && child.name != name then j + 1 else j
  {
    var more, j := children + [child], FindChild(children, name);
    assert forall i :: 0 <= i < |children| ==> more[i] == children[i];
    if j < |children| || child.name == name {
      FindChildIs(more, name, j);
    } else {
      FindChildNone(more, name);
    }
  }

  lemma EmptyGroupHolds(g: Group, names: seq<string>)
    requires g.children == [] && g.files == []
    ensures FilesAt(g, names) == []
  {
  }

  /** The new reference comes last in the group that the names lead to, and no other group of the
      project gets or loses a file. */
  lemma {:induction false} InsertPlaces(newDir: (Path, string) -> Path, g: Group, names: seq<string>, ref: FileRef,
                                        other: seq<string>)
    ensures Insert(newDir, g, names, ref).name == g.name
    ensures FilesAt(Insert(newDir, g, names, ref), other) == FilesAt(g, other) + if other == names then [ref] else []
    decreases |names|
  {
    var g' := Insert(newDir, g, names, ref);
    if names != [] {
      var k := FindChild(g.children, names[0]);
      if k < |g.children| {
        var child := Insert(newDir, g.children[k], names[1..], ref);
        InsertPlaces(newDir, g.children[k], names[1..], ref, if other == [] then [] else other[1..]);
        if other != [] {
          FindChildUpdated(g.children, k, child, other[0]);
          FirstAndRest(names, other);
        }
      } else {
        var created := Group(names[0], newDir(g.path, names[0]), [], []);
        var child := Insert(newDir, created, names[1..], ref);
        InsertPlaces(newDir, created, names[1..], ref, if other == [] then [] else other[1..]);
        if other != [] {
          FindChildAppended(g.children, child, other[0]);
          EmptyGroupHolds(created, other[1..]);
          FirstAndRest(names, other);
        }
      }
    }
  }

  lemma FirstAndRest(a: seq<string>, b: seq<string>)
    requires a != [] && b != []
    ensures a == b <==> a[0] == b[0] && a[1..] == b[1..]
  {
    assert a == [a[0]] + a[1..] && b == [b[0]] + b[1..];
  }

  // ----- removing -----

  function Without(files: seq<FileRef>, ref: FileRef): seq<FileRef> {
    if files == [] then []
    else
      var rest := Without(files[1..], ref);
      if files[0] == ref then rest else [files[0]] + rest
  }

  lemma {:induction false} WithoutElements(files: seq<FileRef>, ref: FileRef)
    ensures Elements(Without(files, ref)) == Elements(files) - {ref}
  {
    if files != [] {
      WithoutElements(files[1..], ref);
      assert files == [files[0]] + files[1..];
      ElementsConcat([files[0]], files[1..]);
      ElementsConcat([files[0]], Without(files[1..], ref));
    }
  }

  /** What is left when all of `removed` are taken out. */
  function Keep(files: seq<FileRef>, removed: set<FileRef>): seq<FileRef> {
    if files == [] then []
    else
      var rest := Keep(files[1..], removed);
      if files[0] in removed then rest else [files[0]] + rest
  }

  lemma {:induction false} KeepWithout(files: seq<FileRef>, removed: set<FileRef>, ref: FileRef)
    ensures Without(Keep(files, removed), ref) == Keep(files, removed + {ref})
  {
    if files != [] {
      KeepWithout(files[1..], removed, ref);
      if files[0] !in removed {
        assert ([files[0]] + Keep(files[1..], removed))[1..] == Keep(files[1..], removed);
      }
    }
  }

  lemma {:induction false} KeepElements(files: seq<FileRef>, removed: set<FileRef>)
    ensures Elements(Keep(files, removed)) == Elements(files) - removed
    ensures Elements(files) !! removed ==> Keep(files, removed) == files
  {
    if files != [] {
      KeepElements(files[1..], removed);
      assert files == [files[0]] + files[1..];
      ElementsConcat([files[0]], files[1..]);
      ElementsConcat([files[0]], Keep(files[1..], removed));
    }
  }

  /** `remove_from_project`, as the groups see it. */
  function RemoveRef(g: Group, ref: FileRef): Group
    decreases g
  {
    g.(files := Without(g.files, ref), children := RemoveFromForest(g.children, ref))
  }

  function RemoveFromForest(groups: seq<Group>, ref: FileRef): seq<Group>
    decreases groups
  {
    if groups == [] then [] else [RemoveRef(groups[0], ref)] + RemoveFromForest(groups[1..], ref)
  }

  lemma {:induction false} RemoveRefRemoves(g: Group, ref: FileRef)
    ensures GroupRefs(RemoveRef(g, ref)) == GroupRefs(g) - {ref}
    ensures GroupDirs(RemoveRef(g, ref)) == GroupDirs(g)
    decreases g
  {
    WithoutElements(g.files, ref);
    RemoveFromForestRemoves(g.children, ref);
  }

  lemma {:induction false} RemoveFromForestRemoves(groups: seq<Group>, ref: FileRef)
    ensures ForestRefs(RemoveFromForest(groups, ref)) == ForestRefs(groups) - {ref}
    ensures ForestDirs(RemoveFromForest(groups, ref)) == ForestDirs(groups)
    decreases groups
  {
    if groups != [] {
      var first, rest := RemoveRef(groups[0], ref), RemoveFromForest(groups[1..], ref);
      RemoveRefRemoves(groups[0], ref);
      RemoveFromForestRemoves(groups[1..], ref);
      ForestConcat([first], rest);
      ForestSingle(first);
    }
  }

  lemma {:induction false} RemoveEach(groups: seq<Group>, ref: FileRef)
    ensures |RemoveFromForest(groups, ref)| == |groups|
    ensures forall i :: 0 <= i < |groups| ==> RemoveFromForest(groups, ref)[i] == RemoveRef(groups[i], ref)
  {
    if groups != [] {
      RemoveEach(groups[1..], ref);
    }
  }

  lemma FindChildRemoved(children: seq<Group>, ref: FileRef, name: string)
    ensures FindChild(RemoveFromForest(children, ref), name) == FindChild(children, name)
  {
    var less, j := RemoveFromForest(children, ref), FindChild(children, name);
    RemoveEach(children, ref);
    if j < |children| {
      FindChildIs(less, name, j);
    } else {
      FindChildNone(less, name);
    }
  }

  /** Every group keeps its files but the removed one. */
  lemma {:induction false} RemoveKeepsPlaces(g: Group, ref: FileRef, names: seq<string>)
    ensures FilesAt(RemoveRef(g, ref), names) == Without(FilesAt(g, names), ref)
    decreases |names|
  {
    if names != [] {
      FindChildRemoved(g.children, ref, names[0]);
      RemoveEach(g.children, ref);
      var k := FindChild(g.children, names[0]);
      if k < |g.children| {
        RemoveKeepsPlaces(g.children[k], ref, names[1..]);
      }
    }
  }

  // ----- where a new file goes -----

  /** `path.relative_path_from(dir)` does not start with `..`. */
  predicate Contains(dir: Path, path: Path) {
    dir <= path && !(|dir| < |path| && StartsWith(path[|dir|], ".."))
  }

  /** The components of `path.relative_path_from(dir).dirname`; for a file in `dir` itself that is `.`. */
  function SubPath(dir: Path, path: Path): seq<string>
    requires dir <= path
  {
    if |path| <= |dir| + 1 then ["."] else path[|dir|..|path| - 1]
  }

  /** `path.relative_path_from(base)`, for absolute paths: a `..` for every component of the base that
      the two do not share. */
  function RelativePath(path: Path, base: Path): seq<string> {
    if path != [] && base != [] && path[0] == base[0] then RelativePath(path[1..], base[1..])
    else seq(|base|, _ => "..") + path
  }

  lemma {:induction false} RelativeBelow(dir: Path, path: Path)
    ensures dir <= path ==> RelativePath(path, dir) == path[|dir|..]
    ensures !(dir <= path) ==> RelativePath(path, dir) != [] && RelativePath(path, dir)[0] == ".."
  {
    if path != [] && dir != [] && path[0] == dir[0] {
      RelativeBelow(dir[1..], path[1..]);
      PrefixOfRest(dir, path);
    } else if dir == [] {
      assert seq(0, _ => "..") + path == path;
    }
  }

  lemma PrefixOfRest(dir: Path, path: Path)
    requires path != [] && dir != [] && path[0] == dir[0]
    ensures dir <= path <==> dir[1..] <= path[1..]
    ensures dir <= path ==> path[1..][|dir| - 1..] == path[|dir|..]
  {
    assert path == [path[0]] + path[1..] && dir == [dir[0]] + dir[1..];
  }

  /** The two tests, said by the relative path itself. */
  lemma RelativeMeaning(dir: Path, path: Path)
    ensures var rel := RelativePath(path, dir);
            && (Contains(dir, path) <==> rel == [] || !StartsWith(rel[0], ".."))
            && (Contains(dir, path) ==> SubPath(dir, path) == if |rel| <= 1 then ["."] else rel[..|rel| - 1])
  {
    RelativeBelow(dir, path);
    if dir <= path && |dir| + 1 < |path| {
      assert path[|dir|..][..|path| - |dir| - 1] == path[|dir|..|path| - 1];
    }
  }

  /** `find_group_containing`: the first root group that contains the path, or the number of groups. */
  function FindRoot(groups: seq<Group>, path: Path): (k: nat)
    ensures k <= |groups|
    ensures k < |groups| ==> Contains(groups[k].path, path)
    ensures forall i :: 0 <= i < k ==> !Contains(groups[i].path, path)
    ensures k == |groups| <==> forall i :: 0 <= i < |groups| ==> !Contains(groups[i].path, path)
  {
    if groups == [] || Contains(groups[0].path, path) then 0 else 1 + FindRoot(groups[1..], path)
  }
}
