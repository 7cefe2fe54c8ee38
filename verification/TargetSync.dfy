/** Target definitions of sync_project.rb, the difference between what a definition claims and what
    the phases of a target hold, and the effect of its entries on the target. */
module TargetSync {
  import opened Text
  import opened GroupDiffer

  /** The build phase that the extension of a file selects; headers select none. */
  datatype Phase = SourcePhase | ResourcePhase | NoPhase

  /** `SOURCES` and `HEADERS` of `Syncer`, by `extname`. */
  function PhaseByExtension(p: Path): Phase {
    var ext := if p == [] then "" else Extension(p[|p| - 1]);
    if ext in [".c", ".cc", ".m", ".mm", ".swift"] then SourcePhase
    else if ext == ".h" then NoPhase
    else ResourcePhase
  }

  /** `extname`: from the last dot on, dots at the beginning not counted. */
  function Extension(name: string): string { FromLastDot(DropDots(name)) }

  function DropDots(s: string): string {
    if s != "" && s[0] == '.' then DropDots(s[1..]) else s
  }

  function FromLastDot(s: string): string {
    if s == "" then ""
    else
      var r := FromLastDot(s[1..]);
      if r == "" && s[0] == '.' then s else r
  }

  predicate AllDots(s: string) {
    forall i :: 0 <= i < |s| ==> s[i] == '.'
  }

  lemma {:induction false} DropDotsIs(dots: string, s: string)
    requires AllDots(dots) && (s == "" || s[0] != '.')
    ensures DropDots(dots + s) == s
  {
    if dots == "" {
      assert dots + s == s;
    } else {
      DropDotsIs(dots[1..], s);
      assert (dots + s)[1..] == dots[1..] + s;
    }
  }

  lemma {:induction false} FromLastDotIs(stem: string, suffix: string)
    requires '.' !in suffix
    ensures FromLastDot(suffix) == "" && FromLastDot(stem + ("." + suffix)) == "." + suffix
    decreases |stem|, |suffix|
  {
    if suffix != "" {
      FromLastDotIs("", suffix[1..]);
    }
    var s := stem + ("." + suffix);
    if stem == "" {
      assert s == "." + suffix && s[1..] == suffix;
    } else {
      FromLastDotIs(stem[1..], suffix);
      assert s[1..] == stem[1..] + ("." + suffix);
    }
  }

  /** Every name is of one of these two forms. */
  lemma ExtensionMeaning(dots: string, stem: string, suffix: string)
    requires AllDots(dots) && (stem == "" || stem[0] != '.') && '.' !in suffix
    ensures '.' !in stem ==> Extension(dots + stem) == ""
    ensures stem != "" ==> Extension(dots + (stem + ("." + suffix))) == "." + suffix
  {
    DropDotsIs(dots, stem);
    if '.' !in stem {
      FromLastDotIs("", stem);
    }
    if stem != "" {
      DropDotsIs(dots, stem + ("." + suffix));
      FromLastDotIs(stem, suffix);
    }
  }

  /** Which phase a file name with this suffix selects, in any directory. */
  lemma PhaseMeaning(dir: Path, dots: string, stem: string, suffix: string)
    requires AllDots(dots) && stem != "" && stem[0] != '.' && '.' !in suffix
    ensures PhaseByExtension(dir + [dots + (stem + ("." + suffix))]) ==
              if suffix == "c" || suffix == "cc" || suffix == "m" || suffix == "mm" || suffix == "swift"
              then SourcePhase
              else if suffix == "h" then NoPhase
              else ResourcePhase
    ensures '.' !in stem ==> PhaseByExtension(dir + [dots + stem]) == ResourcePhase
  {
    ExtensionMeaning(dots, stem, suffix);
    AfterDot(suffix, "c", ".c");
    AfterDot(suffix, "cc", ".cc");
    AfterDot(suffix, "m", ".m");
    AfterDot(suffix, "mm", ".mm");
    AfterDot(suffix, "swift", ".swift");
    AfterDot(suffix, "h", ".h");
  }

  lemma AfterDot(suffix: string, s: string, ext: string)
    requires ext == "." + s
    ensures "." + suffix == ext <==> suffix == s
  {
    assert ("." + suffix)[1..] == suffix && ext[1..] == s;
  }

  datatype TargetDef = TargetDef(name: string, syncSources: bool, sourceFiles: seq<string>, excludeFiles: seq<string>)

  /** A native target with the three phases that are synchronized or read. */
  datatype Target = Target(name: string, headers: seq<FileRef>, sources: seq<FileRef>, resources: seq<FileRef>)

  /** What the synchronizer is given: the file system and its ignore patterns, `fnmatch`, the phase
      of a path (`PhaseByExtension` in the program), the directory of a group that is created by
      name in a group with a given directory, and the target definitions. The results hold for any
      such choice. */
  datatype Config = Config(
    fs: FileSystem,
    ignore: Ignore,
    fnmatch: (Path, string) -> bool,
    phaseOf: Path -> Phase,
    newDir: (Path, string) -> Path,
    defs: seq<TargetDef>)

  // ----- target definitions -----

  predicate MatchesAny(cfg: Config, p: Path, patterns: seq<string>) {
    exists i :: 0 <= i < |patterns| && cfg.fnmatch(p, patterns[i])
  }

  predicate Matches(cfg: Config, def: TargetDef, p: Path) {
    MatchesAny(cfg, p, def.sourceFiles) && !MatchesAny(cfg, p, def.excludeFiles)
  }

  /** The first definition of that name. */
  function FindTarget(defs: seq<TargetDef>, name: string): Option<TargetDef> {
    if defs == [] then None else if defs[0].name == name then Some(defs[0]) else FindTarget(defs[1..], name)
  }

  ghost predicate IsFirstNamed(defs: seq<TargetDef>, name: string, i: int) {
    0 <= i < |defs| && defs[i].name == name && forall j :: 0 <= j < i ==> defs[j].name != name
  }

  /** The first definition of that name is found, if there is one. */
  lemma {:induction false} FindTargetMeaning(defs: seq<TargetDef>, name: string)
    ensures FindTarget(defs, name).None? <==> forall i :: 0 <= i < |defs| ==> defs[i].name != name
    ensures FindTarget(defs, name).Some? ==>
              exists i :: IsFirstNamed(defs, name, i) && defs[i] == FindTarget(defs, name).value
  {
    if defs != [] && defs[0].name == name {
      assert IsFirstNamed(defs, name, 0);
    } else if defs != [] {
      var rest := defs[1..];
      FindTargetMeaning(rest, name);
      assert forall i :: 0 < i < |defs| ==> defs[i] == rest[i - 1];
      if i :| IsFirstNamed(rest, name, i) && rest[i] == FindTarget(rest, name).value {
        assert IsFirstNamed(defs, name, i + 1);
      }
    }
  }

  predicate IsSynced(cfg: Config, t: Target) {
    var def := FindTarget(cfg.defs, t.name);
    def.Some? && def.value.syncSources
  }

  // ----- phases -----

  /** Files that are not headers are in the phase their extension selects, and only once. */
  ghost predicate Tidy(phaseOf: Path -> Phase, refs: seq<FileRef>, here: Phase) {
    && (forall i :: 0 <= i < |refs| ==> phaseOf(refs[i].path) == NoPhase || phaseOf(refs[i].path) == here)
    && (forall i, j :: 0 <= i < j < |refs| && phaseOf(refs[i].path) != NoPhase ==> refs[i].path != refs[j].path)
  }

  ghost predicate TargetOk(cfg: Config, t: Target) {
    && Tidy(cfg.phaseOf, t.headers, NoPhase)
    && Tidy(cfg.phaseOf, t.sources, SourcePhase)
    && Tidy(cfg.phaseOf, t.resources, ResourcePhase)
  }

  function TargetRefs(t: Target): set<FileRef> {
    Elements(t.headers) + Elements(t.sources) + Elements(t.resources)
  }

  /** The files in these phases that are not headers. */
  function Members(cfg: Config, t: Target): set<Path> {
    set r | r in TargetRefs(t) && cfg.phaseOf(r.path) != NoPhase :: r.path
  }

  /** `remove_file_reference`: removes the first build file of the reference. */
  function RemoveFirst(refs: seq<FileRef>, ref: FileRef): seq<FileRef> {
    if refs == [] then []
    else if refs[0] == ref then refs[1..]
    else [refs[0]] + RemoveFirst(refs[1..], ref)
  }

  lemma TidyAppend(phaseOf: Path -> Phase, refs: seq<FileRef>, here: Phase, ref: FileRef)
    requires Tidy(phaseOf, refs, here) && phaseOf(ref.path) == here && here != NoPhase
    requires forall r :: r in refs ==> r.path != ref.path
    ensures Tidy(phaseOf, refs + [ref], here)
    ensures Elements(refs + [ref]) == Elements(refs) + {ref}
  {
    var more := refs + [ref];
    forall i | 0 <= i < |refs| ensures more[i] == refs[i] && refs[i] in refs {}
  }

  lemma {:induction false} RemoveFirstIsSlice(refs: seq<FileRef>, ref: FileRef) returns (k: nat)
    requires ref in refs
    ensures k < |refs| && refs[k] == ref && RemoveFirst(refs, ref) == refs[..k] + refs[k + 1..]
  {
    if refs[0] == ref {
      k := 0;
    } else {
      assert ref in refs[1..];
      k := RemoveFirstIsSlice(refs[1..], ref);
      k := k + 1;
    }
  }

  lemma TidyRemove(phaseOf: Path -> Phase, refs: seq<FileRef>, here: Phase, ref: FileRef)
    requires Tidy(phaseOf, refs, here) && phaseOf(ref.path) != NoPhase && ref in refs
    ensures Tidy(phaseOf, RemoveFirst(refs, ref), here)
    ensures Elements(RemoveFirst(refs, ref)) == Elements(refs) - {ref}
    ensures forall r :: r in RemoveFirst(refs, ref) ==> r.path != ref.path
  {
    var k := RemoveFirstIsSlice(refs, ref);
    TidyWithout(phaseOf, refs, here, k);
  }

  lemma TidyWithout(phaseOf: Path -> Phase, refs: seq<FileRef>, here: Phase, k: nat)
    requires Tidy(phaseOf, refs, here) && k < |refs| && phaseOf(refs[k].path) != NoPhase
    ensures var less := refs[..k] + refs[k + 1..];
            && Tidy(phaseOf, less, here) && Elements(less) == Elements(refs) - {refs[k]}
            && forall r :: r in less ==> r.path != refs[k].path
  {
    var less, ref := refs[..k] + refs[k + 1..], refs[k];
    assert forall i :: 0 <= i < k ==> less[i] == refs[i];
    assert forall i :: k <= i < |less| ==> less[i] == refs[i + 1];
    forall i | 0 <= i < |less| ensures less[i].path != ref.path && less[i] in Elements(refs) - {ref} {
      if i >= k {
        assert less[i] == refs[i + 1];
      }
    }
    ElementsConcat(refs[..k], refs[k + 1..]);
    ElementsConcat(refs[..k], [ref] + refs[k + 1..]);
    ElementsConcat([ref], refs[k + 1..]);
    assert refs == refs[..k] + ([ref] + refs[k + 1..]);
  }

  /** `sync_target_entry`: the target afterwards, and whether that is a change. */
  function SyncEntry(cfg: Config, t: Target, p: Path, entry: DiffEntry): (r: (Target, nat))
    requires entry.ref.Some?
    ensures r.0.name == t.name && (r.1 == 0 ==> r.0 == t)
  {
    if entry.inSource && entry.inTarget then (t, 0)
    else
      match cfg.phaseOf(p)
      case NoPhase => (t, 0)
      case SourcePhase =>
        (t.(sources := if entry.inSource then t.sources + [entry.ref.value]
                       else RemoveFirst(t.sources, entry.ref.value)), 1)
      case ResourcePhase =>
        (t.(resources := if entry.inSource then t.resources + [entry.ref.value]
                         else RemoveFirst(t.resources, entry.ref.value)), 1)
  }

  /** A reference enters one of the phases of a tidy target. */
  lemma EntryAdds(cfg: Config, t: Target, ref: FileRef)
    requires TargetOk(cfg, t) && ref.path !in Paths(TargetRefs(t))
    ensures cfg.phaseOf(ref.path) == SourcePhase ==>
              var t' := t.(sources := t.sources + [ref]);
              TargetOk(cfg, t') && TargetRefs(t') == TargetRefs(t) + {ref}
    ensures cfg.phaseOf(ref.path) == ResourcePhase ==>
              var t' := t.(resources := t.resources + [ref]);
              TargetOk(cfg, t') && TargetRefs(t') == TargetRefs(t) + {ref}
  {
    assert forall r :: r in TargetRefs(t) ==> r.path in Paths(TargetRefs(t));
    if cfg.phaseOf(ref.path) == SourcePhase {
      TidyAppend(cfg.phaseOf, t.sources, SourcePhase, ref);
    } else if cfg.phaseOf(ref.path) == ResourcePhase {
      TidyAppend(cfg.phaseOf, t.resources, ResourcePhase, ref);
    }
  }

  /** What is not in the phase of a path does not have that path. */
  lemma OtherPhases(cfg: Config, refs: seq<FileRef>, here: Phase, p: Path)
    requires Tidy(cfg.phaseOf, refs, here) && cfg.phaseOf(p) != NoPhase && cfg.phaseOf(p) != here
    ensures p !in Paths(Elements(refs))
  {
  }

  /** A reference leaves the phase that holds it. */
  lemma EntryRemoves(cfg: Config, t: Target, ref: FileRef)
    requires TargetOk(cfg, t) && ref in TargetRefs(t)
    ensures cfg.phaseOf(ref.path) == SourcePhase ==>
              var t' := t.(sources := RemoveFirst(t.sources, ref));
              TargetOk(cfg, t') && TargetRefs(t') == TargetRefs(t) - {ref} && ref.path !in Paths(TargetRefs(t'))
    ensures cfg.phaseOf(ref.path) == ResourcePhase ==>
              var t' := t.(resources := RemoveFirst(t.resources, ref));
              TargetOk(cfg, t') && TargetRefs(t') == TargetRefs(t) - {ref} && ref.path !in Paths(TargetRefs(t'))
  {
    var p := ref.path;
    if cfg.phaseOf(p) == SourcePhase {
      OtherPhases(cfg, t.headers, NoPhase, p);
      OtherPhases(cfg, t.resources, ResourcePhase, p);
      TidyRemove(cfg.phaseOf, t.sources, SourcePhase, ref);
    } else if cfg.phaseOf(p) == ResourcePhase {
      OtherPhases(cfg, t.headers, NoPhase, p);
      OtherPhases(cfg, t.sources, SourcePhase, p);
      TidyRemove(cfg.phaseOf, t.resources, ResourcePhase, ref);
    }
  }

  /** On a tidy target an entry adds or removes exactly its own reference. */
  lemma SyncEntryEffect(cfg: Config, t: Target, p: Path, entry: DiffEntry)
    requires TargetOk(cfg, t) && entry.ref.Some? && entry.ref.value.path == p
    requires entry.inSource || entry.inTarget
    requires if entry.inTarget then entry.ref.value in TargetRefs(t) else p !in Paths(TargetRefs(t))
    ensures var (t', n) := SyncEntry(cfg, t, p, entry);
            && TargetOk(cfg, t') && t'.name == t.name
            && n == (if cfg.phaseOf(p) != NoPhase && entry.inSource != entry.inTarget then 1 else 0)
            && (n == 0 ==> TargetRefs(t') == TargetRefs(t))
            && (n == 1 && entry.inSource ==> TargetRefs(t') == TargetRefs(t) + {entry.ref.value})
            && (n == 1 && !entry.inSource ==> TargetRefs(t') == TargetRefs(t) - {entry.ref.value}
                                              && p !in Paths(TargetRefs(t')))
  {
    if entry.inTarget {
      EntryRemoves(cfg, t, entry.ref.value);
    } else {
      EntryAdds(cfg, t, entry.ref.value);
    }
  }

  // ----- one target -----

  /** The paths that the definition claims among these project files. */
  function Wanted(cfg: Config, def: TargetDef, projectFiles: set<FileRef>): set<Path> {
    set r | r in projectFiles && Matches(cfg, def, r.path) :: r.path
  }

  /** ... without headers. */
  function WantedMembers(cfg: Config, def: TargetDef, projectFiles: set<FileRef>): set<Path> {
    set p | p in Wanted(cfg, def, projectFiles) && cfg.phaseOf(p) != NoPhase
  }

  ghost predicate IsTargetDiff(e: Entries, wanted: set<Path>, refs: set<FileRef>) {
    && (forall p :: InSource(e, p) <==> p in wanted)
    && (forall p :: InTarget(e, p) <==> p in Paths(refs))
    && (forall p :: p in e ==> e[p].inSource || e[p].inTarget)
    && (forall p :: p in e ==> e[p].ref.Some? && e[p].ref.value.path == p && (e[p].inTarget ==> e[p].ref.value in refs))
  }

  lemma DiffSource(e: Entries, wanted: set<Path>, refs: set<FileRef>, r: FileRef)
    requires IsTargetDiff(e, wanted, refs) && refs == {}
    ensures IsTargetDiff(e[r.path := Tracked(e, r.path).(inSource := true, ref := Some(r))], wanted + {r.path}, refs)
  {
    var e' := e[r.path := Tracked(e, r.path).(inSource := true, ref := Some(r))];
    forall p
      ensures InSource(e', p) <==> p in wanted + {r.path}
      ensures InTarget(e', p) <==> p in Paths(refs)
    {
      assert InSource(e, p) <==> p in wanted;
      assert InTarget(e, p) <==> p in Paths(refs);
    }
  }

  lemma DiffTarget(e: Entries, wanted: set<Path>, refs: set<FileRef>, r: FileRef)
    requires IsTargetDiff(e, wanted, refs)
    ensures IsTargetDiff(e[r.path := Tracked(e, r.path).(inTarget := true, ref := Some(r))], wanted, refs + {r})
  {
    var e' := e[r.path := Tracked(e, r.path).(inTarget := true, ref := Some(r))];
    assert Paths(refs + {r}) == Paths(refs) + {r.path};
    forall p
      ensures InSource(e', p) <==> p in wanted
      ensures InTarget(e', p) <==> p in Paths(refs + {r})
    {
      assert InSource(e, p) <==> p in wanted;
      assert InTarget(e, p) <==> p in Paths(refs);
    }
  }

  /** `TargetDef.diff` */
  method TargetDiff(cfg: Config, def: TargetDef, projectFiles: set<FileRef>, t: Target) returns (e: Entries)
    ensures IsTargetDiff(e, Wanted(cfg, def, projectFiles), TargetRefs(t))
  {
    e := map[];
    var rest := projectFiles;
    while rest != {}
      invariant rest <= projectFiles
      invariant IsTargetDiff(e, Wanted(cfg, def, projectFiles - rest), {})
      decreases rest
    {
      var r :| r in rest;
      assert Wanted(cfg, def, projectFiles - (rest - {r}))
          == Wanted(cfg, def, projectFiles - rest) + (if Matches(cfg, def, r.path) then {r.path} else {});
      if Matches(cfg, def, r.path) {
        DiffSource(e, Wanted(cfg, def, projectFiles - rest), {}, r);
        e := e[r.path := Tracked(e, r.path).(inSource := true, ref := Some(r))];
      }
      rest := rest - {r};
    }
    assert projectFiles - {} == projectFiles;
    var refs := t.headers + t.sources + t.resources;
    for i := 0 to |refs|
      invariant IsTargetDiff(e, Wanted(cfg, def, projectFiles), Elements(refs[..i]))
    {
      DiffTarget(e, Wanted(cfg, def, projectFiles), Elements(refs[..i]), refs[i]);
      assert refs[..i + 1] == refs[..i] + [refs[i]];
      assert Elements(refs[..i + 1]) == Elements(refs[..i]) + {refs[i]};
      e := e[refs[i].path := Tracked(e, refs[i].path).(inTarget := true, ref := Some(refs[i]))];
    }
    assert refs[..|refs|] == refs;
    ElementsConcat(t.headers + t.sources, t.resources);
    ElementsConcat(t.headers, t.sources);
  }

  /** `t` is the target `t0` after the entries outside `rest` have been synchronized. */
  ghost predicate Halfway(cfg: Config, e: Entries, wanted: set<Path>, t0: Target, rest: set<Path>, t: Target,
                          changed: set<Path>)
  {
    && TargetOk(cfg, t) && t.name == t0.name && rest <= e.Keys
    && (forall r: FileRef :: r.path in rest || cfg.phaseOf(r.path) == NoPhase ==>
          (r in TargetRefs(t) <==> r in TargetRefs(t0)))
    && (forall p :: cfg.phaseOf(p) != NoPhase && p !in rest ==> (p in Paths(TargetRefs(t)) <==> p in wanted))
    && changed == ChangedOutside(cfg, e, rest)
  }

  /** The entries outside `rest` that are changes. */
  ghost function ChangedOutside(cfg: Config, e: Entries, rest: set<Path>): set<Path> {
    set p | p in e && p !in rest && cfg.phaseOf(p) != NoPhase && e[p].inSource != e[p].inTarget
  }

  lemma HalfwayBegins(cfg: Config, e: Entries, wanted: set<Path>, t: Target)
    requires TargetOk(cfg, t) && IsTargetDiff(e, wanted, TargetRefs(t))
    ensures Halfway(cfg, e, wanted, t, e.Keys, t, {})
  {
    forall p | p !in e
      ensures p !in wanted && p !in Paths(TargetRefs(t))
    {
      assert !InSource(e, p) && !InTarget(e, p);
    }
  }

  lemma SameRefsSamePath(a: set<FileRef>, b: set<FileRef>, p: Path)
    requires forall r: FileRef :: r.path == p ==> (r in a <==> r in b)
    ensures p in Paths(a) <==> p in Paths(b)
  {
    if p in Paths(a) {
      var r :| r in a && r.path == p;
    }
    if p in Paths(b) {
      var r :| r in b && r.path == p;
    }
  }

  ghost function Counted(changed: set<Path>, p: Path, n: nat): set<Path> {
    if n == 1 then changed + {p} else changed
  }

  /** Away from `p`, and everywhere if `p` is a header, the references are as they were. */
  ghost predicate OnlyChangedAt(cfg: Config, a: set<FileRef>, b: set<FileRef>, p: Path) {
    forall r: FileRef :: r.path != p || cfg.phaseOf(p) == NoPhase ==> (r in a <==> r in b)
  }

  lemma EntryDecides(cfg: Config, e: Entries, wanted: set<Path>, t0: Target, rest: set<Path>, t: Target,
                     changed: set<Path>, p: Path)
    requires IsTargetDiff(e, wanted, TargetRefs(t0)) && Halfway(cfg, e, wanted, t0, rest, t, changed) && p in rest
    ensures var (t', n) := SyncEntry(cfg, t, p, e[p]);
            && TargetOk(cfg, t') && t'.name == t.name
            && OnlyChangedAt(cfg, TargetRefs(t'), TargetRefs(t), p)
            && (cfg.phaseOf(p) != NoPhase ==> (p in Paths(TargetRefs(t')) <==> p in wanted))
            && n == (if cfg.phaseOf(p) != NoPhase && e[p].inSource != e[p].inTarget then 1 else 0)
  {
    var entry := e[p];
    SameRefsSamePath(TargetRefs(t), TargetRefs(t0), p);
    assert InTarget(e, p) <==> p in Paths(TargetRefs(t0));
    assert InSource(e, p) <==> p in wanted;
    SyncEntryEffect(cfg, t, p, entry);
    var (t', n) := SyncEntry(cfg, t, p, entry);
    assert n == 1 && entry.inSource ==> entry.ref.value in TargetRefs(t');
  }

  lemma HalfwayStep(cfg: Config, e: Entries, wanted: set<Path>, t0: Target, rest: set<Path>, t: Target,
                    changed: set<Path>, p: Path)
    requires IsTargetDiff(e, wanted, TargetRefs(t0)) && Halfway(cfg, e, wanted, t0, rest, t, changed) && p in rest
    ensures var (t', n) := SyncEntry(cfg, t, p, e[p]);
            && Halfway(cfg, e, wanted, t0, rest - {p}, t', Counted(changed, p, n))
            && |Counted(changed, p, n)| == |changed| + n
  {
    EntryDecides(cfg, e, wanted, t0, rest, t, changed, p);
    var (t', n) := SyncEntry(cfg, t, p, e[p]);
    HalfwayMove(cfg, e, wanted, t0, rest, t, changed, p, t', n);
  }

  lemma HalfwayMove(cfg: Config, e: Entries, wanted: set<Path>, t0: Target, rest: set<Path>, t: Target,
                    changed: set<Path>, p: Path, t': Target, n: nat)
    requires Halfway(cfg, e, wanted, t0, rest, t, changed) && p in rest
    requires TargetOk(cfg, t') && t'.name == t.name && OnlyChangedAt(cfg, TargetRefs(t'), TargetRefs(t), p)
    requires cfg.phaseOf(p) != NoPhase ==> (p in Paths(TargetRefs(t')) <==> p in wanted)
    requires n == (if cfg.phaseOf(p) != NoPhase && e[p].inSource != e[p].inTarget then 1 else 0)
    ensures Halfway(cfg, e, wanted, t0, rest - {p}, t', Counted(changed, p, n))
    ensures |Counted(changed, p, n)| == |changed| + n
  {
    forall q | cfg.phaseOf(q) != NoPhase && q !in rest - {p}
      ensures q in Paths(TargetRefs(t')) <==> q in wanted
    {
      if q != p {
        SameRefsSamePath(TargetRefs(t'), TargetRefs(t), q);
      }
    }
  }

  lemma HalfwayEnds(cfg: Config, def: TargetDef, projectFiles: set<FileRef>, e: Entries, t0: Target, t: Target,
                    changed: set<Path>)
    requires IsTargetDiff(e, Wanted(cfg, def, projectFiles), TargetRefs(t0))
    requires Halfway(cfg, e, Wanted(cfg, def, projectFiles), t0, {}, t, changed)
    ensures TargetSynced(cfg, def, projectFiles, t0, t, |changed|)
  {
    var wanted, before := WantedMembers(cfg, def, projectFiles), Members(cfg, t0);
    forall p
      ensures p in Members(cfg, t) <==> p in wanted
      ensures p in changed <==> p in (before - wanted) + (wanted - before)
    {
      MemberIsPath(cfg, t, p);
      MemberIsPath(cfg, t0, p);
      assert InTarget(e, p) <==> p in Paths(TargetRefs(t0));
      assert InSource(e, p) <==> p in Wanted(cfg, def, projectFiles);
    }
    assert changed == (before - wanted) + (wanted - before);
    assert (before - wanted) !! (wanted - before);
  }

  /** The members are exactly the wanted files, the count is that of the members that differ, and
      headers are left alone. */
  ghost predicate TargetSynced(cfg: Config, def: TargetDef, projectFiles: set<FileRef>, t0: Target, t: Target,
                               changes: nat)
  {
    var wanted := WantedMembers(cfg, def, projectFiles);
    && TargetOk(cfg, t)
    && Members(cfg, t) == wanted
    && changes == |Members(cfg, t0) - wanted| + |wanted - Members(cfg, t0)|
    && (forall r: FileRef :: cfg.phaseOf(r.path) == NoPhase ==> (r in TargetRefs(t) <==> r in TargetRefs(t0)))
  }

  lemma MemberIsPath(cfg: Config, t: Target, p: Path)
    ensures p in Members(cfg, t) <==> cfg.phaseOf(p) != NoPhase && p in Paths(TargetRefs(t))
  {
  }

  /** The target after the entries outside `rest`, with as many changes as were counted. */
  ghost predicate Progress(cfg: Config, e: Entries, wanted: set<Path>, t0: Target, rest: set<Path>, t: Target,
                           changes: nat)
  {
    && Halfway(cfg, e, wanted, t0, rest, t, ChangedOutside(cfg, e, rest))
    && changes == |ChangedOutside(cfg, e, rest)|
  }

  lemma ProgressBegins(cfg: Config, e: Entries, wanted: set<Path>, t: Target)
    requires TargetOk(cfg, t) && IsTargetDiff(e, wanted, TargetRefs(t))
    ensures Progress(cfg, e, wanted, t, e.Keys, t, 0)
  {
    HalfwayBegins(cfg, e, wanted, t);
  }

  lemma ProgressStep(cfg: Config, e: Entries, wanted: set<Path>, t0: Target, rest: set<Path>, t: Target,
                     changes: nat, p: Path)
    requires IsTargetDiff(e, wanted, TargetRefs(t0)) && p in rest
    requires Progress(cfg, e, wanted, t0, rest, t, changes)
    ensures var (t', n) := SyncEntry(cfg, t, p, e[p]);
            Progress(cfg, e, wanted, t0, rest - {p}, t', changes + n)
  {
    HalfwayStep(cfg, e, wanted, t0, rest, t, ChangedOutside(cfg, e, rest), p);
  }
}
