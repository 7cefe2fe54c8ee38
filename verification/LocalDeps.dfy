/** `find_local_deps` of pod_lib_lint.rb: a depth-first search over podspec files
    whose recursive calls share one mutable set of seen names. */
module LocalDeps {
  import opened Text
  import opened Graph

  /** The podspec files of one directory by basename, each with the dependency names
      of its root spec and of its subspecs. */
  datatype Workspace = Workspace(podspecs: map<string, seq<seq<string>>>)

  /** Drops a subspec suffix: everything from the first slash on. */
  function RootName(name: string): (r: string)
    ensures '/' !in r && r <= name && (|r| < |name| ==> name[|r|] == '/')
  {
    if name == "" || name[0] == '/' then "" else [name[0]] + RootName(name[1..])
  }

  ghost predicate NoRepeats<T>(s: seq<T>) {
    forall i, j :: 0 <= i < j < |s| ==> s[i] != s[j]
  }

  /** The root names of all dependencies. */
  ghost function DepNames(specs: seq<seq<string>>): set<string> {
    set i, j | 0 <= i < |specs| && 0 <= j < |specs[i]| :: RootName(specs[i][j])
  }

  /** The distinct root names of all dependencies. */
  method AllDeps(specs: seq<seq<string>>) returns (names: seq<string>)
    ensures NoRepeats(names)
    ensures Elements(names) == DepNames(specs)
  {
    names := [];
    for i := 0 to |specs|
      invariant NoRepeats(names)
      invariant Elements(names) == DepNames(specs[..i])
    {
      ghost var before := names;
      for j := 0 to |specs[i]|
        invariant NoRepeats(names)
        invariant forall n :: n in before ==> n in names
        invariant forall b :: 0 <= b < j ==> RootName(specs[i][b]) in names
        invariant forall n :: n in names ==> n in before || n in DepNames([specs[i]])
      {
        var name := RootName(specs[i][j]);
        assert name in DepNames([specs[i]]) by { assert [specs[i]][0][j] == specs[i][j]; }
        if name !in names {
          names := names + [name];
        }
      }
      assert specs[..i + 1] == specs[..i] + [specs[i]];
      assert DepNames(specs[..i + 1]) == DepNames(specs[..i]) + DepNames([specs[i]]);
    }
    assert specs[..|specs|] == specs;
  }

  /** Which podspec files each podspec file depends on. */
  ghost function LocalGraph(ws: Workspace): Digraph<string> {
    map f | f in ws.podspecs :: LocalFiles(ws, DepNames(ws.podspecs[f]))
  }

  ghost function LocalFiles(ws: Workspace, names: set<string>): set<string> {
    set n | n in names && n + ".podspec" in ws.podspecs :: n + ".podspec"
  }

  lemma NextFile(ws: Workspace, deps: seq<string>, i: nat)
    requires i < |deps|
    ensures LocalFiles(ws, Elements(deps[..i + 1]))
            == LocalFiles(ws, Elements(deps[..i])) + LocalFiles(ws, {deps[i]})
    ensures LocalFiles(ws, {deps[i]})
            == if deps[i] + ".podspec" in ws.podspecs then {deps[i] + ".podspec"} else {}
    ensures LocalFiles(ws, {deps[i]}) <= LocalFiles(ws, Elements(deps))
  {
    assert Elements(deps[..i + 1]) == Elements(deps[..i]) + {deps[i]};
  }

  class Seen {
    var names: set<string>

    constructor (initial: set<string>)
      ensures names == initial
    {
      names := initial;
    }
  }

  lemma AppendFound(results: seq<string>, d: string, inner: seq<string>)
    requires NoRepeats(results) && NoRepeats(inner)
    requires d !in results && Elements(inner) !! Elements(results) + {d}
    ensures NoRepeats(results + [d] + inner)
    ensures Elements(results + [d] + inner) == Elements(results) + {d} + Elements(inner)
  {
    var all := results + [d] + inner;
    forall i | 0 <= i < |results| ensures all[i] in Elements(results) {
      assert all[i] == results[i];
    }
    forall i | |results| < i < |all| ensures all[i] in Elements(inner) {
      assert all[i] == inner[i - |results| - 1];
    }
  }

  /** The search has found `results`, and the shared set holds exactly what was seen before and those. */
  ghost predicate Searched(ws: Workspace, start: set<string>, root: string, results: seq<string>, names: set<string>) {
    && NoRepeats(results) && Elements(results) !! start
    && names == start + Elements(results)
    && Explored(LocalGraph(ws), start, root, Elements(results))
  }

  lemma Descended(ws: Workspace, start: set<string>, root: string, results: seq<string>, names: set<string>, d: string,
                  inner: seq<string>, after: set<string>)
    requires Searched(ws, start, root, results, names)
    requires d in Edges(LocalGraph(ws), root) && d !in names
    requires AreLocalDeps(ws, names + {d} + {d}, d, inner) && after == names + {d} + {d} + Elements(inner)
    ensures Searched(ws, start, root, results + [d] + inner, after)
  {
    assert names + {d} + {d} == start + Elements(results) + {d};
    ExploreChild(LocalGraph(ws), start, root, Elements(results), d, Elements(inner));
    AppendFound(results, d, inner);
  }

  /** Without repeats, exactly the files that `root` depends on along paths that avoid `avoid`. */
  ghost predicate AreLocalDeps(ws: Workspace, avoid: set<string>, root: string, results: seq<string>) {
    NoRepeats(results) && forall x :: x in Elements(results) <==> Beyond(LocalGraph(ws), avoid, root, x)
  }

  lemma SearchEnds(ws: Workspace, start: set<string>, root: string, results: seq<string>, names: set<string>)
    requires root in ws.podspecs && Searched(ws, start, root, results, names)
    requires LocalFiles(ws, DepNames(ws.podspecs[root])) <= names
    ensures AreLocalDeps(ws, start, root, results)
  {
    ExploredAll(LocalGraph(ws), start, root, Elements(results));
  }

  lemma SearchBegins(ws: Workspace, start: set<string>, root: string)
    ensures Searched(ws, start, root, [], start)
  {
  }

  /** Returns, without repeats, exactly the local podspecs that `root` depends on along paths
      that avoid the names seen before and `root` itself. None: `root` cannot be loaded. */
  method FindLocalDeps(ws: Workspace, root: string, seen: Seen) returns (r: Option<seq<string>>)
    modifies seen
    ensures r.None? <==> root !in ws.podspecs
    ensures r.Some? ==> AreLocalDeps(ws, old(seen.names) + {root}, root, r.value)
    ensures seen.names == old(seen.names) + {root} + (if r.Some? then Elements(r.value) else {})
    decreases ws.podspecs.Keys - seen.names - {root}, 1
  {
    ghost var available := ws.podspecs.Keys - seen.names - {root};
    seen.names := seen.names + {root};
    if root !in ws.podspecs {
      return None;
    }
    ghost var start := seen.names;
    var results := [];
    var deps := AllDeps(ws.podspecs[root]);
    SearchBegins(ws, start, root);
    for i := 0 to |deps|
      invariant Searched(ws, start, root, results, seen.names)
      invariant LocalFiles(ws, Elements(deps[..i])) <= seen.names
    {
      NextFile(ws, deps, i);
      assert ws.podspecs.Keys - seen.names <= available;
      results := Visit(ws, root, deps[i], seen, start, results);
    }
    assert deps[..|deps|] == deps;
    SearchEnds(ws, start, root, results, seen.names);
    return Some(results);
  }

  /** The body of the loop over the dependency names. */
  method Visit(ws: Workspace, root: string, name: string, seen: Seen, ghost start: set<string>, results: seq<string>)
    returns (more: seq<string>)
    requires root in ws.podspecs && name in DepNames(ws.podspecs[root])
    requires Searched(ws, start, root, results, seen.names)
    modifies seen
    ensures Searched(ws, start, root, more, seen.names)
    ensures old(seen.names) + LocalFiles(ws, {name}) <= seen.names
    decreases ws.podspecs.Keys - seen.names, 0
  {
    var dep := name + ".podspec";
    if dep !in ws.podspecs || dep in seen.names {
      return results;
    }
    ghost var names := seen.names;
    seen.names := seen.names + {dep};
    assert dep in ws.podspecs.Keys - names;
    var inner := FindLocalDeps(ws, dep, seen);
    Descended(ws, start, root, results, names, dep, inner.value, seen.names);
    more := results + [dep] + inner.value;
  }
}
