/** `resolve_subspec_deps` of podspec_cmake.rb: a last-in-first-out worklist that may hold
    a name several times and may expand a finished name again. */
module SubspecResolver {
  import opened Text
  import opened Graph

  /** A root spec: its name, and for each qualified subspec name the dependencies it declares. */
  datatype Spec = Spec(name: string, subspecs: map<string, seq<string>>)

  /** `subspec_by_name` raises for a name that it does not find. */
  datatype Resolution = Resolved(names: seq<string>) | MissingSubspec(name: string)

  /** Dependencies within the same root spec. */
  ghost function SameRoot(spec: Spec): Digraph<string> {
    map n | n in spec.subspecs :: set d | d in spec.subspecs[n] && StartsWith(d, spec.name + "/")
  }

  /** The names that a request leads to. */
  ghost predicate Needed(spec: Spec, requested: seq<string>, x: string) {
    exists r :: r in requested && Reaches(SameRoot(spec), {}, r, x)
  }

  lemma NeededThen(spec: Spec, requested: seq<string>, x: string, y: string)
    requires Needed(spec, requested, x) && y in Edges(SameRoot(spec), x)
    ensures Needed(spec, requested, y)
  {
    var r :| r in requested && Reaches(SameRoot(spec), {}, r, x);
    ReachesThen(SameRoot(spec), {}, r, x, y);
  }

  /** Entry `k` of the worklist, if already expanded, only waits for names that are expanded
      or lie above it. So an expanded name on top of the worklist has nothing left to push. */
  ghost predicate WaitsAbove(g: Digraph<string>, stack: seq<string>, result: set<string>, k: int)
    requires 0 <= k < |stack|
  {
    stack[k] in result ==> Edges(g, stack[k]) <= result + Elements(stack[k + 1..])
  }

  ghost predicate Worklist(g: Digraph<string>, requested: seq<string>, stack: seq<string>, result: set<string>) {
    && (forall k :: 0 <= k < |stack| ==> WaitsAbove(g, stack, result, k))
    && (forall x :: x in result ==> Edges(g, x) <= result + Elements(stack))
    && Elements(requested) <= result + Elements(stack)
  }

  /** What expanding a name pushes, in order. */
  function Pushes(deps: seq<string>, prefix: string, result: set<string>): seq<string> {
    if deps == [] then []
    else
      var front := Pushes(deps[..|deps| - 1], prefix, result);
      var last := deps[|deps| - 1];
      if StartsWith(last, prefix) && last !in result then front + [last] else front
  }

  lemma {:induction false} PushesElements(deps: seq<string>, prefix: string, result: set<string>)
    ensures Elements(Pushes(deps, prefix, result)) == (set d | d in deps && StartsWith(d, prefix)) - result
  {
    if deps != [] {
      var front, last := deps[..|deps| - 1], deps[|deps| - 1];
      PushesElements(front, prefix, result);
      assert deps == front + [last];
      ElementsConcat(Pushes(front, prefix, result), [last]);
      assert (set d | d in deps && StartsWith(d, prefix))
          == (set d | d in front && StartsWith(d, prefix)) + (if StartsWith(last, prefix) then {last} else {});
    }
  }

  /** Expanding the top of the worklist keeps the invariant. */
  lemma Expand(g: Digraph<string>, requested: seq<string>, below: seq<string>, req: string, pushed: seq<string>,
               result: set<string>)
    requires Worklist(g, requested, below + [req], result)
    requires Elements(pushed) == Edges(g, req) - (result + {req})
    ensures Worklist(g, requested, below + pushed, result + {req})
    ensures req in result ==> pushed == []
  {
    var stack, next, result' := below + [req], below + pushed, result + {req};
    ElementsConcat(below, [req]);
    ElementsConcat(below, pushed);
    assert WaitsAbove(g, stack, result, |below|);
    assert stack[|below| + 1..] == [];
    assert pushed != [] ==> pushed[0] in Elements(pushed);
    forall k | 0 <= k < |next|
      ensures WaitsAbove(g, next, result', k)
    {
      if k < |below| {
        assert WaitsAbove(g, stack, result, k);
        assert stack[k + 1..] == below[k + 1..] + [req] && next[k + 1..] == below[k + 1..] + pushed;
        ElementsConcat(below[k + 1..], [req]);
        ElementsConcat(below[k + 1..], pushed);
      } else {
        assert next[k] in Elements(pushed);
      }
    }
  }

  // ----- `to_a.sort` -----

  predicate Less(a: string, b: string) {
    if b == "" then false
    else if a == "" then true
    else a[0] < b[0] || (a[0] == b[0] && Less(a[1..], b[1..]))
  }

  /** The order of `String#<=>`: a proper prefix comes first, else the first character that differs decides. */
  lemma {:induction false} LessMeaning(a: string, b: string)
    ensures Less(a, b) <==> a < b || exists i :: FirstDifference(a, b, i) && a[i] < b[i]
  {
    if a != "" && b != "" && a[0] == b[0] {
      LessMeaning(a[1..], b[1..]);
      assert a == [a[0]] + a[1..] && b == [b[0]] + b[1..];
      assert a < b <==> a[1..] < b[1..];
      forall i | i > 0 ensures FirstDifference(a, b, i) <==> FirstDifference(a[1..], b[1..], i - 1) {
        DifferenceInRest(a, b, i);
      }
      if i :| FirstDifference(a[1..], b[1..], i) && a[1..][i] < b[1..][i] {
        assert FirstDifference(a, b, i + 1);
      }
    } else if a != "" && b != "" {
      assert a[..0] == b[..0] && FirstDifference(a, b, 0);
      forall i | FirstDifference(a, b, i) ensures i == 0 {
        if i > 0 {
          SameFirst(a, b, i);
        }
      }
    }
  }

  lemma SameFirst(a: string, b: string, i: int)
    requires 0 < i <= |a| && i <= |b| && a[..i] == b[..i]
    ensures a[0] == b[0]
  {
    assert a[..i][0] == a[0] && b[..i][0] == b[0];
  }

  ghost predicate FirstDifference(a: string, b: string, i: int) {
    0 <= i < |a| && i < |b| && a[..i] == b[..i] && a[i] != b[i]
  }

  lemma DifferenceInRest(a: string, b: string, i: int)
    requires a != "" && b != "" && a[0] == b[0] && i > 0
    ensures FirstDifference(a, b, i) <==> FirstDifference(a[1..], b[1..], i - 1)
  {
    if i < |a| && i < |b| {
      assert a[..i] == [a[0]] + a[1..][..i - 1] && b[..i] == [b[0]] + b[1..][..i - 1];
      assert a[..i][1..] == a[1..][..i - 1] && b[..i][1..] == b[1..][..i - 1];
    }
  }

  lemma {:induction false} LessTotal(a: string, b: string)
    ensures Less(a, b) || a == b || Less(b, a)
  {
    if a != "" && b != "" && a[0] == b[0] {
      LessTotal(a[1..], b[1..]);
      assert a == [a[0]] + a[1..] && b == [b[0]] + b[1..];
    }
  }

  lemma {:induction false} LessTransitive(a: string, b: string, c: string)
    requires Less(a, b) && Less(b, c)
    ensures Less(a, c)
  {
    if a != "" && a[0] == b[0] == c[0] {
      LessTransitive(a[1..], b[1..], c[1..]);
    }
  }

  predicate Ascending(s: seq<string>) {
    forall i, j :: 0 <= i < j < |s| ==> Less(s[i], s[j])
  }

  /** Sorts the names of a set: strictly ascending, so without repeats. */
  method Sorted(names: set<string>) returns (r: seq<string>)
    ensures Ascending(r) && Elements(r) == names
  {
    r := [];
    var rest := names;
    while rest != {}
      invariant Ascending(r) && Elements(r) == names - rest && rest <= names
      decreases rest
    {
      var x :| x in rest;
      r := Insert(r, x);
      rest := rest - {x};
    }
  }

  method Insert(s: seq<string>, x: string) returns (r: seq<string>)
    requires Ascending(s) && x !in s
    ensures Ascending(r) && Elements(r) == Elements(s) + {x}
  {
    var i := 0;
    while i < |s| && Less(s[i], x)
      invariant i <= |s| && forall k :: 0 <= k < i ==> Less(s[k], x)
    {
      i := i + 1;
    }
    r := s[..i] + [x] + s[i..];
    forall k | i <= k < |s| ensures Less(x, s[k]) {
      LessTotal(s[i], x);
      assert s[i] in s;
      if k > i {
        LessTransitive(x, s[i], s[k]);
      }
    }
    InsertedAt(s, x, i);
  }

  lemma InsertedAt(s: seq<string>, x: string, i: nat)
    requires Ascending(s) && i <= |s|
    requires (forall k :: 0 <= k < i ==> Less(s[k], x)) && (forall k :: i <= k < |s| ==> Less(x, s[k]))
    ensures Ascending(s[..i] + [x] + s[i..]) && Elements(s[..i] + [x] + s[i..]) == Elements(s) + {x}
  {
    var r := s[..i] + [x] + s[i..];
    forall j, k | 0 <= j < k < |r| ensures Less(r[j], r[k]) {
      assert r[j] == if j < i then s[j] else if j == i then x else s[j - 1];
      assert r[k] == if k < i then s[k] else if k == i then x else s[k - 1];
    }
    InsertedElements(s, x, i);
  }

  lemma InsertedElements(s: seq<string>, x: string, i: nat)
    requires i <= |s|
    ensures Elements(s[..i] + [x] + s[i..]) == Elements(s) + {x}
  {
    ElementsConcat(s[..i] + [x], s[i..]);
    ElementsConcat(s[..i], [x]);
    ElementsConcat(s[..i], s[i..]);
    assert s == s[..i] + s[i..];
  }

  /** The state of the outer loop. */
  ghost predicate Resolving(spec: Spec, requested: seq<string>, stack: seq<string>, result: set<string>) {
    && Worklist(SameRoot(spec), requested, stack, result)
    && result <= spec.subspecs.Keys
    && forall x :: x in result + Elements(stack) ==> Needed(spec, requested, x)
  }

  lemma ResolvingBegins(spec: Spec, requested: seq<string>)
    ensures Resolving(spec, requested, requested, {})
  {
    forall x | x in requested ensures Needed(spec, requested, x) {
      ReachesSelf(SameRoot(spec), {}, x);
    }
  }

  lemma ResolvingStep(spec: Spec, requested: seq<string>, below: seq<string>, req: string, result: set<string>)
    requires Resolving(spec, requested, below + [req], result) && req in spec.subspecs
    ensures var pushed := Pushes(spec.subspecs[req], spec.name + "/", result + {req});
            && Resolving(spec, requested, below + pushed, result + {req})
            && (req in result ==> pushed == [])
  {
    var pushed := Pushes(spec.subspecs[req], spec.name + "/", result + {req});
    PushesElements(spec.subspecs[req], spec.name + "/", result + {req});
    Expand(SameRoot(spec), requested, below, req, pushed, result);
    ElementsConcat(below, pushed);
    ElementsConcat(below, [req]);
    forall x | x in Elements(pushed) ensures Needed(spec, requested, x) {
      NeededThen(spec, requested, req, x);
    }
  }

  lemma ResolvingEnds(spec: Spec, requested: seq<string>, result: set<string>)
    requires Resolving(spec, requested, [], result)
    ensures forall x :: x in result <==> Needed(spec, requested, x)
  {
    forall x | Needed(spec, requested, x) ensures x in result {
      NeededIsLeast(spec, requested, result, x);
    }
  }

  /** Returns the least set of names that contains the requests and every same-root
      dependency of its members, sorted; or a needed name that is not a subspec. */
  method ResolveSubspecDeps(spec: Spec, requested: seq<string>) returns (r: Resolution)
    ensures r.Resolved? ==> Ascending(r.names)
    ensures r.Resolved? ==> forall x :: x in Elements(r.names) <==> Needed(spec, requested, x)
    ensures r.Resolved? ==> Elements(r.names) <= spec.subspecs.Keys
    ensures r.MissingSubspec? ==> r.name !in spec.subspecs && Needed(spec, requested, r.name)
  {
    var prefix := spec.name + "/";
    var stack := requested;
    var result: set<string> := {};
    ResolvingBegins(spec, requested);
    while stack != []
      invariant Resolving(spec, requested, stack, result)
      decreases spec.subspecs.Keys - result, |stack|
    {
      var req := stack[|stack| - 1];
      ghost var below, done := stack[..|stack| - 1], result;
      assert stack == below + [req] && req in Elements(stack);
      stack := stack[..|stack| - 1];
      result := result + {req};
      if req !in spec.subspecs {
        return MissingSubspec(req);
      }
      ResolvingStep(spec, requested, below, req, done);
      var deps := spec.subspecs[req];
      for i := 0 to |deps|
        invariant stack == below + Pushes(deps[..i], prefix, result)
      {
        assert deps[..i + 1][..i] == deps[..i];
        if StartsWith(deps[i], prefix) && deps[i] !in result {
          stack := stack + [deps[i]];
        }
      }
      assert deps[..|deps|] == deps;
    }
    ResolvingEnds(spec, requested, result);
    var names := Sorted(result);
    return Resolved(names);
  }

  /** The needed names are the least set that contains the requests and is closed under
      same-root dependencies. */
  lemma NeededIsLeast(spec: Spec, requested: seq<string>, closed: set<string>, x: string)
    requires Elements(requested) <= closed && IsClosed(SameRoot(spec), {}, closed)
    requires Needed(spec, requested, x)
    ensures x in closed
  {
    var r :| r in requested && Reaches(SameRoot(spec), {}, r, x);
    ReachesStaysInside(SameRoot(spec), {}, closed, r, x);
  }
}
