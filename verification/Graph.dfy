/** Reachability in finite directed graphs, along paths that avoid a set of nodes,
    and the theory of a depth-first search that shares one set of seen nodes. */
module Graph {

  type Digraph<T> = map<T, set<T>>

  function Edges<T>(g: Digraph<T>, x: T): set<T> {
    if x in g then g[x] else {}
  }

  /** Every node after the first is an edge away from its predecessor and outside `avoid`. */
  ghost predicate IsPath<T>(g: Digraph<T>, avoid: set<T>, p: seq<T>) {
    p != [] && forall i :: 0 < i < |p| ==> p[i] in Edges(g, p[i - 1]) && p[i] !in avoid
  }

  ghost predicate PathBetween<T>(g: Digraph<T>, avoid: set<T>, p: seq<T>, a: T, b: T) {
    IsPath(g, avoid, p) && p[0] == a && p[|p| - 1] == b
  }

  ghost predicate Reaches<T(!new)>(g: Digraph<T>, avoid: set<T>, a: T, b: T) {
    exists p :: PathBetween(g, avoid, p, a, b)
  }

  lemma ReachesSelf<T(!new)>(g: Digraph<T>, avoid: set<T>, a: T)
    ensures Reaches(g, avoid, a, a)
  {
    assert PathBetween(g, avoid, [a], a, a);
  }

  lemma ReachesThen<T(!new)>(g: Digraph<T>, avoid: set<T>, a: T, b: T, c: T)
    requires Reaches(g, avoid, a, b) && c in Edges(g, b) && c !in avoid
    ensures Reaches(g, avoid, a, c)
  {
    var p :| PathBetween(g, avoid, p, a, b);
    assert PathBetween(g, avoid, p + [c], a, c);
  }

  lemma ReachesFrom<T(!new)>(g: Digraph<T>, avoid: set<T>, a: T, b: T, c: T)
    requires b in Edges(g, a) && b !in avoid && Reaches(g, avoid, b, c)
    ensures Reaches(g, avoid, a, c)
  {
    var p :| PathBetween(g, avoid, p, b, c);
    var q := [a] + p;
    assert forall i :: 0 < i < |q| ==> q[i] == p[i - 1];
    assert PathBetween(g, avoid, q, a, c);
  }

  lemma ReachesThrough<T(!new)>(g: Digraph<T>, avoid: set<T>, a: T, b: T, c: T)
    requires Reaches(g, avoid, a, b) && Reaches(g, avoid, b, c)
    ensures Reaches(g, avoid, a, c)
  {
    var p :| PathBetween(g, avoid, p, a, b);
    var q :| PathBetween(g, avoid, q, b, c);
    var r := p + q[1..];
    assert forall i :: |p| <= i < |r| ==> r[i] == q[i - |p| + 1];
    assert r[|p| - 1] == q[0];
    assert PathBetween(g, avoid, r, a, c);
  }

  lemma ReachesAvoidingLess<T(!new)>(g: Digraph<T>, avoid: set<T>, less: set<T>, a: T, b: T)
    requires Reaches(g, avoid, a, b) && less <= avoid
    ensures Reaches(g, less, a, b)
  {
    var p :| PathBetween(g, avoid, p, a, b);
    assert PathBetween(g, less, p, a, b);
  }

  ghost predicate IsClosed<T>(g: Digraph<T>, avoid: set<T>, s: set<T>) {
    forall x :: x in s ==> Edges(g, x) <= s + avoid
  }

  lemma {:induction false} PathStaysInside<T>(g: Digraph<T>, avoid: set<T>, s: set<T>, p: seq<T>)
    requires IsPath(g, avoid, p) && p[0] in s && IsClosed(g, avoid, s)
    ensures p[|p| - 1] in s
    decreases |p|
  {
    if |p| > 1 {
      assert p[1] in Edges(g, p[0]);
      PathStaysInside(g, avoid, s, p[1..]);
    }
  }

  /** Whatever is reachable from a closed set is in it. */
  lemma ReachesStaysInside<T(!new)>(g: Digraph<T>, avoid: set<T>, s: set<T>, a: T, b: T)
    requires Reaches(g, avoid, a, b) && a in s && IsClosed(g, avoid, s)
    ensures b in s
  {
    var p :| PathBetween(g, avoid, p, a, b);
    PathStaysInside(g, avoid, s, p);
  }

  // ----- depth-first search with a shared set of seen nodes -----

  /** A path of at least one edge leads from `a` to `x` and, after `a`, avoids `avoid`. */
  ghost predicate Beyond<T(!new)>(g: Digraph<T>, avoid: set<T>, a: T, x: T) {
    exists d :: d in Edges(g, a) && d !in avoid && Reaches(g, avoid, d, x)
  }

  lemma BeyondReaches<T(!new)>(g: Digraph<T>, avoid: set<T>, a: T, x: T)
    requires Beyond(g, avoid, a, x)
    ensures x !in avoid && Reaches(g, avoid, a, x)
  {
    var d :| d in Edges(g, a) && d !in avoid && Reaches(g, avoid, d, x);
    ReachesFrom(g, avoid, a, d, x);
    var p :| PathBetween(g, avoid, p, d, x);
    if |p| > 1 {
      assert p[|p| - 1] !in avoid;
    }
  }

  lemma BeyondThen<T(!new)>(g: Digraph<T>, avoid: set<T>, a: T, x: T, y: T)
    requires x == a || Beyond(g, avoid, a, x)
    requires y in Edges(g, x) && y !in avoid
    ensures Beyond(g, avoid, a, y)
  {
    if x == a {
      ReachesSelf(g, avoid, y);
    } else {
      var d :| d in Edges(g, a) && d !in avoid && Reaches(g, avoid, d, x);
      ReachesThen(g, avoid, d, x, y);
    }
  }

  /** A search from `root` that began with `start` seen has found `found`; everything
      found has had all its edges followed. */
  ghost predicate Explored<T(!new)>(g: Digraph<T>, start: set<T>, root: T, found: set<T>) {
    forall x :: x in found ==> x !in start && Beyond(g, start, root, x) && Edges(g, x) <= start + found
  }

  /** A recursive search of a fresh child, which sees what was found so far, completes the parent's. */
  lemma ExploreChild<T(!new)>(g: Digraph<T>, start: set<T>, root: T, found: set<T>, d: T, inner: set<T>)
    requires Explored(g, start, root, found)
    requires d in Edges(g, root) && d !in start + found
    requires forall x :: x in inner <==> Beyond(g, start + found + {d}, d, x)
    ensures Explored(g, start, root, found + {d} + inner)
    ensures inner !! start + found + {d}
  {
    var avoid := start + found + {d};
    forall x | x in inner ensures x !in avoid && Reaches(g, avoid, d, x) {
      BeyondReaches(g, avoid, d, x);
    }
    ReachesSelf(g, avoid, d);
    forall x | x in {d} + inner
      ensures Beyond(g, start, root, x) && Edges(g, x) <= start + (found + {d} + inner)
    {
      ReachesAvoidingLess(g, avoid, start, d, x);
      forall y | y in Edges(g, x) && y !in avoid ensures y in inner {
        BeyondThen(g, avoid, d, x, y);
      }
    }
  }

  /** Once the root's own edges are followed, the search has found everything. */
  lemma ExploredAll<T(!new)>(g: Digraph<T>, start: set<T>, root: T, found: set<T>)
    requires Explored(g, start, root, found) && Edges(g, root) <= start + found
    ensures forall x :: x in found <==> Beyond(g, start, root, x)
  {
    forall x | Beyond(g, start, root, x) ensures x in found {
      var d :| d in Edges(g, root) && d !in start && Reaches(g, start, d, x);
      assert IsClosed(g, start, found);
      ReachesStaysInside(g, start, found, d, x);
    }
  }
}
