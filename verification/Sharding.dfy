/** `shard` and `_chunks` of scripts/lib/checker.py, and `check` of check_lint.py. */
module Sharding {

  /** `int(math.ceil(a / b))` */
  function CeilDiv(a: nat, b: nat): (q: nat)
    requires b > 0
    ensures a <= q * b < a + b
  {
    (a + b - 1) / b
  }

  function Concat<T>(chunks: seq<seq<T>>): seq<T> {
    if chunks == [] then [] else Concat(chunks[..|chunks| - 1]) + chunks[|chunks| - 1]
  }

  lemma ProductGrows(a: nat, b: nat, n: nat)
    requires a >= b
    ensures a * n >= b * n
  {
    assert a * n == b * n + (a - b) * n;
  }

  lemma FewerThan(k: nat, n: nat, tasks: nat, size: nat)
    requires k * n < size <= n * tasks
    ensures k < tasks
  {
    if k >= tasks {
      ProductGrows(k, tasks, n);
    }
  }

  /** Consecutive chunks of `n` items; the last may be shorter. */
  method Chunks<T>(items: seq<T>, n: nat) returns (chunks: seq<seq<T>>)
    requires n > 0
    ensures Concat(chunks) == items
    ensures forall k :: 0 <= k < |chunks| ==> 0 < |chunks[k]| <= n
    ensures forall k :: 0 <= k < |chunks| - 1 ==> |chunks[k]| == n
    ensures |items| <= |chunks| * n < |items| + n
  {
    chunks := [];
    var i := 0;
    while i < |items|
      invariant Chunked(items, n, i, chunks)
      decreases |items| - i
    {
      var end := if i + n < |items| then i + n else |items|;
      NextChunk(items, n, i, end, chunks);
      chunks := chunks + [items[i..end]];
      i := i + n;
    }
    assert items[..|items|] == items;
  }

  /** The chunks of `items[..i]`; all are full if the items reach up to `i`. */
  ghost predicate Chunked<T>(items: seq<T>, n: nat, i: nat, chunks: seq<seq<T>>) {
    && i == |chunks| * n < |items| + n
    && Concat(chunks) == items[..if i < |items| then i else |items|]
    && (forall k :: 0 <= k < |chunks| ==> 0 < |chunks[k]| <= n)
    && (forall k :: 0 <= k < |chunks| && (k < |chunks| - 1 || i <= |items|) ==> |chunks[k]| == n)
  }

  lemma NextChunk<T>(items: seq<T>, n: nat, i: nat, end: nat, chunks: seq<seq<T>>)
    requires n > 0 && Chunked(items, n, i, chunks) && i < |items|
    requires end == if i + n < |items| then i + n else |items|
    ensures Chunked(items, n, i + n, chunks + [items[i..end]])
  {
    var more := chunks + [items[i..end]];
    assert more[..|chunks|] == chunks;
    Adjacent(items, i, end);
    assert (|chunks| + 1) * n == |chunks| * n + n;
  }

  lemma Adjacent<T>(items: seq<T>, i: nat, end: nat)
    requires i <= end <= |items|
    ensures items[..i] + items[i..end] == items[..end]
  {
  }

  /** Splits the items over at most `tasks` non-empty lists, of equal size but for the last. */
  method Shard<T>(items: seq<T>, tasks: nat) returns (chunks: seq<seq<T>>)
    requires tasks > 0
    ensures Concat(chunks) == items
    ensures |chunks| <= tasks
    ensures forall k :: 0 <= k < |chunks| ==> 0 < |chunks[k]| <= CeilDiv(|items|, tasks)
    ensures forall k :: 0 <= k < |chunks| - 1 ==> |chunks[k]| == CeilDiv(|items|, tasks)
    ensures items != [] ==>
              |items| <= |chunks| * CeilDiv(|items|, tasks) < |items| + CeilDiv(|items|, tasks)
    ensures |chunks| == tasks <==> (tasks - 1) * CeilDiv(|items|, tasks) < |items|
  {
    var n := CeilDiv(|items|, tasks);
    if items == [] {
      chunks := [];
      assert n == 0;
    } else {
      assert n > 0;
      chunks := Chunks(items, n);
      if |chunks| > 0 {
        assert (|chunks| - 1) * n == |chunks| * n - n;
        FewerThan(|chunks| - 1, n, tasks, |items|);
      }
      if (tasks - 1) * n < |items| {
        FewerThan(tasks - 1, n, |chunks|, |items|);
      }
    }
  }

  /** Five items on four cores are split over three lists, not four. */
  method FiveItemsOnFourCores<T>(items: seq<T>) returns (chunks: seq<seq<T>>)
    requires |items| == 5
    ensures |chunks| == 3
  {
    assert CeilDiv(5, 4) == 2;
    chunks := Shard(items, 4);
  }

  /** The files that a list of (kind, files) names, each with its kind. */
  function Pairs<K, F>(groups: seq<(K, seq<F>)>): seq<(K, F)> {
    if groups == [] then [] else Pairs(groups[..|groups| - 1]) + Tagged(groups[|groups| - 1].0, groups[|groups| - 1].1)
  }

  function Tagged<K, F>(kind: K, files: seq<F>): (r: seq<(K, F)>)
    ensures |r| == |files| && forall i :: 0 <= i < |r| ==> r[i] == (kind, files[i])
  {
    seq(|files|, i requires 0 <= i < |files| => (kind, files[i]))
  }

  /** Submissions that split the files of one kind over at most `tasks` lists, none of them empty, of
      equal size but for the last. */
  ghost predicate IsSharded<K(!new), F(!new)>(kind: K, files: seq<F>, tasks: nat, part: seq<(K, seq<F>)>)
    requires tasks > 0
  {
    var n := CeilDiv(|files|, tasks);
    && Pairs(part) == Tagged(kind, files) && |part| <= tasks
    && (forall k :: 0 <= k < |part| ==> part[k].0 == kind && 0 < |part[k].1| <= n)
    && (forall k :: 0 <= k < |part| - 1 ==> |part[k].1| == n)
    && (files != [] ==> |files| <= |part| * n < |files| + n)
  }

  lemma {:induction false} TaggedPairs<K, F>(kind: K, chunks: seq<seq<F>>)
    ensures Pairs(Tagged(kind, chunks)) == Tagged(kind, Concat(chunks))
    decreases |chunks|
  {
    if chunks != [] {
      var front, last := chunks[..|chunks| - 1], chunks[|chunks| - 1];
      TaggedPairs(kind, front);
      PairsSnoc(Tagged(kind, front), kind, last);
      assert Tagged(kind, chunks) == Tagged(kind, front) + [(kind, last)];
      assert Tagged(kind, Concat(front) + last) == Tagged(kind, Concat(front)) + Tagged(kind, last);
    }
  }

  lemma PairsSnoc<K, F>(groups: seq<(K, seq<F>)>, kind: K, files: seq<F>)
    ensures Pairs(groups + [(kind, files)]) == Pairs(groups) + Tagged(kind, files)
  {
    assert (groups + [(kind, files)])[..|groups|] == groups;
  }

  lemma {:induction false} PairsConcat<K, F>(a: seq<(K, seq<F>)>, b: seq<(K, seq<F>)>)
    ensures Pairs(a + b) == Pairs(a) + Pairs(b)
    decreases |b|
  {
    if b == [] {
      assert a + b == a;
    } else {
      var front, last := b[..|b| - 1], b[|b| - 1];
      PairsConcat(a, front);
      assert (a + b)[..|a + b| - 1] == a + front && (a + b)[|a + b| - 1] == last;
      Regroup(Pairs(a), Pairs(front), Tagged(last.0, last.1));
    }
  }

  lemma Regroup<T>(a: seq<T>, b: seq<T>, c: seq<T>)
    ensures (a + b) + c == a + (b + c)
  {
  }

  /** Submits the files of one kind after what was submitted before. */
  method CheckKind<K(!new), F(!new)>(kind: K, files: seq<F>, tasks: nat, before: seq<(K, seq<F>)>)
    returns (submitted: seq<(K, seq<F>)>)
    requires tasks > 0
    ensures before <= submitted && IsSharded(kind, files, tasks, submitted[|before|..])
  {
    submitted := before;
    var chunks := Shard(files, tasks);
    for c := 0 to |chunks|
      invariant submitted == before + Tagged(kind, chunks[..c])
    {
      assert Tagged(kind, chunks[..c + 1]) == Tagged(kind, chunks[..c]) + [(kind, chunks[c])];
      if chunks[c] != [] {
        submitted := submitted + [(kind, chunks[c])];
      }
    }
    assert chunks[..|chunks|] == chunks && submitted[|before|..] == Tagged(kind, chunks);
    TaggedPairs(kind, chunks);
  }

  /** Submits every file to the linter of its kind exactly once, in order, and the files of each kind
      as `Shard` splits them; `cuts` tells where the submissions of each kind begin. */
  method Check<K(!new), F(!new)>(groups: seq<(K, seq<F>)>, tasks: nat)
    returns (submitted: seq<(K, seq<F>)>, ghost cuts: seq<int>)
    requires tasks > 0
    ensures Pairs(submitted) == Pairs(groups)
    ensures AreCuts(groups, |groups|, tasks, submitted, cuts)
  {
    submitted, cuts := [], [0];
    for g := 0 to |groups|
      invariant Pairs(submitted) == Pairs(groups[..g])
      invariant AreCuts(groups, g, tasks, submitted, cuts)
    {
      ghost var before := submitted;
      submitted := CheckKind(groups[g].0, groups[g].1, tasks, submitted);
      NextKind(groups, tasks, before, submitted, cuts, g);
      cuts := cuts + [|submitted|];
    }
    assert groups[..|groups|] == groups;
  }

  /** The submissions of the first `n` kinds. */
  ghost predicate AreCuts<K(!new), F(!new)>(groups: seq<(K, seq<F>)>, n: nat, tasks: nat, submitted: seq<(K, seq<F>)>,
                                            cuts: seq<int>)
    requires tasks > 0 && n <= |groups|
  {
    && |cuts| == n + 1 && cuts[0] == 0 && cuts[n] == |submitted|
    && forall g :: 0 <= g < n ==> CutFits(groups[g].0, groups[g].1, tasks, submitted, cuts, g)
  }

  /** The submissions between the cut of kind `g` and the next one are those of its files. */
  ghost predicate CutFits<K(!new), F(!new)>(kind: K, files: seq<F>, tasks: nat, submitted: seq<(K, seq<F>)>,
                                            cuts: seq<int>, g: nat)
    requires tasks > 0 && g + 1 < |cuts|
  {
    0 <= cuts[g] <= cuts[g + 1] <= |submitted| && IsSharded(kind, files, tasks, submitted[cuts[g]..cuts[g + 1]])
  }

  lemma CutStays<K(!new), F(!new)>(kind: K, files: seq<F>, tasks: nat, before: seq<(K, seq<F>)>,
                                   after: seq<(K, seq<F>)>, cuts: seq<int>, g: nat)
    requires tasks > 0 && g + 1 < |cuts| && CutFits(kind, files, tasks, before, cuts, g) && before <= after
    ensures CutFits(kind, files, tasks, after, cuts + [|after|], g)
  {
    assert after[cuts[g]..cuts[g + 1]] == before[cuts[g]..cuts[g + 1]];
  }

  lemma LastCut<K(!new), F(!new)>(kind: K, files: seq<F>, tasks: nat, before: seq<(K, seq<F>)>,
                                  after: seq<(K, seq<F>)>, cuts: seq<int>, g: nat)
    requires tasks > 0 && |cuts| == g + 1 && cuts[g] == |before| && before <= after
    requires IsSharded(kind, files, tasks, after[|before|..])
    ensures CutFits(kind, files, tasks, after, cuts + [|after|], g)
  {
    assert after[|before|..|after|] == after[|before|..];
  }

  lemma NextKind<K(!new), F(!new)>(groups: seq<(K, seq<F>)>, tasks: nat, before: seq<(K, seq<F>)>,
                                   after: seq<(K, seq<F>)>, cuts: seq<int>, g: nat)
    requires tasks > 0 && g < |groups| && AreCuts(groups, g, tasks, before, cuts)
    requires Pairs(before) == Pairs(groups[..g])
    requires before <= after && IsSharded(groups[g].0, groups[g].1, tasks, after[|before|..])
    ensures AreCuts(groups, g + 1, tasks, after, cuts + [|after|])
    ensures Pairs(after) == Pairs(groups[..g + 1])
  {
    forall k | 0 <= k <= g ensures CutFits(groups[k].0, groups[k].1, tasks, after, cuts + [|after|], k) {
      if k < g {
        CutStays(groups[k].0, groups[k].1, tasks, before, after, cuts, k);
      } else {
        LastCut(groups[g].0, groups[g].1, tasks, before, after, cuts, g);
      }
    }
    NextPairs(groups, before, after, g);
  }

  lemma NextPairs<K, F>(groups: seq<(K, seq<F>)>, before: seq<(K, seq<F>)>, after: seq<(K, seq<F>)>, g: nat)
    requires g < |groups| && before <= after && Pairs(before) == Pairs(groups[..g])
    requires Pairs(after[|before|..]) == Tagged(groups[g].0, groups[g].1)
    ensures Pairs(after) == Pairs(groups[..g + 1])
  {
    assert groups[..g + 1] == groups[..g] + [groups[g]];
    PairsSnoc(groups[..g], groups[g].0, groups[g].1);
    PairsConcat(before, after[|before|..]);
    assert after == before + after[|before|..];
  }
}
