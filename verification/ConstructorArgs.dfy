/** The argument splitter of `CheckForNonStandardConstructs` in cpplint.py: split the
    text at every comma, then merge pieces in place until no piece has an open `<` or `(`. */
module ConstructorArgs {
  import opened Text

  function Split(s: string): (r: seq<string>)
    ensures |r| >= 1
    ensures forall k :: 0 <= k < |r| ==> ',' !in r[k]
  {
    if s == "" then [""]
    else
      var r := Split(s[1..]);
      if s[0] == ',' then [""] + r else [[s[0]] + r[0]] + r[1..]
  }

  function Join(args: seq<string>): string {
    if args == [] then "" else if |args| == 1 then args[0] else args[0] + "," + Join(args[1..])
  }

  /** `s.count(open) - s.count(close)` */
  function Net(s: string, open: char, close: char): int {
    if s == "" then 0
    else Net(s[..|s| - 1], open, close)
         + (if s[|s| - 1] == open then 1 else 0) - (if s[|s| - 1] == close then 1 else 0)
  }

  /** The difference of the two counts. */
  lemma {:induction false} NetIsCounts(s: string, open: char, close: char)
    ensures Net(s, open, close) == Count(s, [open]) - Count(s, [close])
    decreases |s|
  {
    if s != "" {
      NetIsCounts(s[1..], open, close);
      NetConcat([s[0]], s[1..], open, close);
      assert s == [s[0]] + s[1..] && [s[0]][..0] == "";
      CountOne(s, open);
      CountOne(s, close);
    }
  }

  lemma CountOne(s: string, c: char)
    requires s != ""
    ensures Count(s, [c]) == Count(s[1..], [c]) + if s[0] == c then 1 else 0
  {
    assert s[..1] == [s[0]];
  }

  predicate Unclosed(arg: string) {
    Net(arg, '<', '>') > 0 || Net(arg, '(', ')') > 0
  }

  predicate Closed(s: string) {
    Net(s, '<', '>') == 0 && Net(s, '(', ')') == 0
  }

  /** No prefix closes more than it opens. */
  ghost predicate Nested(text: string) {
    forall j :: 0 <= j <= |text| ==> Net(text[..j], '<', '>') >= 0 && Net(text[..j], '(', ')') >= 0
  }

  /** Wherever the merge loop would stop, at a comma or at the end, nothing is over-closed. */
  ghost predicate CutsClosed(text: string) {
    forall j :: 0 <= j <= |text| && (j == |text| || text[j] == ',') && !Unclosed(text[..j]) ==> Closed(text[..j])
  }

  /** `args` is `text` cut at exactly the commas that are outside every `<>` and `()`. */
  ghost predicate IsTopLevelSplit(text: string, args: seq<string>) {
    && Join(args) == text
    && (forall k :: 0 <= k < |args| ==> Closed(args[k]) && NoTopLevelComma(args[k]))
  }

  ghost predicate NoTopLevelComma(arg: string) {
    forall j :: 0 <= j < |arg| && arg[j] == ',' ==> !Closed(arg[..j])
  }

  /** Every comma of the piece was kept because something was open before it. */
  ghost predicate CommasKept(arg: string) {
    forall j :: 0 <= j < |arg| && arg[j] == ',' ==> Unclosed(arg[..j])
  }

  lemma {:induction false} NetConcat(a: string, b: string, o: char, c: char)
    ensures Net(a + b, o, c) == Net(a, o, c) + Net(b, o, c)
    decreases |b|
  {
    if b == "" {
      assert a + b == a;
    } else {
      NetConcat(a, b[..|b| - 1], o, c);
      assert (a + b)[..|a + b| - 1] == a + b[..|b| - 1];
    }
  }

  lemma {:induction false} JoinSplit(s: string)
    ensures Join(Split(s)) == s
  {
    if s != "" {
      JoinSplit(s[1..]);
      var r := Split(s[1..]);
      if s[0] == ',' {
        assert ([""] + r)[1..] == r;
      } else {
        JoinHead([s[0]], r);
      }
    }
  }

  lemma JoinHead(a: string, r: seq<string>)
    requires r != []
    ensures Join([a + r[0]] + r[1..]) == a + Join(r)
  {
    var r' := [a + r[0]] + r[1..];
    assert r'[1..] == r[1..];
    if |r| > 1 {
      assert a + r[0] + "," + Join(r[1..]) == a + (r[0] + "," + Join(r[1..]));
    }
  }

  lemma {:induction false} JoinMerge(pre: seq<string>, x: string, y: string, post: seq<string>)
    ensures Join(pre + [x + "," + y] + post) == Join(pre + [x] + [y] + post)
    decreases |pre|
  {
    if pre == [] {
      var a, b := [x + "," + y] + post, [x] + [y] + post;
      assert pre + [x + "," + y] + post == a && pre + [x] + [y] + post == b;
      assert b[1..] == [y] + post;
      JoinHead(x + ",", [y] + post);
      assert ([y] + post)[1..] == post;
      assert x + "," + y == (x + ",") + y;
    } else {
      var a, b := pre + [x + "," + y] + post, pre + [x] + [y] + post;
      assert a[1..] == pre[1..] + [x + "," + y] + post && b[1..] == pre[1..] + [x] + [y] + post;
      JoinMerge(pre[1..], x, y, post);
    }
  }

  // ----- the merge as a function of the pieces -----

  /** `arg` takes in the pieces of `rest` until nothing is open; None if they do not suffice. */
  function Merge(arg: string, rest: seq<string>): Option<seq<string>>
    decreases |rest|, 1
  {
    if !Unclosed(arg) then After([arg], MergeAll(rest))
    else if rest == [] then None
    else Merge(arg + "," + rest[0], rest[1..])
  }

  function MergeAll(pieces: seq<string>): Option<seq<string>>
    decreases |pieces|, 0
  {
    if pieces == [] then Some([]) else Merge(pieces[0], pieces[1..])
  }

  function After(done: seq<string>, r: Option<seq<string>>): Option<seq<string>> {
    match r case None => None case Some(more) => Some(done + more)
  }

  function Pieces(text: string): seq<string> { if text == "" then [] else Split(text) }

  lemma AfterTwice(a: seq<string>, x: string, r: Option<seq<string>>)
    ensures After(a, After([x], r)) == After(a + [x], r)
  {
    if r.Some? {
      assert a + ([x] + r.value) == a + [x] + r.value;
    }
  }

  lemma AfterNothing(r: Option<seq<string>>)
    ensures After([], r) == r
  {
    assert r.Some? ==> [] + r.value == r.value;
  }

  /** Between two rounds: the pieces before `i` are done. */
  ghost predicate Between(text: string, goal: Option<seq<string>>, args: seq<string>, i: nat) {
    && i <= |args| && Join(args) == text && (text == "" ==> args == [])
    && (forall k :: i <= k < |args| ==> ',' !in args[k])
    && (forall k :: 0 <= k < i ==> !Unclosed(args[k]) && CommasKept(args[k]))
    && goal == After(args[..i], MergeAll(args[i..]))
  }

  /** Within a round: `arg` is to replace the piece at `i`. */
  ghost predicate Within(text: string, goal: Option<seq<string>>, args: seq<string>, i: nat, arg: string) {
    && i < |args| && Join(args[..i] + [arg] + args[i + 1..]) == text && text != "" && CommasKept(arg)
    && (forall k :: i < k < |args| ==> ',' !in args[k])
    && (forall k :: 0 <= k < i ==> !Unclosed(args[k]) && CommasKept(args[k]))
    && goal == After(args[..i], Merge(arg, args[i + 1..]))
  }

  lemma MergeBegins(text: string)
    ensures Between(text, MergeAll(Pieces(text)), Pieces(text), 0)
  {
    JoinSplit(text);
    AfterNothing(MergeAll(Pieces(text)));
    assert Pieces(text)[..0] == [] && Pieces(text)[0..] == Pieces(text);
  }

  lemma RoundBegins(text: string, goal: Option<seq<string>>, args: seq<string>, i: nat)
    requires Between(text, goal, args, i) && i < |args|
    ensures Within(text, goal, args, i, args[i])
  {
    assert args[i..][1..] == args[i + 1..];
    assert args == args[..i] + [args[i]] + args[i + 1..];
  }

  lemma RoundEnds(text: string, goal: Option<seq<string>>, args: seq<string>, i: nat, arg: string)
    requires Within(text, goal, args, i, arg) && !Unclosed(arg)
    ensures Between(text, goal, args[i := arg], i + 1)
  {
    var args' := args[i := arg];
    AfterTwice(args[..i], arg, MergeAll(args[i + 1..]));
    assert args'[..i + 1] == args[..i] + [arg] && args'[i + 1..] == args[i + 1..];
    assert args' == args[..i] + [arg] + args[i + 1..];
  }

  lemma RoundGoesOn(text: string, goal: Option<seq<string>>, args: seq<string>, i: nat, arg: string)
    requires Within(text, goal, args, i, arg) && Unclosed(arg) && i + 1 < |args|
    ensures Within(text, goal, args[..i + 1] + args[i + 2..], i, arg + "," + args[i + 1])
  {
    var args', next := args[..i + 1] + args[i + 2..], arg + "," + args[i + 1];
    assert args'[..i] == args[..i] && args'[i + 1..] == args[i + 2..];
    assert args[i + 1..] == [args[i + 1]] + args[i + 2..];
    JoinMerge(args[..i], arg, args[i + 1], args[i + 2..]);
    assert args[..i] + [arg] + args[i + 1..] == args[..i] + [arg] + [args[i + 1]] + args[i + 2..];
    KeepComma(arg, args[i + 1]);
  }

  lemma RunsOff(text: string, goal: Option<seq<string>>, args: seq<string>, i: nat, arg: string)
    requires Within(text, goal, args, i, arg) && Unclosed(arg) && i + 1 == |args|
    ensures goal == None && (CutsClosed(text) ==> !Closed(text))
  {
    assert args[i + 1..] == [] && args[..i] + [arg] + [] == args[..i] + [arg];
    if CutsClosed(text) {
      UnclosedEnd(args[..i], arg, text);
    }
  }

  lemma MergeEnds(text: string, goal: Option<seq<string>>, args: seq<string>)
    requires Between(text, goal, args, |args|)
    ensures goal == Some(args)
    ensures text != "" ==> (IsTopLevelSplit(text, args) <==> CutsClosed(text) && Closed(text))
    ensures CutsClosed(text) ==> Closed(text)
  {
    assert args[..|args|] + [] == args && args[|args|..] == [];
    if text != "" {
      PiecesAreClosed(args, text);
    }
  }

  /** The whole function: split, then merge in place. None stands for the IndexError that
      reading past the last piece raises. */
  method CollapseArguments(text: string) returns (r: Option<seq<string>>)
    ensures r == MergeAll(Pieces(text))
    ensures r.Some? ==> Join(r.value) == text
    ensures r.Some? ==> forall k :: 0 <= k < |r.value| ==> !Unclosed(r.value[k]) && CommasKept(r.value[k])
    ensures r.Some? && text != "" && IsTopLevelSplit(text, r.value) <==> text != "" && CutsClosed(text) && Closed(text)
    ensures CutsClosed(text) ==> (r.None? <==> !Closed(text))
  {
    var args := Pieces(text);
    ghost var goal := MergeAll(args);
    MergeBegins(text);
    var i := 0;
    while i < |args|
      invariant Between(text, goal, args, i)
      decreases |args| - i
    {
      var arg := args[i];
      ghost var before := |args|;
      RoundBegins(text, goal, args, i);
      while Unclosed(arg)
        invariant Within(text, goal, args, i, arg) && |args| <= before
        decreases |args|
      {
        if i + 1 >= |args| {
          RunsOff(text, goal, args, i, arg);
          return None;
        }
        RoundGoesOn(text, goal, args, i, arg);
        arg := arg + "," + args[i + 1];
        args := args[..i + 1] + args[i + 2..];
      }
      RoundEnds(text, goal, args, i, arg);
      args := args[i := arg];
      i := i + 1;
    }
    MergeEnds(text, goal, args);
    return Some(args);
  }

  lemma KeepComma(arg: string, piece: string)
    requires CommasKept(arg) && Unclosed(arg) && ',' !in piece
    ensures CommasKept(arg + "," + piece)
  {
    var s := arg + "," + piece;
    forall j | |arg| < j < |s| ensures s[j] != ',' {
      assert s[j] == piece[j - |arg| - 1];
    }
    forall j | 0 <= j < |s| && s[j] == ',' ensures Unclosed(s[..j]) {
      assert s[..j] == arg[..j];
      assert arg[..|arg|] == arg;
    }
  }

  lemma {:induction false} NetJoin(pre: seq<string>, o: char, c: char)
    requires forall k :: 0 <= k < |pre| ==> Net(pre[k], o, c) == 0
    requires o != ',' && c != ','
    ensures Net(Join(pre), o, c) == 0
  {
    if |pre| > 1 {
      NetJoin(pre[1..], o, c);
      NetConcat(pre[0], ",", o, c);
      NetConcat(pre[0] + ",", Join(pre[1..]), o, c);
    }
  }

  lemma {:induction false} JoinSnoc(pre: seq<string>, x: string)
    ensures Join(pre + [x]) == if pre == [] then x else Join(pre) + "," + x
  {
    if pre == [] {
      assert pre + [x] == [x];
    } else {
      JoinSnoc(pre[1..], x);
      assert (pre + [x])[1..] == pre[1..] + [x];
      if |pre| > 1 {
        assert pre[0] + "," + (Join(pre[1..]) + "," + x) == (pre[0] + "," + Join(pre[1..])) + "," + x;
      }
    }
  }

  lemma NetJoinSnoc(pre: seq<string>, x: string, o: char, c: char)
    requires forall k :: 0 <= k < |pre| ==> Net(pre[k], o, c) == 0
    requires o != ',' && c != ','
    ensures Net(Join(pre + [x]), o, c) == Net(x, o, c)
  {
    NetJoin(pre, o, c);
    JoinSnoc(pre, x);
    NetConcat(Join(pre), ",", o, c);
    NetConcat(Join(pre) + ",", x, o, c);
  }

  lemma {:induction false} JoinPrefix(args: seq<string>, k: nat)
    requires k <= |args|
    ensures Join(args[..k]) <= Join(args)
    ensures 0 < k < |args| ==> |Join(args[..k])| < |Join(args)| && Join(args)[|Join(args[..k])|] == ','
    decreases |args|
  {
    if k == |args| {
      assert args[..k] == args;
    } else {
      var front := args[..|args| - 1];
      JoinPrefix(front, k);
      assert front[..k] == args[..k] && front + [args[|args| - 1]] == args;
      JoinSnoc(front, args[|args| - 1]);
      if k == |front| {
        assert front[..k] == front;
      }
    }
  }

  /** If no cut is over-closed, pieces that are not left open are closed. */
  lemma {:induction false} PiecesAreClosedUpTo(args: seq<string>, text: string, n: nat)
    requires n <= |args| && CutsClosed(text) && Join(args) == text
    requires forall k :: 0 <= k < n ==> !Unclosed(args[k])
    ensures forall k :: 0 <= k < n ==> Closed(args[k])
    decreases n
  {
    if n > 0 {
      PiecesAreClosedUpTo(args, text, n - 1);
      var pre, x := args[..n - 1], args[n - 1];
      assert args[..n] == pre + [x];
      JoinPrefix(args, n);
      NetJoinSnoc(pre, x, '<', '>');
      NetJoinSnoc(pre, x, '(', ')');
      var j := |Join(pre + [x])|;
      assert text[..j] == Join(pre + [x]);
      if n == |args| {
        assert args[..n] == args;
      }
    }
  }

  lemma PiecesAreClosed(args: seq<string>, text: string)
    requires Join(args) == text && args != []
    requires forall k :: 0 <= k < |args| ==> !Unclosed(args[k]) && CommasKept(args[k])
    ensures IsTopLevelSplit(text, args) <==> CutsClosed(text) && Closed(text)
    ensures CutsClosed(text) ==> Closed(text)
  {
    if CutsClosed(text) {
      PiecesAreClosedUpTo(args, text, |args|);
      NetJoin(args, '<', '>');
      NetJoin(args, '(', ')');
    }
    if IsTopLevelSplit(text, args) {
      ClosedPiecesCut(args);
      NetJoin(args, '<', '>');
      NetJoin(args, '(', ')');
    }
  }

  lemma {:induction false} ClosedPiecesCut(args: seq<string>)
    requires args != [] && forall k :: 0 <= k < |args| ==> Closed(args[k]) && CommasKept(args[k])
    ensures CutsClosed(Join(args))
    decreases |args|
  {
    var text := Join(args);
    if |args| == 1 {
      assert text[..|text|] == args[0];
    } else {
      var a, rest := args[0], Join(args[1..]);
      ClosedPiecesCut(args[1..]);
      forall j | 0 <= j <= |text| && (j == |text| || text[j] == ',') && !Unclosed(text[..j])
        ensures Closed(text[..j])
      {
        if j <= |a| {
          assert text[..j] == a[..j];
          assert a[..|a|] == a;
        } else {
          var i := j - |a| - 1;
          assert text[..j] == a + "," + rest[..i];
          NetAround(a, rest[..i], '<', '>');
          NetAround(a, rest[..i], '(', ')');
        }
      }
    }
  }

  lemma NetAround(a: string, b: string, o: char, c: char)
    requires o != ',' && c != ','
    ensures Net(a + "," + b, o, c) == Net(a, o, c) + Net(b, o, c)
  {
    NetConcat(a, ",", o, c);
    NetConcat(a + ",", b, o, c);
  }

  lemma UnclosedEnd(pre: seq<string>, arg: string, text: string)
    requires CutsClosed(text) && Join(pre + [arg]) == text && Unclosed(arg)
    requires forall k :: 0 <= k < |pre| ==> !Unclosed(pre[k])
    ensures !Closed(text)
  {
    var args := pre + [arg];
    assert forall k :: 0 <= k < |pre| ==> args[k] == pre[k];
    PiecesAreClosedUpTo(args, text, |pre|);
    NetJoinSnoc(pre, arg, '<', '>');
    NetJoinSnoc(pre, arg, '(', ')');
  }

  /** Properly nested text is split, and split at its top-level commas, exactly when it ends closed. */
  lemma NestedCutsClosed(text: string)
    requires Nested(text)
    ensures CutsClosed(text)
  {
  }

  /** There is only one way to cut a text at its top-level commas. */
  lemma {:induction false} TopLevelSplitIsUnique(text: string, a: seq<string>, b: seq<string>)
    requires a != [] && b != [] && IsTopLevelSplit(text, a) && IsTopLevelSplit(text, b)
    ensures a == b
    decreases |a|
  {
    HeadFits(text, a, b);
    HeadFits(text, b, a);
    assert a[0] == text[..|a[0]|] && b[0] == text[..|b[0]|];
    assert a[0] == b[0];
    if |a| == 1 || |b| == 1 {
      assert a == [a[0]] && b == [b[0]];
    } else {
      var rest := text[|a[0]| + 1..];
      assert Join(a[1..]) == rest && Join(b[1..]) == rest;
      TopLevelSplitIsUnique(rest, a[1..], b[1..]);
      assert a == [a[0]] + a[1..] && b == [b[0]] + b[1..];
    }
  }

  lemma HeadFits(text: string, a: seq<string>, b: seq<string>)
    requires a != [] && b != [] && IsTopLevelSplit(text, a) && IsTopLevelSplit(text, b)
    ensures |b[0]| <= |a[0]| <= |text|
    ensures text[..|a[0]|] == a[0]
  {
    assert text[..|a[0]|] == a[0] && (|a[0]| < |text| ==> text[|a[0]|] == ',');
    assert text[..|b[0]|] == b[0];
    HeadIsNoLonger(text, a[0], b[0]);
  }

  lemma HeadIsNoLonger(text: string, x: string, y: string)
    requires |x| <= |text| && text[..|x|] == x && |y| <= |text| && text[..|y|] == y
    requires |x| < |text| ==> text[|x|] == ','
    requires Closed(x) && NoTopLevelComma(y)
    ensures |y| <= |x|
  {
    assert |x| <= |y| ==> y[..|x|] == x;
  }

  lemma NetSnoc(s: string, c: char)
    ensures Net(s + [c], '<', '>') == Net(s, '<', '>') + (if c == '<' then 1 else 0) - (if c == '>' then 1 else 0)
    ensures Net(s + [c], '(', ')') == Net(s, '(', ')') + (if c == '(' then 1 else 0) - (if c == ')' then 1 else 0)
  {
    assert (s + [c])[..|s|] == s;
  }

  lemma {:induction false} SplitPlain(s: string)
    requires ',' !in s
    ensures Split(s) == [s]
  {
    if s != "" {
      SplitPlain(s[1..]);
      assert [s[0]] + s[1..] == s;
    }
  }

  lemma {:induction false} SplitFirst(a: string, b: string)
    requires ',' !in a
    ensures Split(a + "," + b) == [a] + Split(b)
  {
    var s := a + "," + b;
    if a == "" {
      assert s[1..] == b;
    } else {
      SplitFirst(a[1..], b);
      assert s[1..] == a[1..] + "," + b && [a[0]] + a[1..] == a;
      assert ([a[1..]] + Split(b))[1..] == Split(b);
    }
  }

  lemma PairNets(x: char, y: char)
    requires x !in "<>()"
    ensures Net([x, y], '<', '>') == (if y == '<' then 1 else 0) - (if y == '>' then 1 else 0)
    ensures Net([x, y], '(', ')') == (if y == '(' then 1 else 0) - (if y == ')' then 1 else 0)
  {
    NetSnoc("", x);
    NetSnoc([x], y);
    assert "" + [x] == [x] && [x] + [y] == [x, y];
  }

  lemma OperatorNets()
    ensures !Unclosed("a>") && !Closed("a>") && Unclosed("b<") && Closed("a>" + "," + "b<")
  {
    PairNets('a', '>');
    PairNets('b', '<');
    NetAround("a>", "b<", '<', '>');
    NetAround("a>", "b<", '(', ')');
  }

  /** Text that uses `>` and `<` as operators around a comma ends closed, but the first piece is cut
      off over-closed and the second runs off the list. */
  lemma OperatorCutsElsewhere()
    ensures Closed("a>,b<") && !CutsClosed("a>,b<") && MergeAll(Pieces("a>,b<")) == None
  {
    var t, x, y := "a>,b<", "a>", "b<";
    OperatorNets();
    assert t == x + "," + y && t[..2] == x && t[2] == ',';
    SplitFirst(x, y);
    SplitPlain(y);
    RunsOffAfter(x, y);
  }

  lemma RunsOffAfter(x: string, y: string)
    requires !Unclosed(x) && Unclosed(y)
    ensures MergeAll([x] + [y]) == None
  {
    assert ([x] + [y])[1..] == [y] && [y][1..] == [];
    assert MergeAll([y]) == None;
  }

  /** Text without commas in which something stays open runs off the list. */
  lemma OpenEndRunsOff(t: string)
    requires ',' !in t && Unclosed(t)
    ensures CutsClosed(t) && !Closed(t) && MergeAll(Pieces(t)) == None
  {
    assert t[..|t|] == t;
    SplitPlain(t);
    assert [t][1..] == [];
  }

  /** An operator `<` that is never closed is such a text. */
  lemma OpenOperatorRunsOff()
    ensures CutsClosed("a<b") && !Closed("a<b") && MergeAll(Pieces("a<b")) == None
  {
    PairNets('a', '<');
    NetSnoc("a<", 'b');
    assert "a<" + ['b'] == "a<b";
    OpenEndRunsOff("a<b");
  }
}
