/** `NestingState` of cpplint.py: the stack of open blocks, its checkpoints across
    `#if`/`#else`/`#endif`, and the loop that consumes braces. */
module Nesting {
  import opened Text
  import opened LinePatterns

  datatype Kind = PlainBlock | ExternCBlock | ClassBlock | NamespaceBlock

  /** `inline_asm` of a block. */
  datatype Asm = NoAsm | InsideAsm | EndAsm | BlockAsm

  datatype Block = Block(kind: Kind, linenum: nat, seenOpenBrace: bool, openParentheses: int, inlineAsm: Asm)

  /** `_PreprocessorInfo`, for any kind of stack entry `B`. */
  datatype Checkpoint<B> = Checkpoint(stackBeforeIf: seq<B>, stackBeforeElse: seq<B>, seenElse: bool)

  /** A line as the checkpoints see it. */
  datatype Line = Line(num: nat, directive: Directive)

  /** A line as the brace loop sees it. */
  datatype SourceLine = SourceLine(num: nat, text: string)

  // ----- the machine, as a function of its state; it does not look inside the stack entries -----

  datatype State<B> = State(stack: seq<B>, pp: seq<Checkpoint<B>>)

  function Preprocess<B>(s: State<B>, d: Directive): State<B> {
    match d
    case If => State(s.stack, s.pp + [Checkpoint(s.stack, [], false)])
    case Else =>
      if |s.pp| == 0 then s
      else
        var top := s.pp[|s.pp| - 1];
        var marked := if top.seenElse then top else Checkpoint(top.stackBeforeIf, s.stack, true);
        State(top.stackBeforeIf, s.pp[|s.pp| - 1 := marked])
    case Endif =>
      if |s.pp| == 0 then s
      else
        var top := s.pp[|s.pp| - 1];
        State(if top.seenElse then top.stackBeforeElse else s.stack, s.pp[..|s.pp| - 1])
    case NoDirective => s
  }

  /** What the rest of `Update` does to the stack at one line. */
  type Effect<!B> = (Line, seq<B>) -> seq<B>

  function Step<B>(effect: Effect<B>, s: State<B>, line: Line): State<B> {
    var s' := Preprocess(s, line.directive);
    State(effect(line, s'.stack), s'.pp)
  }

  function Exec<B>(effect: Effect<B>, lines: seq<Line>, s: State<B>): State<B> {
    if lines == [] then s else Step(effect, Exec(effect, lines[..|lines| - 1], s), lines[|lines| - 1])
  }

  // ----- the reference: only lines in first branches count -----

  /** For every conditional opened in `lines` and still open, outermost first: are we still in its
      first branch? Directives that belong to no such conditional are passed over. */
  function Branches(lines: seq<Line>): seq<bool> {
    if lines == [] then [] else NextBranches(Branches(lines[..|lines| - 1]), lines[|lines| - 1].directive)
  }

  function NextBranches(open: seq<bool>, d: Directive): seq<bool> {
    match d
    case If => open + [true]
    case Else => if open == [] then open else open[|open| - 1 := false]
    case Endif => if open == [] then open else open[..|open| - 1]
    case NoDirective => open
  }

  /** Every `#else`, `#elif` and `#endif` belongs to an `#if` in `lines`. */
  predicate SelfContained(lines: seq<Line>) {
    lines == []
    || (var front, last := lines[..|lines| - 1], lines[|lines| - 1];
        SelfContained(front) && (last.directive == Else || last.directive == Endif ==> Branches(front) != []))
  }

  predicate AllFirst(open: seq<bool>) {
    forall i :: 0 <= i < |open| ==> open[i]
  }

  /** The lines outside conditionals, the lines of first branches, and the `#if` and `#endif`
      lines around those; `#else` branches are dropped with their `#else` line. */
  function FirstBranchLines(lines: seq<Line>): seq<Line> {
    if lines == [] then []
    else
      var kept := FirstBranchLines(lines[..|lines| - 1]);
      if AllFirst(Branches(lines)) then kept + [lines[|lines| - 1]] else kept
  }

  /** Runs only the effects, as if there were no preprocessor. */
  function EffectsFrom<B>(effect: Effect<B>, lines: seq<Line>, stack: seq<B>): seq<B> {
    if lines == [] then stack
    else effect(lines[|lines| - 1], EffectsFrom(effect, lines[..|lines| - 1], stack))
  }

  predicate IsFirstFalse(open: seq<bool>, k: nat) {
    k < |open| && !open[k] && forall i :: 0 <= i < k ==> open[i]
  }

  /** The outermost conditional that has left its first branch. */
  function FirstFalse(open: seq<bool>): (k: nat)
    requires !AllFirst(open)
    ensures IsFirstFalse(open, k)
    ensures forall j :: IsFirstFalse(open, j) ==> j == k
  {
    if !open[0] then 0
    else
      var k := FirstFalse(open[1..]);
      assert forall i :: 0 < i <= k + 1 ==> open[i] == open[1..][i - 1];
      k + 1
  }

  /** The checkpoints at entry are as they were, above them is one for each of the `open`
      conditionals, and the stack of the first branches is the current one or is kept there. */
  ghost predicate Agrees<B(!new)>(entry: seq<Checkpoint<B>>, s: State<B>, open: seq<bool>, reference: seq<B>) {
    && |s.pp| == |entry| + |open| && s.pp[..|entry|] == entry
    && (forall i :: 0 <= i < |open| ==> (s.pp[|entry| + i].seenElse <==> !open[i]))
    && if AllFirst(open) then s.stack == reference
       else s.pp[|entry| + FirstFalse(open)].stackBeforeElse == reference
  }

  lemma AgreesIf<B(!new)>(effect: Effect<B>, entry: seq<Checkpoint<B>>, s: State<B>, open: seq<bool>,
                          reference: seq<B>, line: Line)
    requires Agrees(entry, s, open, reference) && line.directive == If
    ensures Agrees(entry, Step(effect, s, line), open + [true],
                   if AllFirst(open) then effect(line, reference) else reference)
    ensures AllFirst(open) <==> AllFirst(open + [true])
  {
    var open' := open + [true];
    assert forall i :: 0 <= i < |open| ==> open'[i] == open[i];
    if AllFirst(open) {
      assert AllFirst(open');
    } else {
      var k := FirstFalse(open);
      assert IsFirstFalse(open', k);
    }
  }

  lemma AgreesElse<B(!new)>(effect: Effect<B>, entry: seq<Checkpoint<B>>, s: State<B>, open: seq<bool>,
                            reference: seq<B>, line: Line)
    requires Agrees(entry, s, open, reference) && line.directive == Else && open != []
    ensures Agrees(entry, Step(effect, s, line), open[|open| - 1 := false], reference)
    ensures !AllFirst(open[|open| - 1 := false])
  {
    var n := |open| - 1;
    var open', pp := open[n := false], Step(effect, s, line).pp;
    assert !open'[n];
    assert pp[..|entry|] == s.pp[..|entry|];
    if AllFirst(open) {
      assert IsFirstFalse(open', n);
      assert open[n] && !s.pp[|entry| + n].seenElse;
      assert pp[|entry| + n].stackBeforeElse == reference;
    } else {
      var k := FirstFalse(open);
      assert IsFirstFalse(open', k);
      assert FirstFalse(open') == k && s.pp[|entry| + k].seenElse;
    }
  }

  lemma AgreesEndif<B(!new)>(effect: Effect<B>, entry: seq<Checkpoint<B>>, s: State<B>, open: seq<bool>,
                             reference: seq<B>, line: Line)
    requires Agrees(entry, s, open, reference) && line.directive == Endif && open != []
    ensures Agrees(entry, Step(effect, s, line), open[..|open| - 1],
                   if AllFirst(open[..|open| - 1]) then effect(line, reference) else reference)
  {
    var n := |open| - 1;
    var open' := open[..n];
    if AllFirst(open') {
      if !open[n] {
        assert IsFirstFalse(open, n);
      }
    } else {
      var k := FirstFalse(open');
      assert IsFirstFalse(open, k);
    }
  }

  lemma AgreesStep<B(!new)>(effect: Effect<B>, entry: seq<Checkpoint<B>>, s: State<B>, open: seq<bool>,
                            reference: seq<B>, line: Line)
    requires Agrees(entry, s, open, reference)
    requires open != [] || entry == [] || line.directive == If || line.directive == NoDirective
    ensures var open' := NextBranches(open, line.directive);
            Agrees(entry, Step(effect, s, line), open', if AllFirst(open') then effect(line, reference) else reference)
  {
    match line.directive
    case If => AgreesIf(effect, entry, s, open, reference, line);
    case Else =>
      if open != [] {
        AgreesElse(effect, entry, s, open, reference, line);
      }
    case Endif =>
      if open != [] {
        AgreesEndif(effect, entry, s, open, reference, line);
      }
    case NoDirective =>
  }

  /** From every state, for every list of lines that closes only what it opens, and from a state
      without checkpoints for every list of lines, nested, stray or unfinished directives included:
      the checkpoints of the entry state stay, there is one more for each conditional that is open,
      and the stack that survives is that of running only the first-branch lines. */
  lemma {:induction false} FirstBranchesDecide<B(!new)>(effect: Effect<B>, lines: seq<Line>, s: State<B>)
    requires SelfContained(lines) || s.pp == []
    ensures Agrees(s.pp, Exec(effect, lines, s), Branches(lines),
                   EffectsFrom(effect, FirstBranchLines(lines), s.stack))
    decreases |lines|
  {
    if lines == [] {
      assert s.pp[..|s.pp|] == s.pp;
    } else {
      var front, last := lines[..|lines| - 1], lines[|lines| - 1];
      FirstBranchesDecide(effect, front, s);
      var kept := FirstBranchLines(front);
      EffectsSnoc(effect, kept, last, s.stack);
      AgreesStep(effect, s.pp, Exec(effect, front, s), Branches(front), EffectsFrom(effect, kept, s.stack), last);
    }
  }

  lemma EffectsSnoc<B>(effect: Effect<B>, lines: seq<Line>, line: Line, stack: seq<B>)
    ensures EffectsFrom(effect, lines + [line], stack) == effect(line, EffectsFrom(effect, lines, stack))
  {
    assert (lines + [line])[..|lines|] == lines;
  }

  /** When no conditional is left open, as after any well-nested list of lines, wherever it stands,
      the stack is exactly that of the first branches and the checkpoints are those at entry. */
  lemma ClosedConditionals<B(!new)>(effect: Effect<B>, lines: seq<Line>, s: State<B>)
    requires SelfContained(lines) || s.pp == []
    requires Branches(lines) == []
    ensures Exec(effect, lines, s) == State(EffectsFrom(effect, FirstBranchLines(lines), s.stack), s.pp)
  {
    FirstBranchesDecide(effect, lines, s);
    var pp := Exec(effect, lines, s).pp;
    assert pp == pp[..|s.pp|];
  }

  // ----- later branches start from the stack saved at #if -----

  /** The conditionals opened in `lines` and still open, if none is closed that was not opened there. */
  function OpenedHere(lines: seq<Line>): Option<nat> {
    if lines == [] then Some(0)
    else
      match OpenedHere(lines[..|lines| - 1])
      case None => None
      case Some(d) =>
        match lines[|lines| - 1].directive
        case If => Some(d + 1)
        case Else => Some(d)
        case Endif => if d == 0 then None else Some(d - 1)
        case NoDirective => Some(d)
  }

  lemma {:induction false} SavedStacksStay<B>(effect: Effect<B>, lines: seq<Line>, s: State<B>)
    requires OpenedHere(lines).Some? && s.pp != []
    ensures var pp := Exec(effect, lines, s).pp;
            && |pp| == |s.pp| + OpenedHere(lines).value
            && forall i :: 0 <= i < |s.pp| ==> pp[i].stackBeforeIf == s.pp[i].stackBeforeIf
    decreases |lines|
  {
    if lines != [] {
      SavedStacksStay(effect, lines[..|lines| - 1], s);
    }
  }

  lemma {:induction false} ExecConcat<B>(effect: Effect<B>, a: seq<Line>, b: seq<Line>, s: State<B>)
    ensures Exec(effect, a + b, s) == Exec(effect, b, Exec(effect, a, s))
    decreases |b|
  {
    if b == [] {
      assert a + b == a;
    } else {
      ExecConcat(effect, a, b[..|b| - 1], s);
      assert (a + b)[..|a + b| - 1] == a + b[..|b| - 1];
    }
  }

  /** Whatever the branches before it did, an `#else` or `#elif` line starts from the stack
      that was there before its `#if`. */
  lemma LaterBranchRestarts<B>(effect: Effect<B>, s: State<B>, ifLine: Line, between: seq<Line>, elseLine: Line)
    requires ifLine.directive == If && elseLine.directive == Else
    requires OpenedHere(between) == Some(0)
    ensures Exec(effect, [ifLine] + between + [elseLine], s).stack == effect(elseLine, s.stack)
  {
    var s1 := Step(effect, s, ifLine);
    assert [ifLine][..0] == [] && Exec(effect, [ifLine], s) == s1;
    ExecConcat(effect, [ifLine], between, s);
    SavedStacksStay(effect, between, s1);
    var s2 := Exec(effect, between, s1);
    assert s1.pp[|s.pp|].stackBeforeIf == s.stack;
    assert ([ifLine] + between + [elseLine])[..|between| + 1] == [ifLine] + between;
  }

  /** Inside such a branch, after any well-nested lines, the stack is that of running their first
      branches from there. */
  lemma LaterBranchRuns<B(!new)>(effect: Effect<B>, s: State<B>, ifLine: Line, between: seq<Line>, elseLine: Line,
                                 lines: seq<Line>)
    requires ifLine.directive == If && elseLine.directive == Else && OpenedHere(between) == Some(0)
    requires SelfContained(lines) && Branches(lines) == []
    ensures Exec(effect, [ifLine] + between + [elseLine] + lines, s).stack
         == EffectsFrom(effect, FirstBranchLines(lines), effect(elseLine, s.stack))
  {
    var head := [ifLine] + between + [elseLine];
    LaterBranchRestarts(effect, s, ifLine, between, elseLine);
    ExecConcat(effect, head, lines, s);
    ClosedConditionals(effect, lines, Exec(effect, head, s));
  }

  // ----- the brace loop -----

  predicate SeenOpenBrace(stack: seq<Block>) {
    stack == [] || stack[|stack| - 1].seenOpenBrace
  }

  predicate IsToken(c: char) { c == '{' || c == ';' || c == ')' || c == '}' }

  /** What a `{` opens unless it completes a head. */
  datatype Opening = Opening(kind: Kind, inlineAsm: Asm)

  function OpeningOf(rest: string): Opening {
    if MatchesExtern(rest) then Opening(ExternCBlock, NoAsm)
    else Opening(PlainBlock, if MatchesAsm(rest) then BlockAsm else NoAsm)
  }

  /** The effect of one token; `opening` is what a block opened here is. */
  function Token(stack: seq<Block>, token: char, opening: Opening, linenum: nat): seq<Block> {
    if token == '{' then
      if !SeenOpenBrace(stack) then stack[|stack| - 1 := stack[|stack| - 1].(seenOpenBrace := true)]
      else stack + [Block(opening.kind, linenum, true, 0, opening.inlineAsm)]
    else if token == ';' || token == ')' then
      if !SeenOpenBrace(stack) then stack[..|stack| - 1] else stack
    else
      if stack != [] then stack[..|stack| - 1] else stack
  }

  /** The loop from index `i`, when the text since the last token began at `start`;
      `opens` tells what a block is by the text since the last token. */
  function Consume(opens: string -> Opening, line: string, linenum: nat, start: nat, i: nat, stack: seq<Block>)
    : seq<Block>
    requires start <= i <= |line|
    decreases |line| - i
  {
    if i == |line| then stack
    else if IsToken(line[i]) then
      Consume(opens, line, linenum, i + 1, i + 1, Token(stack, line[i], opens(line[start..]), linenum))
    else Consume(opens, line, linenum, start, i + 1, stack)
  }

  /** Open braces after `s`, from `depth` open ones; None if one is closed that is not among those. */
  function Depth(s: string, depth: nat): Option<nat> {
    if s == "" then Some(depth)
    else if s[0] == '{' then Depth(s[1..], depth + 1)
    else if s[0] == '}' then if depth == 0 then None else Depth(s[1..], depth - 1)
    else Depth(s[1..], depth)
  }

  predicate AllSeen(blocks: seq<Block>) {
    forall i :: 0 <= i < |blocks| ==> blocks[i].seenOpenBrace
  }

  /** Reading `line[i..j]` above a stack whose top is complete pushes and pops only its own
      blocks, whatever `;` and `)` it holds. */
  lemma {:induction false} BodyKeepsBelow(opens: string -> Opening, line: string, linenum: nat, start: nat,
                                          i: nat, j: nat, below: seq<Block>, own: seq<Block>)
    returns (start': nat, own': seq<Block>)
    requires start <= i <= j <= |line| && SeenOpenBrace(below) && AllSeen(own)
    requires Depth(line[i..j], |own|).Some?
    ensures start' <= j && AllSeen(own') && |own'| == Depth(line[i..j], |own|).value
    ensures Consume(opens, line, linenum, start, i, below + own)
         == Consume(opens, line, linenum, start', j, below + own')
    decreases j - i
  {
    start', own' := start, own;
    if i < j {
      assert line[i..j][1..] == line[i + 1..j];
      var stack := below + own;
      assert SeenOpenBrace(stack);
      if line[i] == '{' {
        var top := Token(stack, '{', opens(line[start..]), linenum)[|stack|];
        assert Token(stack, '{', opens(line[start..]), linenum) == below + (own + [top]);
        start', own' := BodyKeepsBelow(opens, line, linenum, i + 1, i + 1, j, below, own + [top]);
      } else if line[i] == '}' {
        assert stack[..|stack| - 1] == below + own[..|own| - 1];
        start', own' := BodyKeepsBelow(opens, line, linenum, i + 1, i + 1, j, below, own[..|own| - 1]);
      } else if IsToken(line[i]) {
        start', own' := BodyKeepsBelow(opens, line, linenum, i + 1, i + 1, j, below, own);
      } else {
        start', own' := BodyKeepsBelow(opens, line, linenum, start, i + 1, j, below, own);
      }
    }
  }

  lemma {:induction false} SkipPlainText(opens: string -> Opening, line: string, linenum: nat, start: nat,
                                         i: nat, j: nat, stack: seq<Block>)
    requires start <= i <= j <= |line| && forall k :: i <= k < j ==> !IsToken(line[k])
    ensures Consume(opens, line, linenum, start, i, stack) == Consume(opens, line, linenum, start, j, stack)
    decreases j - i
  {
    if i < j {
      SkipPlainText(opens, line, linenum, start, i + 1, j, stack);
    }
  }

  // ----- over several lines -----

  function ConsumeLines(opens: string -> Opening, lines: seq<SourceLine>, stack: seq<Block>): seq<Block> {
    if lines == [] then stack
    else
      var last := lines[|lines| - 1];
      Consume(opens, last.text, last.num, 0, 0, ConsumeLines(opens, lines[..|lines| - 1], stack))
  }

  function LinesDepth(lines: seq<SourceLine>, depth: nat): Option<nat> {
    if lines == [] then Some(depth)
    else match LinesDepth(lines[..|lines| - 1], depth)
      case None => None
      case Some(d) => Depth(lines[|lines| - 1].text, d)
  }

  lemma {:induction false} BodyLinesKeepBelow(opens: string -> Opening, lines: seq<SourceLine>,
                                              below: seq<Block>, own: seq<Block>)
    returns (own': seq<Block>)
    requires SeenOpenBrace(below) && AllSeen(own) && LinesDepth(lines, |own|).Some?
    ensures AllSeen(own') && |own'| == LinesDepth(lines, |own|).value
    ensures ConsumeLines(opens, lines, below + own) == below + own'
    decreases |lines|
  {
    own' := own;
    if lines != [] {
      var last := lines[|lines| - 1];
      own' := BodyLinesKeepBelow(opens, lines[..|lines| - 1], below, own);
      var start';
      assert last.text[0..|last.text|] == last.text;
      start', own' := BodyKeepsBelow(opens, last.text, last.num, 0, 0, |last.text|, below, own');
    }
  }

  /** Open braces from just after index `k` of the first line up to index `j` of the last, which may
      be the same line; None if more are closed than were opened. */
  function BodyDepth(lines: seq<SourceLine>, k: nat, j: nat): Option<nat>
    requires |lines| > 0 && k < |lines[0].text| && j < |lines[|lines| - 1].text|
  {
    var n := |lines| - 1;
    if n == 0 then if k < j then Depth(lines[0].text[k + 1..j], 0) else None
    else
      match Depth(lines[0].text[k + 1..], 0)
      case None => None
      case Some(d) =>
        match LinesDepth(lines[1..n], d)
        case None => None
        case Some(d') => Depth(lines[n].text[..j], d')
  }

  /** The stack before the last line is read, if the first is read above `stack`. */
  function BeforeLast(opens: string -> Opening, lines: seq<SourceLine>, stack: seq<Block>): seq<Block>
    requires |lines| > 0
  {
    ConsumeLines(opens, lines[..|lines| - 1], stack)
  }

  /** A pending namespace or class head, its `{`, any brace-balanced body with any `;` and `)`,
      and the closing `}` remove exactly the head, on one line or on any number of lines. */
  lemma HeadIsPopped(opens: string -> Opening, lines: seq<SourceLine>, k: nat, j: nat, below: seq<Block>, head: Block)
    requires !head.seenOpenBrace && |lines| > 0
    requires k < |lines[0].text| && lines[0].text[k] == '{' && forall i :: 0 <= i < k ==> !IsToken(lines[0].text[i])
    requires j < |lines[|lines| - 1].text| && lines[|lines| - 1].text[j] == '}'
    requires BodyDepth(lines, k, j) == Some(0)
    ensures var last := lines[|lines| - 1];
            Consume(opens, last.text, last.num, 0, 0, BeforeLast(opens, lines, below + [head]))
            == Consume(opens, last.text, last.num, j + 1, j + 1, below)
  {
    var first, last, n := lines[0], lines[|lines| - 1], |lines| - 1;
    var full := below + [head.(seenOpenBrace := true)];
    HeadIsOpened(opens, first, k, below, head);
    if n == 0 {
      var start, own := BodyKeepsBelow(opens, first.text, first.num, k + 1, k + 1, j, full, []);
      assert full + [] == full == full + own;
      HeadIsClosed(opens, first, start, j, below, full);
    } else {
      assert first.text[k + 1..|first.text|] == first.text[k + 1..];
      var start, own := BodyKeepsBelow(opens, first.text, first.num, k + 1, k + 1, |first.text|, full, []);
      assert full + [] == full;
      ConsumeHead(opens, lines[..n], below + [head]);
      assert lines[..n][1..] == lines[1..n];
      own := BodyLinesKeepBelow(opens, lines[1..n], full, own);
      assert last.text[0..j] == last.text[..j];
      start, own := BodyKeepsBelow(opens, last.text, last.num, 0, 0, j, full, own);
      assert full + own == full;
      HeadIsClosed(opens, last, start, j, below, full);
    }
  }

  lemma HeadIsOpened(opens: string -> Opening, line: SourceLine, k: nat, below: seq<Block>, head: Block)
    requires !head.seenOpenBrace && k < |line.text| && line.text[k] == '{'
    requires forall i :: 0 <= i < k ==> !IsToken(line.text[i])
    ensures Consume(opens, line.text, line.num, 0, 0, below + [head])
         == Consume(opens, line.text, line.num, k + 1, k + 1, below + [head.(seenOpenBrace := true)])
  {
    SkipPlainText(opens, line.text, line.num, 0, 0, k, below + [head]);
    assert Token(below + [head], '{', opens(line.text[0..]), line.num) == below + [head.(seenOpenBrace := true)];
  }

  lemma HeadIsClosed(opens: string -> Opening, line: SourceLine, start: nat, j: nat,
                     below: seq<Block>, full: seq<Block>)
    requires start <= j < |line.text| && line.text[j] == '}' && |full| > 0 && full[..|full| - 1] == below
    ensures Consume(opens, line.text, line.num, start, j, full)
         == Consume(opens, line.text, line.num, j + 1, j + 1, below)
  {
  }

  lemma {:induction false} ConsumeHead(opens: string -> Opening, lines: seq<SourceLine>, stack: seq<Block>)
    requires |lines| > 0
    ensures ConsumeLines(opens, lines, stack)
         == ConsumeLines(opens, lines[1..], Consume(opens, lines[0].text, lines[0].num, 0, 0, stack))
    decreases |lines|
  {
    if |lines| > 1 {
      var front := lines[..|lines| - 1];
      ConsumeHead(opens, front, stack);
      assert lines[1..][..|lines| - 2] == front[1..];
    } else {
      assert lines[..0] == [] && lines[1..] == [];
    }
  }

  /** With no head pending, the first `{` pushes a complete block of this line, without open
      parentheses: an `extern "C"` block, an assembly block or a plain one by the text it ends. */
  lemma BraceOpensBlock(line: string, linenum: nat, start: nat, k: nat, stack: seq<Block>)
    requires start <= k < |line| && line[k] == '{' && forall i :: start <= i < k ==> !IsToken(line[i])
    requires SeenOpenBrace(stack)
    ensures var rest := line[start..];
            Consume(OpeningOf, line, linenum, start, start, stack)
            == Consume(OpeningOf, line, linenum, k + 1, k + 1,
                       stack + [Block(if HasExternParts(rest) then ExternCBlock else PlainBlock, linenum, true, 0,
                                      if HasAsmParts(rest) && !HasExternParts(rest) then BlockAsm else NoAsm)])
  {
    SkipPlainText(OpeningOf, line, linenum, start, start, k, stack);
    ExternMeaning(line[start..]);
    AsmMeaning(line[start..]);
  }

  /** A `;` or `)` before any `{` removes exactly the pending head. */
  lemma ForwardDeclarationIsPopped(opens: string -> Opening, line: SourceLine, k: nat, below: seq<Block>, head: Block)
    requires !head.seenOpenBrace
    requires k < |line.text| && (line.text[k] == ';' || line.text[k] == ')')
    requires forall i :: 0 <= i < k ==> !IsToken(line.text[i])
    ensures Consume(opens, line.text, line.num, 0, 0, below + [head])
         == Consume(opens, line.text, line.num, k + 1, k + 1, below)
  {
    SkipPlainText(opens, line.text, line.num, 0, 0, k, below + [head]);
    assert (below + [head])[..|below|] == below;
  }

  // ----- the class -----

  class NestingState {
    var stack: seq<Block>
    var ppStack: seq<Checkpoint<Block>>

    constructor ()
      ensures Value() == State([], [])
    {
      stack, ppStack := [], [];
    }

    function Value(): State<Block>
      reads this
    {
      State(stack, ppStack)
    }

    method UpdatePreprocessor(line: string)
      modifies this
      ensures Value() == Preprocess(old(Value()), DirectiveOf(line))
    {
      var directive := DirectiveOf(line);
      ApplyDirective(directive);
    }

    method ApplyDirective(directive: Directive)
      modifies this
      ensures Value() == Preprocess(old(Value()), directive)
    {
      if directive == If {
        ppStack := ppStack + [Checkpoint(stack, [], false)];
      } else if directive == Else {
        if ppStack != [] {
          var n := |ppStack| - 1;
          if !ppStack[n].seenElse {
            ppStack := ppStack[n := ppStack[n].(seenElse := true, stackBeforeElse := stack)];
          }
          stack := ppStack[n].stackBeforeIf;
        }
      } else if directive == Endif {
        if ppStack != [] {
          var n := |ppStack| - 1;
          if ppStack[n].seenElse {
            stack := ppStack[n].stackBeforeElse;
          }
          ppStack := ppStack[..n];
        }
      }
    }

    /** The loop at the end of `Update`. */
    method ConsumeBraces(line: string, linenum: nat)
      modifies this`stack
      ensures stack == Consume(OpeningOf, line, linenum, 0, 0, old(stack))
    {
      ConsumeBracesBy(OpeningOf, line, linenum);
    }

    method ConsumeBracesBy(opens: string -> Opening, line: string, linenum: nat)
      modifies this`stack
      ensures stack == Consume(opens, line, linenum, 0, 0, old(stack))
    {
      var rest := 0;
      var i := 0;
      while i < |line|
        invariant rest <= i <= |line|
        invariant Consume(opens, line, linenum, rest, i, stack) == Consume(opens, line, linenum, 0, 0, old(stack))
        decreases |line| - i
      {
        if IsToken(line[i]) {
          stack := Token(stack, line[i], opens(line[rest..]), linenum);
          rest := i + 1;
        }
        i := i + 1;
      }
    }

    /** Processes consecutive lines, numbered from `first` on; `effect` is what the rest of `Update`
        does at a line. */
    method UpdateAll(effect: Effect<Block>, first: nat, texts: seq<string>)
      modifies this
      ensures Value() == Exec(effect, Classified(first, texts), old(Value()))
      ensures var lines := Classified(first, texts);
              Branches(lines) == [] && (SelfContained(lines) || old(ppStack) == []) ==>
                ppStack == old(ppStack) && stack == EffectsFrom(effect, FirstBranchLines(lines), old(stack))
    {
      ghost var lines := Classified(first, texts);
      for n := 0 to |texts|
        invariant Value() == Exec(effect, lines[..n], old(Value()))
      {
        assert lines[..n + 1][..n] == lines[..n];
        UpdatePreprocessor(texts[n]);
        stack := effect(Line(first + n, DirectiveOf(texts[n])), stack);
      }
      assert lines[..|lines|] == lines;
      if Branches(lines) == [] && (SelfContained(lines) || old(ppStack) == []) {
        ClosedConditionals(effect, lines, old(Value()));
      }
    }
  }

  function Classified(first: nat, texts: seq<string>): (lines: seq<Line>)
    ensures |lines| == |texts|
    ensures forall i :: 0 <= i < |texts| ==> lines[i] == Line(first + i, DirectiveOf(texts[i]))
  {
    seq(|texts|, i requires 0 <= i < |texts| => Line(first + i, DirectiveOf(texts[i])))
  }
}
