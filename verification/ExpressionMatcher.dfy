/** `CloseExpression` and `_GetTextInside` of cpplint.py.

    The scanners keep a stack that is polluted by tentative `<` (forward) or
    `>` (backward, module ReverseMatcher) entries. Erasing those entries gives the stack of the plain
    machine of module Brackets, so angle brackets never change the answer for
    a real bracket. */
module ExpressionMatcher {
  import opened Text
  import opened Brackets

  /** Result of scanning one line: (position, None), (-1, None) or (-1, stack). */
  datatype Scan = At(pos: nat) | Broken | Open(stack: string)

  // ----- text as lines -----

  function Flat(lines: seq<string>): string {
    if lines == [] then "" else Flat(lines[..|lines| - 1]) + lines[|lines| - 1]
  }

  /** Where a line begins in the text that joins all lines. */
  function Offset(lines: seq<string>, linenum: nat): nat
    requires linenum <= |lines|
  {
    if linenum == 0 then 0 else Offset(lines, linenum - 1) + |lines[linenum - 1]|
  }

  lemma {:induction false} FlatPrefix(lines: seq<string>, k: nat)
    requires k <= |lines|
    ensures Flat(lines[..k]) <= Flat(lines)
    decreases |lines|
  {
    if k == |lines| {
      assert lines[..k] == lines;
    } else {
      FlatPrefix(lines[..|lines| - 1], k);
      assert lines[..|lines| - 1][..k] == lines[..k];
    }
  }

  lemma {:induction false} OffsetIsLength(lines: seq<string>, l: nat)
    requires l <= |lines|
    ensures Offset(lines, l) == |Flat(lines[..l])|
  {
    if l > 0 {
      OffsetIsLength(lines, l - 1);
      assert lines[..l][..l - 1] == lines[..l - 1];
    }
  }

  lemma LineOffsets(lines: seq<string>, l: nat)
    requires l < |lines|
    ensures Offset(lines, l + 1) == Offset(lines, l) + |lines[l]| <= |Flat(lines)|
    ensures Flat(lines)[Offset(lines, l)..Offset(lines, l + 1)] == lines[l]
  {
    OffsetIsLength(lines, l);
    OffsetIsLength(lines, l + 1);
    assert lines[..l + 1][..l] == lines[..l];
    FlatPrefix(lines, l + 1);
  }

  lemma WholeOffset(lines: seq<string>)
    ensures Offset(lines, |lines|) == |Flat(lines)|
  {
    OffsetIsLength(lines, |lines|);
    assert lines[..|lines|] == lines;
  }

  lemma CharAt(lines: seq<string>, l: nat, p: nat)
    requires l < |lines| && p < |lines[l]|
    ensures Offset(lines, l) + p < |Flat(lines)| && Flat(lines)[Offset(lines, l) + p] == lines[l][p]
  {
    LineOffsets(lines, l);
    assert Flat(lines)[Offset(lines, l) + p] == Flat(lines)[Offset(lines, l)..Offset(lines, l + 1)][p];
  }

  lemma {:induction false} OffsetMonotone(lines: seq<string>, a: nat, b: nat)
    requires a <= b <= |lines|
    ensures Offset(lines, a) <= Offset(lines, b)
    decreases b - a
  {
    if a < b {
      OffsetMonotone(lines, a, b - 1);
    }
  }

  /** A position of the joined text is on one line only. */
  lemma PositionIsUnique(lines: seq<string>, a: nat, p: nat, b: nat, q: nat)
    requires a < |lines| && p < |lines[a]| && b < |lines| && q < |lines[b]|
    requires Offset(lines, a) + p == Offset(lines, b) + q
    ensures a == b && p == q
  {
    LineOffsets(lines, a);
    LineOffsets(lines, b);
    if a < b {
      OffsetMonotone(lines, a + 1, b);
    } else if b < a {
      OffsetMonotone(lines, b + 1, a);
    }
  }

  // ----- stacks with tentative entries -----

  function Erase(stack: string, noise: char): string {
    if stack == "" then ""
    else
      var below := Erase(stack[..|stack| - 1], noise);
      if stack[|stack| - 1] == noise then below else below + [stack[|stack| - 1]]
  }

  lemma ErasePush(stack: string, noise: char, c: char)
    ensures Erase(stack + [c], noise) == if c == noise then Erase(stack, noise) else Erase(stack, noise) + [c]
  {
    assert (stack + [c])[..|stack|] == stack;
  }

  /** The bottom entry is a real bracket. */
  predicate Grounded(stack: string, noise: char) {
    stack != "" && stack[0] != noise
  }

  lemma {:induction false} GroundedErase(stack: string, noise: char)
    ensures Grounded(stack, noise) ==> Erase(stack, noise) != "" && Erase(stack, noise)[0] == stack[0]
    decreases |stack|
  {
    if |stack| > 1 {
      GroundedErase(stack[..|stack| - 1], noise);
    }
  }

  /** The scan started at, or is already inside, a `(`, `[` or `{`. */
  predicate OnRealBracket(line: string, start: nat, stack: string, noise: char) {
    Grounded(stack, noise) || (stack == "" && start < |line| && IsOpen(line[start]))
  }

  /** The loop `while stack and stack[-1] == noise: stack.pop()`. */
  method PopTentative(stack: string, noise: char) returns (r: string)
    ensures Erase(r, noise) == Erase(stack, noise)
    ensures r == "" || r[|r| - 1] != noise
    ensures r <= stack
  {
    r := stack;
    while r != "" && r[|r| - 1] == noise
      invariant Erase(r, noise) == Erase(stack, noise)
      invariant r <= stack
      decreases |r|
    {
      r := r[..|r| - 1];
    }
  }

  // ----- forward -----

  /** One round of the forward loop, as the plain machine sees it. */
  ghost predicate Simulates(before: string, noise: char, c: char, found: nat, r: Scan) {
    match Step(Erase(before, noise), c)
    case None => r == Broken
    case Some(after) =>
      if after == "" then r == At(found)
      else r.Open? && Erase(r.stack, noise) == after && Grounded(r.stack, noise)
  }

  lemma PopReal(stack: string, noise: char)
    requires stack != "" && stack[|stack| - 1] != noise
    ensures Erase(stack, noise) == Erase(stack[..|stack| - 1], noise) + [stack[|stack| - 1]]
    ensures Grounded(stack, noise) && |stack| > 1 ==> Erase(stack[..|stack| - 1], noise) != ""
  {
    GroundedErase(stack[..|stack| - 1], noise);
  }

  lemma OpenerSimulates(before: string, c: char, found: nat)
    requires IsOpen(c) && (before == "" || Grounded(before, '<'))
    ensures Simulates(before, '<', c, found, Open(before + [c]))
  {
    ErasePush(before, '<', c);
  }

  lemma PlainSimulates(before: string, c: char, found: nat, after: string)
    requires Grounded(before, '<') && IsNoise(c) && Grounded(after, '<') && Erase(after, '<') == Erase(before, '<')
    ensures Simulates(before, '<', c, found, Open(after))
  {
    GroundedErase(before, '<');
  }

  /** The branch for `)`, `]` and `}`. */
  method ScanCloser(c: char, i: nat, initial: string) returns (r: Scan)
    requires IsClose(c)
    ensures r.At? ==> r.pos == i + 1
    ensures Grounded(initial, '<') ==> Simulates(initial, '<', c, i + 1, r)
  {
    GroundedErase(initial, '<');
    var stack := PopTentative(initial, '<');
    if stack == "" {
      return Broken;
    }
    PopReal(stack, '<');
    if Pair(stack[|stack| - 1], c) {
      stack := stack[..|stack| - 1];
      if stack == "" {
        return At(i + 1);
      }
    } else {
      return Broken;
    }
    r := Open(stack);
  }

  /** The branches for `<`, `>`, `;` and any other character. */
  method ScanOther(line: string, i: nat, initial: string) returns (r: Scan)
    requires i < |line| && IsNoise(line[i])
    ensures r.At? ==> r.pos == i + 1
    ensures Grounded(initial, '<') ==> Simulates(initial, '<', line[i], i + 1, r)
  {
    var stack, c := initial, line[i];
    GroundedErase(initial, '<');
    if c == '<' {
      if i > 0 && line[i - 1] == '<' {
        if stack != "" && stack[|stack| - 1] == '<' {
          stack := stack[..|stack| - 1];
          if stack == "" {
            return Broken;
          }
        }
      } else if !(i > 0 && EndsWithOperator(line[..i])) {
        ErasePush(stack, '<', '<');
        stack := stack + ['<'];
      }
    } else if c == '>' {
      if !(i > 0 && (line[i - 1] == '-' || EndsWithOperator(line[..i - 1]))) {
        if stack != "" && stack[|stack| - 1] == '<' {
          stack := stack[..|stack| - 1];
          if stack == "" {
            return At(i + 1);
          }
        }
      }
    } else if c == ';' {
      stack := PopTentative(stack, '<');
      if stack == "" {
        return Broken;
      }
    }
    if Grounded(initial, '<') {
      PlainSimulates(initial, c, i + 1, stack);
    }
    r := Open(stack);
  }

  /** The body of the loop at index `i`; `Open` means that the loop goes on. */
  method ScanForward(line: string, i: nat, initial: string) returns (r: Scan)
    requires i < |line|
    ensures r.At? ==> r.pos == i + 1
    ensures OnRealBracket(line, i, initial, '<') ==> Simulates(initial, '<', line[i], i + 1, r)
  {
    if IsOpen(line[i]) {
      if OnRealBracket(line, i, initial, '<') {
        OpenerSimulates(initial, line[i], i + 1);
      }
      r := Open(initial + [line[i]]);
    } else if IsClose(line[i]) {
      r := ScanCloser(line[i], i, initial);
    } else {
      r := ScanOther(line, i, initial);
    }
  }

  /** What the search in `text` finds, given the report on a line that stands at `here`. */
  function Pending(text: string, here: nat, length: nat, r: Scan): Option<int>
    requires here + length <= |text|
  {
    match r
    case At(e) => Some(here + e - 1)
    case Broken => None
    case Open(stack) => AsInt(FindMatch(text, here + length, Erase(stack, '<')))
  }

  function AsInt(k: Option<nat>): Option<int> {
    if k.Some? then Some(k.value) else None
  }

  /** `line` stands at `here` in `text`. */
  ghost predicate LineAt(text: string, here: nat, line: string) {
    here + |line| <= |text| && forall i :: 0 <= i < |line| ==> line[i] == text[here + i]
  }

  lemma LineChar(text: string, here: nat, line: string, i: nat)
    requires LineAt(text, here, line) && i < |line|
    ensures text[here + i] == line[i]
  {
  }

  /** One simulated step is one step of the search. */
  lemma ForwardStep(text: string, here: nat, length: nat, i: nat, stack: string, r: Scan)
    requires i < length && here + length <= |text| && Simulates(stack, '<', text[here + i], i + 1, r)
    ensures r.Open? ==>
              FindMatch(text, here + i, Erase(stack, '<')) == FindMatch(text, here + i + 1, Erase(r.stack, '<'))
    ensures r.Open? ==> Grounded(r.stack, '<')
    ensures !r.Open? ==> AsInt(FindMatch(text, here + i, Erase(stack, '<'))) == Pending(text, here, length, r)
  {
  }

  /** What the search from `startpos` finds is what it finds from index `i` on with this stack. */
  ghost predicate Tracked(text: string, here: nat, line: string, startpos: nat, initial: string, i: nat, stack: string)
    requires startpos <= i <= |line| && LineAt(text, here, line)
  {
    && FindMatch(text, here + startpos, Erase(initial, '<')) == FindMatch(text, here + i, Erase(stack, '<'))
    && (Grounded(stack, '<') || (i == startpos && stack == initial))
  }

  /** The report says what the search finds on this line, or goes on from. */
  ghost predicate Reported(text: string, here: nat, line: string, startpos: nat, initial: string, r: Scan)
    requires startpos <= |line| && LineAt(text, here, line)
  {
    && AsInt(FindMatch(text, here + startpos, Erase(initial, '<'))) == Pending(text, here, |line|, r)
    && (r.Open? ==> Grounded(r.stack, '<'))
  }

  lemma TrackedStep(text: string, here: nat, line: string, startpos: nat, initial: string, i: nat, stack: string,
                    r: Scan)
    requires startpos <= i < |line| && LineAt(text, here, line)
    requires Tracked(text, here, line, startpos, initial, i, stack) && Simulates(stack, '<', line[i], i + 1, r)
    ensures r.Open? ==> Tracked(text, here, line, startpos, initial, i + 1, r.stack)
    ensures !r.Open? ==> Reported(text, here, line, startpos, initial, r)
  {
    LineChar(text, here, line, i);
    ForwardStep(text, here, |line|, i, stack, r);
  }

  /** Scans one line. From or inside a real bracket, the report says what the search for the match
      in the whole text `text`, where the line stands at `here`, finds or goes on from. */
  method FindEndOfExpressionInLine(line: string, startpos: nat, initial: string, ghost text: string, ghost here: nat)
    returns (r: Scan)
    requires startpos <= |line| && LineAt(text, here, line)
    ensures r.At? ==> startpos < r.pos <= |line|
    ensures OnRealBracket(line, startpos, initial, '<') ==>
              Reported(text, here, line, startpos, initial, r)
  {
    var stack := initial;
    ghost var tracked := OnRealBracket(line, startpos, initial, '<');
    for i := startpos to |line|
      invariant tracked ==> Tracked(text, here, line, startpos, initial, i, stack)
    {
      r := ScanForward(line, i, stack);
      if tracked {
        TrackedStep(text, here, line, startpos, initial, i, stack, r);
      }
      if !r.Open? {
        return r;
      }
      stack := r.stack;
    }
    r := Open(stack);
  }

  // ----- forward, over the lines of a file -----

  /** Matches of `p`: the one at `at` if `found`, and no other. */
  ghost predicate OnlyMatch(text: string, p: int, found: bool, at: int) {
    forall q :: Matches(text, p, q) <==> found && q == at
  }

  lemma SearchEnds(text: string, p: nat, found: bool, at: int)
    requires p < |text| && IsOpen(text[p])
    requires AsInt(FindMatch(text, p, "")) == if found then Some(at) else None
    ensures OnlyMatch(text, p, found, at)
  {
    forall q ensures Matches(text, p, q) <==> found && q == at {
      FindMatchDecides(text, p, q);
    }
  }

  function FindFrom(lines: seq<string>, start: nat, pos: nat): Option<int>
    requires start < |lines| && pos < |lines[start]|
  {
    LineOffsets(lines, start);
    AsInt(FindMatch(Flat(lines), Offset(lines, start) + pos, ""))
  }

  lemma LineStands(lines: seq<string>, l: nat)
    requires l < |lines|
    ensures LineAt(Flat(lines), Offset(lines, l), lines[l])
    ensures l > 0 ==> Offset(lines, l) == Offset(lines, l - 1) + |lines[l - 1]|
  {
    LineOffsets(lines, l);
  }

  /** The report `scan` on line `l` agrees with the search for `goal`. */
  ghost predicate OnTrack(lines: seq<string>, l: nat, scan: Scan, goal: Option<int>)
    requires l < |lines| && LineAt(Flat(lines), Offset(lines, l), lines[l])
  {
    && goal == Pending(Flat(lines), Offset(lines, l), |lines[l]|, scan)
    && (scan.Open? ==> Grounded(scan.stack, '<'))
  }

  /** The loop over the lines after `start`, if the bracket is still open there. */
  method ScanForwardLines(lines: seq<string>, start: nat, first: Scan, ghost tracked: bool, ghost goal: Option<int>)
    returns (line: string, linenum: nat, scan: Scan)
    requires start < |lines| && LineAt(Flat(lines), Offset(lines, start), lines[start])
    requires first.At? ==> 0 < first.pos <= |lines[start]|
    requires tracked ==> OnTrack(lines, start, first, goal)
    ensures start <= linenum < |lines| && line == lines[linenum] && LineAt(Flat(lines), Offset(lines, linenum), line)
    ensures scan.At? ==> 0 < scan.pos <= |line|
    ensures tracked ==> OnTrack(lines, linenum, scan, goal) && (scan.Open? ==> linenum == |lines| - 1)
  {
    linenum, scan := start, first;
    line := lines[linenum];
    while scan.Open? && scan.stack != "" && linenum < |lines| - 1
      invariant start <= linenum < |lines| && line == lines[linenum]
      invariant LineAt(Flat(lines), Offset(lines, linenum), line)
      invariant scan.At? ==> 0 < scan.pos <= |line|
      invariant tracked ==> OnTrack(lines, linenum, scan, goal)
      decreases |lines| - linenum
    {
      linenum := linenum + 1;
      line := lines[linenum];
      LineStands(lines, linenum);
      scan := FindEndOfExpressionInLine(line, 0, scan.stack, Flat(lines), Offset(lines, linenum));
    }
  }

  lemma CloseEnds(lines: seq<string>, start: nat, pos: nat, l: nat, scan: Scan, found: bool, at: int)
    requires start <= l < |lines| && pos < |lines[start]| && IsOpen(lines[start][pos])
    requires LineAt(Flat(lines), Offset(lines, l), lines[l]) && found == scan.At?
    requires OnTrack(lines, l, scan, FindFrom(lines, start, pos))
    requires scan.Open? ==> l == |lines| - 1
    requires scan.At? ==> at == Offset(lines, l) + scan.pos - 1
    ensures OnlyMatch(Flat(lines), Offset(lines, start) + pos, found, at)
  {
    CharAt(lines, start, pos);
    WholeOffset(lines);
    SearchEnds(Flat(lines), Offset(lines, start) + pos, found, at);
  }

  /** From a real bracket the answer is the position after its match in the text that joins the
      lines; there is an answer exactly when there is a match. */
  method CloseExpression(lines: seq<string>, start: nat, pos: nat)
    returns (line: string, endLine: nat, endPos: int)
    requires start < |lines| && pos < |lines[start]|
    ensures if endPos < 0 then endPos == -1 && endLine == |lines|
            else endLine < |lines| && 0 < endPos <= |lines[endLine]| && line == lines[endLine]
    ensures lines[start][pos] !in "({[<" ==> endPos == -1
    ensures IsOpen(lines[start][pos]) ==>
              OnlyMatch(Flat(lines), Offset(lines, start) + pos, endPos != -1, Offset(lines, endLine) + endPos - 1)
  {
    var linenum := start;
    line := lines[linenum];
    if line[pos] !in "({[<" || StartsWith(line[pos..], "<<") || StartsWith(line[pos..], "<=") {
      return line, |lines|, -1;
    }
    ghost var tracked, goal := IsOpen(line[pos]), FindFrom(lines, start, pos);
    LineStands(lines, linenum);
    var scan := FindEndOfExpressionInLine(line, pos, "", Flat(lines), Offset(lines, start));
    line, linenum, scan := ScanForwardLines(lines, linenum, scan, tracked, goal);
    endLine, endPos := if scan.At? then linenum else |lines|, if scan.At? then scan.pos else -1;
    if tracked {
      CloseEnds(lines, start, pos, linenum, scan, endPos != -1, Offset(lines, endLine) + endPos - 1);
    }
  }

  // ----- _GetTextInside -----

  function CloserOf(c: char): char
    requires IsOpen(c)
  {
    Flip(c)
  }

  /** The stack after one character, or None on a closer that is not expected. */
  function Expect(closers: string, c: char): Option<string>
    requires closers != ""
  {
    if c == closers[|closers| - 1] then Some(closers[..|closers| - 1])
    else if IsClose(c) then None
    else if IsOpen(c) then Some(closers + [CloserOf(c)])
    else Some(closers)
  }

  predicate AllClosers(stack: string) {
    forall i :: 0 <= i < |stack| ==> IsClose(stack[i])
  }

  /** The stack of expected closers is the mirror image of the machine's stack. */
  lemma ExpectStep(closers: string, c: char)
    requires closers != "" && AllClosers(closers)
    ensures match Expect(closers, c)
            case None => Step(Flips(closers), c) == None
            case Some(next) => Step(Flips(closers), c) == Some(Flips(next)) && AllClosers(next)
  {
    var now := Flips(closers);
    assert Flips(closers[..|closers| - 1]) == now[..|now| - 1];
    if IsOpen(c) {
      assert Flips(closers + [CloserOf(c)]) == now + [c];
    }
  }

  /** The text between the bracket before `start` and its match, by a stack of expected
      closers. `start` is the end of the match of the start pattern. */
  method GetTextInside(text: string, start: Option<nat>) returns (r: Option<string>)
    requires start.Some? ==> 0 < start.value <= |text| && IsOpen(text[start.value - 1])
    ensures start.None? ==> r.None?
    ensures start.Some? ==>
              OnlyMatch(text, start.value - 1, r.Some?, if r.Some? then start.value + |r.value| else 0)
    ensures r.Some? ==> r.value <= text[start.value..]
  {
    if start.None? {
      return None;
    }
    var from := start.value;
    var stack := [CloserOf(text[from - 1])];
    var position := from;
    ghost var goal := FindMatch(text, from - 1, "");
    assert Flips(stack) == "" + [text[from - 1]];
    while stack != "" && position < |text|
      invariant from <= position <= |text| && AllClosers(stack)
      invariant if stack == "" then position > from && goal == Some(position - 1)
                else goal == FindMatch(text, position, Flips(stack))
    {
      ExpectStep(stack, text[position]);
      if text[position] == stack[|stack| - 1] {
        stack := stack[..|stack| - 1];
      } else if IsClose(text[position]) {
        SearchEnds(text, from - 1, false, 0);
        return None;
      } else if IsOpen(text[position]) {
        stack := stack + [CloserOf(text[position])];
      }
      position := position + 1;
    }
    if stack != "" {
      SearchEnds(text, from - 1, false, 0);
      return None;
    }
    SearchEnds(text, from - 1, true, position - 1);
    return Some(text[from..position - 1]);
  }

  lemma FlatSingle(line: string)
    ensures Flat([line]) == line && Offset([line], 0) == 0
  {
    assert [line][..0] == [] && "" + line == line;
  }

  /** On one line the stack of expected closers and the stack of openers with
      tentative `<` entries find the same end. */
  method TextInsideAgreesWithClose(line: string, p: nat) returns (inside: Option<string>, end: int)
    requires p < |line| && IsOpen(line[p])
    ensures OnlyMatch(line, p, end != -1, end - 1)
    ensures inside.Some? <==> end != -1
    ensures end != -1 ==> p < end - 1 < |line| && inside.value == line[p + 1..end - 1]
  {
    inside := GetTextInside(line, Some(p + 1));
    var text, l;
    text, l, end := CloseExpression([line], 0, p);
    FlatSingle(line);
    if inside.Some? {
      assert Matches(line, p, p + 1 + |inside.value|);
      assert inside.value == line[p + 1..][..|inside.value|];
    }
    if end != -1 {
      assert Matches(line, p, end - 1);
    }
  }
}
