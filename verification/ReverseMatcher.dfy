/** `FindStartOfExpressionInLine` and `ReverseCloseExpression` of cpplint.py, the backward bracket
    matcher, and that it is the inverse of the forward one. */
module ReverseMatcher {
  import opened Text
  import opened Brackets
  import opened ExpressionMatcher

  // ----- backward -----
  //
  // Reading a line from right to left is reading its mirror image from left to
  // right, so the backward scan is judged by the same predicates.

  predicate OnRealCloser(line: string, end: int, stack: string) {
    Grounded(stack, '>') || (stack == "" && 0 <= end < |line| && IsClose(line[end]))
  }

  /** One round of the backward loop at `c`, as the plain machine sees it. */
  ghost predicate SimulatesBack(before: string, c: char, found: nat, r: Scan) {
    match Step(Flips(Erase(before, '>')), Flip(c))
    case None => r == Broken
    case Some(after) =>
      if after == "" then r == At(found)
      else r.Open? && Flips(Erase(r.stack, '>')) == after && Grounded(r.stack, '>')
  }

  lemma FlipsPush(stack: string, c: char)
    requires IsClose(c)
    ensures Flips(Erase(stack + [c], '>')) == Flips(Erase(stack, '>')) + [Flip(c)]
  {
    ErasePush(stack, '>', c);
  }

  lemma FlipsPop(stack: string)
    requires stack != "" && stack[|stack| - 1] != '>'
    ensures var whole, below := Flips(Erase(stack, '>')), Flips(Erase(stack[..|stack| - 1], '>'));
            && whole != "" && whole[|whole| - 1] == Flip(stack[|stack| - 1]) && whole[..|whole| - 1] == below
            && (Grounded(stack, '>') && |stack| > 1 ==> below != "")
  {
    PopReal(stack, '>');
  }

  /** The branch for `(`, `[` and `{`. */
  method ScanOpener(c: char, i: nat, initial: string) returns (r: Scan)
    requires IsOpen(c)
    ensures r.At? ==> r.pos == i
    ensures Grounded(initial, '>') ==> SimulatesBack(initial, c, i, r)
  {
    GroundedErase(initial, '>');
    var stack := PopTentative(initial, '>');
    if stack == "" {
      return Broken;
    }
    FlipsPop(stack);
    if Pair(c, stack[|stack| - 1]) {
      stack := stack[..|stack| - 1];
      if stack == "" {
        return At(i);
      }
    } else {
      return Broken;
    }
    r := Open(stack);
  }

  lemma NoiseSimulates(before: string, c: char, i: nat, after: string)
    requires Grounded(before, '>') && IsNoise(c) && Grounded(after, '>') && Erase(after, '>') == Erase(before, '>')
    ensures SimulatesBack(before, c, i, Open(after))
  {
    GroundedErase(before, '>');
  }

  /** The branches for characters that are not brackets. */
  method ScanPlain(line: string, i: nat, initial: string) returns (r: Scan, next: int)
    requires i < |line| && IsNoise(line[i])
    ensures r.At? ==> r.pos == i
    ensures -1 <= next < i && (next != i - 1 ==> next == i - 2 && IsNoise(line[i - 1]))
    ensures Grounded(initial, '>') ==> SimulatesBack(initial, line[i], i, r)
  {
    var stack, c := initial, line[i];
    next := i - 1;
    GroundedErase(initial, '>');
    if c == '>' {
      if i > 0 && (line[i - 1] == '-'
                   || (IsSpace(line[i - 1]) && StartsWith(line[i..], ">=") && i + 2 < |line| && IsSpace(line[i + 2]))
                   || EndsWithOperator(line[..i])) {
        if EndsWithOperator(line[..i]) {
          OperatorEndsPlain(line[..i]);
        }
        next := i - 2;
      } else {
        ErasePush(stack, '>', '>');
        stack := stack + ['>'];
      }
    } else if c == '<' {
      if i > 0 && line[i - 1] == '<' {
        next := i - 2;
      } else if stack != "" && stack[|stack| - 1] == '>' {
        stack := stack[..|stack| - 1];
        if stack == "" {
          return At(i), next;
        }
      }
    } else if c == ';' {
      stack := PopTentative(stack, '>');
      if stack == "" {
        return Broken, next;
      }
    }
    if Grounded(initial, '>') {
      NoiseSimulates(initial, c, i, stack);
    }
    r := Open(stack);
  }

  lemma CloserSimulates(before: string, c: char, i: nat)
    requires IsClose(c) && (before == "" || Grounded(before, '>'))
    ensures SimulatesBack(before, c, i, Open(before + [c]))
  {
    FlipsPush(before, c);
  }

  /** The body of the loop at index `i`. When it goes on, `next` is the index it goes on from. */
  method ScanBackward(line: string, i: nat, initial: string) returns (r: Scan, next: int)
    requires i < |line|
    ensures r.At? ==> r.pos == i
    ensures -1 <= next < i && (next != i - 1 ==> next == i - 2 && IsNoise(line[i - 1]))
    ensures OnRealCloser(line, i, initial) ==> SimulatesBack(initial, line[i], i, r)
  {
    if IsClose(line[i]) {
      if OnRealCloser(line, i, initial) {
        CloserSimulates(initial, line[i], i);
      }
      r, next := Open(initial + [line[i]]), i - 1;
    } else if IsOpen(line[i]) {
      r := ScanOpener(line[i], i, initial);
      next := i - 1;
    } else {
      r, next := ScanPlain(line, i, initial);
    }
  }

  /** `Pending` for a line that is read backwards: the line's mirror image stands at `here` in `text`. */
  function PendingBack(text: string, here: nat, length: nat, r: Scan): Option<int>
    requires here + length <= |text|
  {
    match r
    case At(s) => Some(here + length - 1 - s)
    case Broken => None
    case Open(stack) => AsInt(FindMatch(text, here + length, Flips(Erase(stack, '>'))))
  }

  lemma MirrorChar(text: string, here: nat, line: string, i: nat)
    requires LineAt(text, here, Mirror(line)) && i < |line|
    ensures text[here + |line| - 1 - i] == Flip(line[i])
  {
    LineChar(text, here, Mirror(line), |line| - 1 - i);
  }

  /** One simulated step back is one step of the search in the mirror image. */
  lemma BackwardStep(text: string, here: nat, length: nat, i: nat, stack: string, c: char, r: Scan)
    requires i < length && here + length <= |text| && text[here + length - 1 - i] == Flip(c)
    requires SimulatesBack(stack, c, i, r)
    ensures r.Open? ==>
              FindMatch(text, here + length - 1 - i, Flips(Erase(stack, '>')))
              == FindMatch(text, here + length - i, Flips(Erase(r.stack, '>')))
    ensures r.Open? ==> Grounded(r.stack, '>')
    ensures !r.Open? ==>
              AsInt(FindMatch(text, here + length - 1 - i, Flips(Erase(stack, '>'))))
              == PendingBack(text, here, length, r)
  {
  }

  /** The skip of one more character, never a bracket, does not disturb the search. */
  lemma SkipGoesOn(text: string, here: nat, line: string, i: nat, next: int, stack: string)
    requires LineAt(text, here, Mirror(line)) && i < |line| && Grounded(stack, '>')
    requires -1 <= next < i && (next != i - 1 ==> next == i - 2 && IsNoise(line[i - 1]))
    ensures FindMatch(text, here + |line| - i, Flips(Erase(stack, '>')))
         == FindMatch(text, here + |line| - 1 - next, Flips(Erase(stack, '>')))
  {
    if next == i - 2 {
      MirrorChar(text, here, line, i - 1);
      GroundedErase(stack, '>');
    }
  }

  /** Scans one line from right to left. The search is stated in a text `text` in which the mirror
      image of the line stands at `here`; it starts at `from`. */
  method FindStartOfExpressionInLine(line: string, endpos: int, initial: string,
                                     ghost text: string, ghost here: nat, ghost from: nat)
    returns (r: Scan)
    requires -1 <= endpos < |line| && LineAt(text, here, Mirror(line)) && from == here + |line| - 1 - endpos
    ensures r.At? ==> r.pos <= endpos
    ensures OnRealCloser(line, endpos, initial) ==>
              && AsInt(FindMatch(text, from, Flips(Erase(initial, '>')))) == PendingBack(text, here, |line|, r)
              && (r.Open? ==> Grounded(r.stack, '>'))
  {
    var stack := initial;
    ghost var tracked := OnRealCloser(line, endpos, initial);
    ghost var goal := FindMatch(text, from, Flips(Erase(initial, '>')));
    var i := endpos;
    while i >= 0
      invariant -1 <= i <= endpos
      invariant tracked ==> goal == FindMatch(text, here + |line| - 1 - i, Flips(Erase(stack, '>')))
      invariant tracked ==> Grounded(stack, '>') || (i == endpos && stack == initial)
    {
      MirrorChar(text, here, line, i);
      var next;
      r, next := ScanBackward(line, i, stack);
      if tracked {
        BackwardStep(text, here, |line|, i, stack, line[i], r);
      }
      if !r.Open? {
        return r;
      }
      if tracked {
        SkipGoesOn(text, here, line, i, next, r.stack);
      }
      stack := r.stack;
      i := next;
    }
    r := Open(stack);
  }

  // ----- backward, over the lines of a file -----

  /** Matches of the closer at `q`: the one at `at` if `found`, and no other. */
  ghost predicate OnlyMatchBack(text: string, q: int, found: bool, at: int) {
    forall p :: Matches(text, p, q) <==> found && p == at
  }

  lemma SearchEndsBack(text: string, mirror: string, q: nat, q': nat, found: bool, at: int, at': int)
    requires q < |text| && IsClose(text[q]) && mirror == Mirror(text) && q' == |text| - 1 - q
    requires found ==> 0 <= at < |text| && at' == |text| - 1 - at
    requires AsInt(FindMatch(mirror, q', "")) == if found then Some(at') else None
    ensures OnlyMatchBack(text, q, found, at)
  {
    if found {
      FindMatchDecides(mirror, q', at');
    }
    forall p | 0 <= p < q ensures Matches(text, p, q) <==> found && p == at {
      BackMatch(text, mirror, p, q);
    }
  }

  lemma BackMatch(text: string, mirror: string, p: nat, q: nat)
    requires p < q < |text| && IsClose(text[q]) && mirror == Mirror(text)
    ensures Matches(text, p, q) <==> AsInt(FindMatch(mirror, |text| - 1 - q, "")) == Some(|text| - 1 - p)
  {
    MirrorMatches(text, p, q);
    FindMatchDecides(mirror, |text| - 1 - q, |text| - 1 - p);
  }

  /** Where line `l` stands in the mirror image of the text that joins the lines. */
  function MirrorOffset(lines: seq<string>, l: nat): nat
    requires l < |lines|
    decreases |lines| - l
  {
    if l == |lines| - 1 then 0 else MirrorOffset(lines, l + 1) + |lines[l + 1]|
  }

  lemma {:induction false} MirrorOffsetIs(lines: seq<string>, l: nat)
    requires l < |lines|
    ensures MirrorOffset(lines, l) + Offset(lines, l) + |lines[l]| == |Flat(lines)|
    decreases |lines| - l
  {
    if l == |lines| - 1 {
      WholeOffset(lines);
    } else {
      MirrorOffsetIs(lines, l + 1);
    }
  }

  lemma MirrorLineAt(lines: seq<string>, l: nat)
    requires l < |lines|
    ensures LineAt(Mirror(Flat(lines)), MirrorOffset(lines, l), Mirror(lines[l]))
  {
    MirrorOffsetIs(lines, l);
    LineOffsets(lines, l);
    MirrorSlice(Flat(lines), Offset(lines, l), lines[l]);
  }

  lemma MirrorSlice(text: string, here: nat, line: string)
    requires LineAt(text, here, line)
    ensures LineAt(Mirror(text), |text| - here - |line|, Mirror(line))
  {
    var m, there := Mirror(text), |text| - here - |line|;
    forall i | 0 <= i < |line| ensures m[there..there + |line|][i] == Mirror(line)[i] {
      LineChar(text, here, line, |line| - 1 - i);
    }
  }

  function FindBack(lines: seq<string>, start: nat, pos: nat): Option<int>
    requires start < |lines| && pos < |lines[start]|
  {
    MirrorOffsetIs(lines, start);
    AsInt(FindMatch(Mirror(Flat(lines)), MirrorOffset(lines, start) + |lines[start]| - 1 - pos, ""))
  }

  /** The report `scan` on line `l` agrees with the search for `goal` in the mirror image. */
  ghost predicate OnTrackBack(lines: seq<string>, l: nat, scan: Scan, goal: Option<int>)
    requires l < |lines| && LineAt(Mirror(Flat(lines)), MirrorOffset(lines, l), Mirror(lines[l]))
  {
    && goal == PendingBack(Mirror(Flat(lines)), MirrorOffset(lines, l), |lines[l]|, scan)
    && (scan.Open? ==> Grounded(scan.stack, '>'))
  }

  /** The loop over the lines before `start`, if the bracket is still open there. */
  method ScanBackwardLines(lines: seq<string>, start: nat, first: Scan, ghost tracked: bool, ghost goal: Option<int>)
    returns (line: string, linenum: nat, scan: Scan)
    requires start < |lines| && LineAt(Mirror(Flat(lines)), MirrorOffset(lines, start), Mirror(lines[start]))
    requires first.At? ==> first.pos < |lines[start]|
    requires tracked ==> OnTrackBack(lines, start, first, goal)
    ensures linenum <= start && line == lines[linenum]
    ensures LineAt(Mirror(Flat(lines)), MirrorOffset(lines, linenum), Mirror(line))
    ensures scan.At? ==> scan.pos < |line|
    ensures tracked ==> OnTrackBack(lines, linenum, scan, goal) && (scan.Open? ==> linenum == 0)
  {
    linenum, scan := start, first;
    line := lines[linenum];
    while scan.Open? && scan.stack != "" && linenum > 0
      invariant linenum <= start && line == lines[linenum]
      invariant LineAt(Mirror(Flat(lines)), MirrorOffset(lines, linenum), Mirror(line))
      invariant scan.At? ==> scan.pos < |line|
      invariant tracked ==> OnTrackBack(lines, linenum, scan, goal)
      decreases linenum
    {
      linenum := linenum - 1;
      line := lines[linenum];
      MirrorLineAt(lines, linenum);
      scan := FindStartOfExpressionInLine(line, |line| - 1, scan.stack,
                                          Mirror(Flat(lines)), MirrorOffset(lines, linenum),
                                          MirrorOffset(lines, linenum));
    }
  }

  /** The mirror image ends with the first line. */
  lemma MirrorEnds(lines: seq<string>)
    requires lines != []
    ensures MirrorOffset(lines, 0) + |lines[0]| == |Mirror(Flat(lines))|
  {
    MirrorOffsetIs(lines, 0);
  }

  /** When the loop stops, the search finds what the scan reports. */
  lemma PendingAtEnd(text: string, here: nat, length: nat, scan: Scan)
    requires here + length <= |text| && (scan.Open? ==> here + length == |text|)
    ensures PendingBack(text, here, length, scan) == if scan.At? then Some(here + length - 1 - scan.pos) else None
  {
  }

  lemma ReverseEnds(lines: seq<string>, start: nat, pos: nat, l: nat, scan: Scan, found: bool, at: int)
    requires l <= start < |lines| && pos < |lines[start]| && IsClose(lines[start][pos])
    requires LineAt(Mirror(Flat(lines)), MirrorOffset(lines, l), Mirror(lines[l]))
    requires OnTrackBack(lines, l, scan, FindBack(lines, start, pos))
    requires found == scan.At? && (scan.Open? ==> l == 0)
    requires scan.At? ==> scan.pos < |lines[l]| && at == Offset(lines, l) + scan.pos
    ensures OnlyMatchBack(Flat(lines), Offset(lines, start) + pos, found, at)
  {
    CharAt(lines, start, pos);
    MirrorOffsetIs(lines, start);
    MirrorOffsetIs(lines, l);
    MirrorEnds(lines);
    PendingAtEnd(Mirror(Flat(lines)), MirrorOffset(lines, l), |lines[l]|, scan);
    SearchEndsBack(Flat(lines), Mirror(Flat(lines)), Offset(lines, start) + pos,
                   MirrorOffset(lines, start) + |lines[start]| - 1 - pos, found, at,
                   if scan.At? then MirrorOffset(lines, l) + |lines[l]| - 1 - scan.pos else 0);
  }

  /** From a closing bracket the answer is its opening bracket in the text that
      joins the lines; there is an answer exactly when there is one. */
  method ReverseCloseExpression(lines: seq<string>, start: nat, pos: nat)
    returns (line: string, startLine: nat, startPos: int)
    requires start < |lines| && pos < |lines[start]|
    ensures if startPos < 0 then startPos == -1 && startLine == 0
            else startLine < |lines| && startPos < |lines[startLine]| && line == lines[startLine]
    ensures lines[start][pos] !in ")}]>" ==> startPos == -1
    ensures IsClose(lines[start][pos]) ==>
              OnlyMatchBack(Flat(lines), Offset(lines, start) + pos,
                            startPos != -1, Offset(lines, startLine) + startPos)
  {
    var linenum := start;
    line := lines[linenum];
    if line[pos] !in ")}]>" {
      return line, 0, -1;
    }
    ghost var tracked, goal := IsClose(line[pos]), FindBack(lines, start, pos);
    MirrorLineAt(lines, linenum);
    assert Flips(Erase("", '>')) == "";
    var scan := FindStartOfExpressionInLine(line, pos, "", Mirror(Flat(lines)), MirrorOffset(lines, start),
                                            MirrorOffset(lines, start) + |line| - 1 - pos);
    line, linenum, scan := ScanBackwardLines(lines, linenum, scan, tracked, goal);
    startLine, startPos := if scan.At? then linenum else 0, if scan.At? then scan.pos else -1;
    if tracked {
      ReverseEnds(lines, start, pos, linenum, scan, startPos != -1, Offset(lines, startLine) + startPos);
    }
  }

  // ----- the two directions undo each other -----

  /** If the forward scan from (a, p) answers (b, e), what the backward scan answers from just before
      there, (c, s), is (a, p). */
  lemma ReverseUndoesClose(lines: seq<string>, a: nat, p: nat, b: nat, e: nat, c: nat, s: int)
    requires a < |lines| && p < |lines[a]| && b < |lines| && 0 < e <= |lines[b]| && c < |lines| && s < |lines[c]|
    requires -1 <= s
    requires OnlyMatch(Flat(lines), Offset(lines, a) + p, true, Offset(lines, b) + e - 1)
    requires OnlyMatchBack(Flat(lines), Offset(lines, b) + e - 1, s != -1, Offset(lines, c) + s)
    ensures c == a && s == p
  {
    assert Matches(Flat(lines), Offset(lines, a) + p, Offset(lines, b) + e - 1);
    PositionIsUnique(lines, a, p, c, s);
  }

  /** If the backward scan from (a, p) answers (b, s), what the forward scan answers from there,
      (c, e), is just past (a, p). */
  lemma CloseUndoesReverse(lines: seq<string>, a: nat, p: nat, b: nat, s: nat, c: nat, e: int)
    requires a < |lines| && p < |lines[a]| && b < |lines| && s < |lines[b]|
    requires e == -1 || (c < |lines| && 0 < e <= |lines[c]|)
    requires OnlyMatchBack(Flat(lines), Offset(lines, a) + p, true, Offset(lines, b) + s)
    requires c <= |lines| && OnlyMatch(Flat(lines), Offset(lines, b) + s, e != -1, Offset(lines, c) + e - 1)
    ensures c == a && e == p + 1
  {
    assert Matches(Flat(lines), Offset(lines, b) + s, Offset(lines, a) + p);
    PositionIsUnique(lines, a, p, c, e - 1);
  }

  /** Closing an expression and coming back ends on the bracket it started from. */
  method CloseThenReverse(lines: seq<string>, start: nat, pos: nat)
    returns (endLine: nat, endPos: int, backLine: nat, backPos: int)
    requires start < |lines| && pos < |lines[start]| && IsOpen(lines[start][pos])
    ensures endLine <= |lines|
    ensures OnlyMatch(Flat(lines), Offset(lines, start) + pos, endPos != -1, Offset(lines, endLine) + endPos - 1)
    ensures endPos != -1 ==> backLine == start && backPos == pos
  {
    var line;
    line, endLine, endPos := CloseExpression(lines, start, pos);
    if endPos == -1 {
      return endLine, -1, 0, -1;
    }
    ghost var text, p, q := Flat(lines), Offset(lines, start) + pos, Offset(lines, endLine) + endPos - 1;
    assert Matches(text, p, q);
    CharAt(lines, start, pos);
    CharAt(lines, endLine, endPos - 1);
    line, backLine, backPos := ReverseCloseExpression(lines, endLine, endPos - 1);
    ReverseUndoesClose(lines, start, pos, endLine, endPos, backLine, backPos);
  }

  /** Opening an expression and coming back ends just past the bracket it started from. */
  method ReverseThenClose(lines: seq<string>, start: nat, pos: nat)
    returns (openLine: nat, openPos: int, backLine: nat, backPos: int)
    requires start < |lines| && pos < |lines[start]| && IsClose(lines[start][pos])
    ensures openLine < |lines|
    ensures OnlyMatchBack(Flat(lines), Offset(lines, start) + pos, openPos != -1, Offset(lines, openLine) + openPos)
    ensures openPos != -1 ==> backLine == start && backPos == pos + 1
  {
    var line;
    line, openLine, openPos := ReverseCloseExpression(lines, start, pos);
    if openPos == -1 {
      return openLine, -1, 0, -1;
    }
    ghost var text, p, q := Flat(lines), Offset(lines, openLine) + openPos, Offset(lines, start) + pos;
    assert Matches(text, p, q);
    CharAt(lines, start, pos);
    CharAt(lines, openLine, openPos);
    line, backLine, backPos := CloseExpression(lines, openLine, openPos);
    CloseUndoesReverse(lines, start, pos, openLine, openPos, backLine, backPos);
  }
}
