/** `_IncludeState` of cpplint.py: the automaton that checks the order of includes. */
module IncludeOrder {

  datatype HeaderType = CSystem | CppSystem | LikelyMine | PossiblyMine | OtherHeader

  predicate IsMine(h: HeaderType) { h.LikelyMine? || h.PossiblyMine? }

  const INITIAL_SECTION := 0
  const MY_H_SECTION := 1
  const C_SECTION := 2
  const CPP_SECTION := 3
  const OTHER_H_SECTION := 4

  function TypeName(h: HeaderType): string {
    match h
    case CSystem => "C system header"
    case CppSystem => "C++ system header"
    case LikelyMine => "header this file implements"
    case PossiblyMine => "header this file may implement"
    case OtherHeader => "other header"
  }

  function SectionName(section: int): string {
    if section == INITIAL_SECTION then "... nothing. (This can't be an error.)"
    else if section == MY_H_SECTION then "a header this file implements"
    else if section == C_SECTION then "C system header"
    else if section == CPP_SECTION then "C++ system header"
    else "other header"
  }

  function NextSection(section: int, h: HeaderType): int {
    match h
    case CSystem => if section <= C_SECTION then C_SECTION else section
    case CppSystem => if section <= CPP_SECTION then CPP_SECTION else section
    case LikelyMine => if section <= MY_H_SECTION then MY_H_SECTION else OTHER_H_SECTION
    case PossiblyMine => if section <= MY_H_SECTION then MY_H_SECTION else OTHER_H_SECTION
    case OtherHeader => OTHER_H_SECTION
  }

  predicate Flagged(section: int, h: HeaderType) {
    (h.CSystem? && section > C_SECTION) || (h.CppSystem? && section > CPP_SECTION)
  }

  /** The section after the includes since the last reset. */
  function SectionAfter(history: seq<HeaderType>): int {
    if history == [] then INITIAL_SECTION
    else NextSection(SectionAfter(history[..|history| - 1]), history[|history| - 1])
  }

  ghost predicate AnyFlagged(history: seq<HeaderType>) {
    exists i :: 0 <= i < |history| && Flagged(SectionAfter(history[..i]), history[i])
  }

  // ----- what the section says about the history -----

  /** Some header can only stand last: another header, or an own header after a foreign one. */
  ghost predicate HasTrailing(history: seq<HeaderType>) {
    exists j :: 0 <= j < |history| &&
      (history[j].OtherHeader? || (IsMine(history[j]) && exists k :: 0 <= k < j && !IsMine(history[k])))
  }

  lemma {:induction false} SectionMeaning(history: seq<HeaderType>)
    ensures 0 <= SectionAfter(history) <= OTHER_H_SECTION
    ensures SectionAfter(history) == INITIAL_SECTION <==> history == []
    ensures SectionAfter(history) <= MY_H_SECTION <==> forall i :: 0 <= i < |history| ==> IsMine(history[i])
    ensures SectionAfter(history) == OTHER_H_SECTION <==> HasTrailing(history)
    ensures SectionAfter(history) == CPP_SECTION <==> !HasTrailing(history) && CppSystem in history
    ensures SectionAfter(history) == C_SECTION <==> !HasTrailing(history) && CppSystem !in history && CSystem in history
    decreases |history|
  {
    if history != [] {
      var front, last := history[..|history| - 1], history[|history| - 1];
      SectionMeaning(front);
      assert history == front + [last];
      assert forall i :: 0 <= i < |front| ==> history[i] == front[i];
      TrailingStep(front, last);
    }
  }

  /** A C system header is flagged exactly after a C++ system header or a trailing header, a C++
      system header exactly after a trailing header, and no other header ever. */
  lemma FlaggedExactly(history: seq<HeaderType>, h: HeaderType)
    ensures Flagged(SectionAfter(history), h) <==>
              || (h.CSystem? && (CppSystem in history || HasTrailing(history)))
              || (h.CppSystem? && HasTrailing(history))
  {
    SectionMeaning(history);
  }

  /** The message of a flagged header. */
  function Message(section: int, h: HeaderType): string {
    "Found " + TypeName(h) + " after " + SectionName(section)
  }

  /** What the message says, by the history. */
  lemma MessageTexts(history: seq<HeaderType>, h: HeaderType)
    requires Flagged(SectionAfter(history), h)
    ensures Message(SectionAfter(history), h)
         == "Found " + (if h.CppSystem? then "C++ system header" else "C system header")
            + " after " + (if HasTrailing(history) then "other header" else "C++ system header")
  {
    SectionMeaning(history);
  }

  lemma TrailingStep(front: seq<HeaderType>, last: HeaderType)
    ensures HasTrailing(front + [last]) <==>
              HasTrailing(front) || last.OtherHeader?
              || (IsMine(last) && exists k :: 0 <= k < |front| && !IsMine(front[k]))
  {
    var history := front + [last];
    assert forall i :: 0 <= i < |front| ==> history[i] == front[i];
    assert history[|front|] == last;
  }

  /** Between resets the section never moves backwards. */
  lemma {:induction false} SectionMonotone(history: seq<HeaderType>, i: nat, j: nat)
    requires i <= j <= |history|
    ensures SectionAfter(history[..i]) <= SectionAfter(history[..j])
    decreases j - i
  {
    if i < j {
      SectionMonotone(history, i, j - 1);
      SectionMeaning(history[..j - 1]);
      assert history[..j][..j - 1] == history[..j - 1];
    }
  }

  // ----- the regular language of unflagged include lists -----

  /** A word of MINE* C* CPP* (MINE | OTHER)*, cut at a, b and c. */
  ghost predicate InOrderAt(history: seq<HeaderType>, a: int, b: int, c: int) {
    && 0 <= a <= b <= c <= |history|
    && (forall i :: 0 <= i < a ==> IsMine(history[i]))
    && (forall i :: a <= i < b ==> history[i].CSystem?)
    && (forall i :: b <= i < c ==> history[i].CppSystem?)
    && (forall i :: c <= i < |history| ==> IsMine(history[i]) || history[i].OtherHeader?)
  }

  ghost predicate InOrder(history: seq<HeaderType>) {
    exists a, b, c :: InOrderAt(history, a, b, c)
  }

  /** Where the three cuts are, as far as the section tells. */
  ghost predicate CutsFit(history: seq<HeaderType>, a: int, b: int, c: int) {
    var section := SectionAfter(history);
    && InOrderAt(history, a, b, c)
    && (section <= MY_H_SECTION ==> a == |history|)
    && (section == C_SECTION ==> b == |history|)
    && (section == CPP_SECTION ==> c == |history|)
  }

  /** Nothing is flagged exactly when the include list is a word of the language. */
  lemma UnflaggedIsInOrder(history: seq<HeaderType>)
    ensures !AnyFlagged(history) <==> InOrder(history)
  {
    if !AnyFlagged(history) {
      var a, b, c := UnflaggedHasCuts(history);
    }
    if InOrder(history) {
      var a, b, c :| InOrderAt(history, a, b, c);
      forall i | 0 <= i < |history|
        ensures !Flagged(SectionAfter(history[..i]), history[i])
      {
        SectionMeaning(history[..i]);
        var before := history[..i];
        if history[i].CSystem? || history[i].CppSystem? {
          assert i < c;
          assert !HasTrailing(before);
          assert history[i].CSystem? && CppSystem in before ==> false;
        }
      }
    }
  }

  lemma {:induction false} UnflaggedHasCuts(history: seq<HeaderType>) returns (a: int, b: int, c: int)
    requires !AnyFlagged(history)
    ensures CutsFit(history, a, b, c)
    decreases |history|
  {
    a, b, c := 0, 0, 0;
    if history != [] {
      var front, last := history[..|history| - 1], history[|history| - 1];
      forall i | 0 <= i < |front| ensures !Flagged(SectionAfter(front[..i]), front[i]) {
        assert front[..i] == history[..i] && front[i] == history[i];
      }
      a, b, c := UnflaggedHasCuts(front);
      assert history == front + [last] && !Flagged(SectionAfter(history[..|front|]), history[|front|]);
      a, b, c := ExtendCuts(front, last, a, b, c);
    }
  }

  lemma ExtendCuts(front: seq<HeaderType>, last: HeaderType, a: int, b: int, c: int) returns (a': int, b': int, c': int)
    requires CutsFit(front, a, b, c) && !Flagged(SectionAfter(front), last)
    ensures CutsFit(front + [last], a', b', c')
  {
    var section, n := SectionAfter(front), |front|;
    SectionMeaning(front);
    assert (front + [last])[..n] == front;
    a' := if section > MY_H_SECTION then a else if IsMine(last) then n + 1 else n;
    b' := if section > C_SECTION then b else if last.CSystem? || a' == n + 1 then n + 1 else n;
    c' := if section > CPP_SECTION then c else if last.CppSystem? || b' == n + 1 then n + 1 else n;
    CutsExtended(front, last, a, b, c, a', b', c');
  }

  lemma CutsExtended(front: seq<HeaderType>, last: HeaderType, a: int, b: int, c: int, a': int, b': int, c': int)
    requires InOrderAt(front, a, b, c)
    requires a' == a || (a == |front| && a' == |front| + 1 && IsMine(last)) || (a == |front| == a')
    requires b' == b || (b == |front| && b' == |front| + 1 && (last.CSystem? || a' == |front| + 1))
             || (b == |front| == b')
    requires c' == c || (c == |front| && c' == |front| + 1 && (last.CppSystem? || b' == |front| + 1))
             || (c == |front| == c')
    requires a' <= b' <= c' && (c' <= |front| ==> IsMine(last) || last.OtherHeader?)
    ensures InOrderAt(front + [last], a', b', c')
  {
    var history := front + [last];
    assert forall i :: 0 <= i < |front| ==> history[i] == front[i];
    assert history[|front|] == last;
  }

  // ----- the class -----

  class IncludeState {
    var section: int
    var lastHeader: string
    var includeList: seq<seq<(string, nat)>>
    ghost var sinceReset: seq<HeaderType>

    ghost predicate Valid()
      reads this
    {
      section == SectionAfter(sinceReset) && includeList != []
    }

    constructor ()
      ensures Valid() && sinceReset == [] && includeList == [[]]
    {
      section, lastHeader, includeList, sinceReset := INITIAL_SECTION, "", [[]], [];
    }

    method ResetSection(directive: string)
      requires Valid()
      modifies this
      ensures Valid() && sinceReset == [] && lastHeader == ""
      ensures includeList == (if directive in ["if", "ifdef", "ifndef"] then old(includeList) + [[]]
                              else if directive in ["else", "elif"] then
                                old(includeList)[..|old(includeList)| - 1] + [[]]
                              else old(includeList))
    {
      section, lastHeader, sinceReset := INITIAL_SECTION, "", [];
      if directive in ["if", "ifdef", "ifndef"] {
        includeList := includeList + [[]];
      } else if directive in ["else", "elif"] {
        includeList := includeList[|includeList| - 1 := []];
      }
    }

    /** Returns the message, empty if the header may stand here. */
    method CheckNextIncludeOrder(headerType: HeaderType) returns (message: string)
      requires Valid()
      modifies this`section, this`lastHeader, this`sinceReset
      ensures Valid() && sinceReset == old(sinceReset) + [headerType]
      ensures old(section) <= section
      ensures message == "" <==> !Flagged(SectionAfter(old(sinceReset)), headerType)
      ensures message != "" ==> message == Message(SectionAfter(old(sinceReset)), headerType)
      ensures lastHeader == (if message != "" || section != old(section) then "" else old(lastHeader))
    {
      var errorMessage := "Found " + TypeName(headerType) + " after " + SectionName(section);
      var lastSection := section;
      SectionMeaning(sinceReset);
      ghost var history := sinceReset;
      sinceReset := sinceReset + [headerType];
      assert sinceReset[..|history|] == history;
      match headerType {
      case CSystem =>
        if section <= C_SECTION {
          section := C_SECTION;
        } else {
          lastHeader := "";
          return errorMessage;
        }
      case CppSystem =>
        if section <= CPP_SECTION {
          section := CPP_SECTION;
        } else {
          lastHeader := "";
          return errorMessage;
        }
      case LikelyMine =>
        section := if section <= MY_H_SECTION then MY_H_SECTION else OTHER_H_SECTION;
      case PossiblyMine =>
        section := if section <= MY_H_SECTION then MY_H_SECTION else OTHER_H_SECTION;
      case OtherHeader =>
        section := OTHER_H_SECTION;
      }
      if lastSection != section {
        lastHeader := "";
      }
      return "";
    }
  }
}
