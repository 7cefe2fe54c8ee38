/** What it means for `(`, `[` and `{` to match, and the one-stack machine that
    decides it. Both scanners of cpplint.py and `_GetTextInside` are proved
    against this module. */
module Brackets {
  import opened Text

  predicate IsOpen(c: char) { c == '(' || c == '[' || c == '{' }

  predicate IsClose(c: char) { c == ')' || c == ']' || c == '}' }

  predicate IsNoise(c: char) { !IsOpen(c) && !IsClose(c) }

  predicate Pair(a: char, b: char) {
    (a == '(' && b == ')') || (a == '[' && b == ']') || (a == '{' && b == '}')
  }

  lemma Alphabet(a: char, b: char)
    ensures IsOpen(a) <==> a in "([{"
    ensures IsClose(a) <==> a in ")]}"
    ensures Pair(a, b) <==> [a, b] == "()" || [a, b] == "[]" || [a, b] == "{}"
  {
    assert [a, b][0] == a && [a, b][1] == b;
  }

  predicate NoBrackets(s: string) {
    forall c :: c in s ==> IsNoise(c)
  }

  /** The Dyck language over the three pairs, with any other characters in
      between: `B -> noise | B B | ( B ) | [ B ] | { B }`. */
  ghost predicate Balanced(s: string)
    decreases |s|, 1
  {
    || NoBrackets(s)
    || (exists i :: BalancedAt(s, i))
    || (|s| >= 2 && Pair(s[0], s[|s| - 1]) && Balanced(s[1..|s| - 1]))
  }

  /** `s` is two shorter balanced texts, cut at `i`. */
  ghost predicate BalancedAt(s: string, i: int)
    decreases |s|, 0
  {
    0 < i < |s| && Balanced(s[..i]) && Balanced(s[i..])
  }

  /** `text[q]` is the bracket that closes `text[p]`. */
  ghost predicate Matches(text: string, p: int, q: int) {
    0 <= p < q < |text| && Pair(text[p], text[q]) && Balanced(text[p + 1..q])
  }

  // ----- the stack machine -----

  function Step(stack: string, c: char): Option<string> {
    if IsOpen(c) then Some(stack + [c])
    else if IsClose(c) then
      if stack != "" && Pair(stack[|stack| - 1], c) then Some(stack[..|stack| - 1]) else None
    else Some(stack)
  }

  function Run(s: string, stack: string): Option<string> {
    if s == "" then Some(stack)
    else match Run(s[..|s| - 1], stack)
      case None => None
      case Some(t) => Step(t, s[|s| - 1])
  }

  lemma RunSnoc(s: string, c: char, stack: string)
    ensures Run(s + [c], stack) == match Run(s, stack) case None => None case Some(t) => Step(t, c)
  {
    assert (s + [c])[..|s|] == s;
  }

  lemma {:induction false} RunConcat(a: string, b: string, stack: string)
    ensures Run(a + b, stack) == match Run(a, stack) case None => None case Some(t) => Run(b, t)
    decreases |b|
  {
    if b == "" {
      assert a + b == a;
    } else {
      var b' := b[..|b| - 1];
      RunConcat(a, b', stack);
      assert a + b == (a + b') + [b[|b| - 1]];
      RunSnoc(a + b', b[|b| - 1], stack);
    }
  }

  lemma {:induction false} RunNoise(s: string, stack: string)
    requires NoBrackets(s)
    ensures Run(s, stack) == Some(stack)
  {
    if s != "" {
      assert s[|s| - 1] in s;
      assert forall c :: c in s[..|s| - 1] ==> c in s;
      RunNoise(s[..|s| - 1], stack);
    }
  }

  lemma EnclosedRuns(o: char, b: string, c: char, stack: string)
    requires Pair(o, c) && Run(b, stack + [o]) == Some(stack + [o])
    ensures Run([o] + b + [c], stack) == Some(stack)
  {
    RunSnoc("", o, stack);
    assert "" + [o] == [o];
    RunConcat([o], b, stack);
    RunSnoc([o] + b, c, stack);
    assert (stack + [o])[..|stack|] == stack;
  }

  lemma ConcatRuns(a: string, b: string, stack: string)
    requires Run(a, stack) == Some(stack) && Run(b, stack) == Some(stack)
    ensures Run(a + b, stack) == Some(stack)
  {
    RunConcat(a, b, stack);
  }

  /** A balanced text leaves every stack as it found it. */
  lemma {:induction false} BalancedRuns(s: string, stack: string)
    requires Balanced(s)
    ensures Run(s, stack) == Some(stack)
    decreases |s|
  {
    if NoBrackets(s) {
      RunNoise(s, stack);
    } else if i :| BalancedAt(s, i) {
      assert s == s[..i] + s[i..];
      BalancedRuns(s[..i], stack);
      BalancedRuns(s[i..], stack);
      ConcatRuns(s[..i], s[i..], stack);
    } else {
      var b := s[1..|s| - 1];
      Enclosed(s);
      BalancedRuns(b, stack + [s[0]]);
      EnclosedRuns(s[0], b, s[|s| - 1], stack);
    }
  }

  lemma Enclosed(s: string)
    requires |s| >= 2
    ensures s == [s[0]] + s[1..|s| - 1] + [s[|s| - 1]]
  {
  }

  lemma BalancedConcat(a: string, b: string)
    requires Balanced(a) && Balanced(b)
    ensures Balanced(a + b)
  {
    if a == "" {
      assert a + b == b;
    } else if b == "" {
      assert a + b == a;
    } else {
      assert (a + b)[..|a|] == a && (a + b)[|a|..] == b;
      assert BalancedAt(a + b, |a|);
    }
  }

  lemma BalancedEnclosed(o: char, b: string, c: char)
    requires Pair(o, c) && Balanced(b)
    ensures Balanced([o] + b + [c])
  {
    var s := [o] + b + [c];
    assert s[1..|s| - 1] == b;
  }

  /** `s` is `B o1 B o2 ... on B`, where `stack` is `o1 ... on`. */
  ghost predicate Pending(s: string, stack: string)
    decreases |stack|, 1
  {
    if stack == "" then Balanced(s) else exists i :: PendingAt(s, stack, i)
  }

  /** The last of them is at `i`. */
  ghost predicate PendingAt(s: string, stack: string, i: int)
    requires stack != ""
    decreases |stack|, 0
  {
    && 0 <= i < |s| && s[i] == stack[|stack| - 1]
    && Pending(s[..i], stack[..|stack| - 1]) && Balanced(s[i + 1..])
  }

  lemma {:induction false} PendingExtend(s: string, stack: string, b: string)
    requires Pending(s, stack) && Balanced(b)
    ensures Pending(s + b, stack)
  {
    if stack == "" {
      BalancedConcat(s, b);
    } else {
      var i :| PendingAt(s, stack, i);
      BalancedConcat(s[i + 1..], b);
      assert (s + b)[..i] == s[..i] && (s + b)[i + 1..] == s[i + 1..] + b;
      assert PendingAt(s + b, stack, i);
    }
  }

  lemma PendingOpen(s: string, stack: string, o: char)
    requires Pending(s, stack)
    ensures Pending(s + [o], stack + [o])
  {
    var s', t, i := s + [o], stack + [o], |s|;
    assert s'[i] == t[|t| - 1] && s'[..i] == s && t[..|t| - 1] == stack && s'[i + 1..] == "";
    assert PendingAt(s', t, i);
  }

  lemma PendingClose(s: string, stack: string, c: char)
    requires Pending(s, stack) && stack != "" && Pair(stack[|stack| - 1], c)
    ensures Pending(s + [c], stack[..|stack| - 1])
  {
    var i :| PendingAt(s, stack, i);
    PendingCloseAt(s, i, stack[..|stack| - 1], c);
  }

  lemma PendingCloseAt(s: string, i: nat, below: string, c: char)
    requires i < |s| && Pair(s[i], c) && Pending(s[..i], below) && Balanced(s[i + 1..])
    ensures Pending(s + [c], below)
  {
    var b := [s[i]] + s[i + 1..] + [c];
    assert Balanced(b) by { BalancedEnclosed(s[i], s[i + 1..], c); }
    assert s + [c] == s[..i] + b;
    assert Pending(s[..i] + b, below) by { PendingExtend(s[..i], below, b); }
  }

  /** The stack always explains the text read so far. */
  lemma {:induction false} RunPending(s: string)
    requires Run(s, "").Some?
    ensures Pending(s, Run(s, "").value)
    decreases |s|
  {
    if s != "" {
      var s', c := s[..|s| - 1], s[|s| - 1];
      assert s == s' + [c];
      RunPending(s');
      var stack := Run(s', "").value;
      if IsOpen(c) {
        PendingOpen(s', stack, c);
      } else if IsClose(c) {
        PendingClose(s', stack, c);
      } else {
        assert NoBrackets([c]);
        PendingExtend(s', stack, [c]);
      }
    }
  }

  /** The machine decides the Dyck language. */
  lemma RunDecidesBalanced(s: string)
    ensures Run(s, "") == Some("") <==> Balanced(s)
  {
    if Balanced(s) {
      BalancedRuns(s, "");
    }
    if Run(s, "") == Some("") {
      RunPending(s);
    }
  }

  // ----- finding the matching bracket -----

  /** The machine, run from index `i` with `stack`, first empties its stack at this index;
      None if it fails or the text ends first. */
  function FindMatch(text: string, i: nat, stack: string): Option<nat>
    requires i <= |text|
    decreases |text| - i
  {
    if i == |text| then None
    else match Step(stack, text[i])
      case None => None
      case Some(next) => if next == "" then Some(i) else FindMatch(text, i + 1, next)
  }

  lemma InnerStep(o: char, stack: string, c: char)
    requires IsOpen(o)
    ensures Step(stack, c).Some? ==> Step([o] + stack, c) == Some([o] + Step(stack, c).value)
    ensures Step(stack, c).None? ==> Step([o] + stack, c) == (if stack == "" && Pair(o, c) then Some("") else None)
  {
    if IsOpen(c) {
      assert ([o] + stack) + [c] == [o] + (stack + [c]);
    } else if IsClose(c) && stack != "" {
      assert ([o] + stack)[..|stack|] == [o] + stack[..|stack| - 1];
    } else if IsClose(c) {
      assert ([o] + stack)[..0] == "";
    }
  }

  lemma RunNext(text: string, p: nat, k: nat)
    requires p < k < |text|
    ensures Run(text[p + 1..k + 1], "")
         == match Run(text[p + 1..k], "") case None => None case Some(t) => Step(t, text[k])
  {
    assert text[p + 1..k + 1] == text[p + 1..k] + [text[k]];
    RunSnoc(text[p + 1..k], text[k], "");
  }

  /** While the text after the opener at `p` runs, the search from `p` goes on. */
  lemma {:induction false} FindMatchGoesOn(text: string, p: nat, k: nat)
    requires p < k <= |text| && IsOpen(text[p]) && Run(text[p + 1..k], "").Some?
    ensures FindMatch(text, p, "") == FindMatch(text, k, [text[p]] + Run(text[p + 1..k], "").value)
    decreases k
  {
    if k == p + 1 {
      assert text[p + 1..k] == "" && "" + [text[p]] == [text[p]] + "";
    } else {
      RunNext(text, p, k - 1);
      FindMatchGoesOn(text, p, k - 1);
      InnerStep(text[p], Run(text[p + 1..k - 1], "").value, text[k - 1]);
    }
  }

  lemma {:induction false} FoundIsMatch(text: string, p: nat, k: nat, q: nat)
    requires p < k <= |text| && IsOpen(text[p]) && Run(text[p + 1..k], "").Some?
    requires FindMatch(text, k, [text[p]] + Run(text[p + 1..k], "").value) == Some(q)
    ensures Matches(text, p, q)
    decreases |text| - k
  {
    var stack := Run(text[p + 1..k], "").value;
    RunNext(text, p, k);
    InnerStep(text[p], stack, text[k]);
    if Step(stack, text[k]).Some? {
      FoundIsMatch(text, p, k + 1, q);
    } else {
      RunDecidesBalanced(text[p + 1..k]);
    }
  }

  /** The search from an opener finds exactly its match. */
  lemma FindMatchDecides(text: string, p: nat, q: int)
    requires p < |text| && IsOpen(text[p])
    ensures Matches(text, p, q) <==> q >= 0 && FindMatch(text, p, "") == Some(q)
  {
    if Matches(text, p, q) {
      RunDecidesBalanced(text[p + 1..q]);
      FindMatchGoesOn(text, p, q);
      InnerStep(text[p], "", text[q]);
    }
    if q >= 0 && FindMatch(text, p, "") == Some(q) {
      assert text[p + 1..p + 1] == "";
      FindMatchGoesOn(text, p, p + 1);
      FoundIsMatch(text, p, p + 1, q);
    }
  }

  // ----- reading backwards -----

  function Flip(c: char): char {
    if c == '(' then ')' else if c == ')' then '('
    else if c == '[' then ']' else if c == ']' then '['
    else if c == '{' then '}' else if c == '}' then '{'
    else c
  }

  /** The text as seen from its right end. */
  function Mirror(s: string): (m: string)
    ensures |m| == |s|
    ensures forall i :: 0 <= i < |s| ==> m[i] == Flip(s[|s| - 1 - i])
  {
    seq(|s|, i requires 0 <= i < |s| => Flip(s[|s| - 1 - i]))
  }

  /** A stack of brackets, each by its partner. */
  function Flips(stack: string): (f: string)
    ensures |f| == |stack|
    ensures forall i :: 0 <= i < |f| ==> f[i] == Flip(stack[i])
  {
    seq(|stack|, i requires 0 <= i < |stack| => Flip(stack[i]))
  }

  lemma MirrorTwice(s: string)
    ensures Mirror(Mirror(s)) == s
  {
  }

  lemma MirrorConcat(a: string, b: string)
    ensures Mirror(a + b) == Mirror(b) + Mirror(a)
  {
  }

  lemma MirrorEnclosed(o: char, b: string, c: char)
    ensures Mirror([o] + b + [c]) == [Flip(c)] + Mirror(b) + [Flip(o)]
  {
  }

  lemma MirrorNoise(s: string)
    requires NoBrackets(s)
    ensures NoBrackets(Mirror(s))
  {
    forall c | c in Mirror(s) ensures IsNoise(c) {
      var i :| 0 <= i < |s| && Mirror(s)[i] == c;
      assert s[|s| - 1 - i] in s;
    }
  }

  lemma {:induction false} MirrorBalanced(s: string)
    requires Balanced(s)
    ensures Balanced(Mirror(s))
    decreases |s|
  {
    if NoBrackets(s) {
      MirrorNoise(s);
    } else if i :| BalancedAt(s, i) {
      assert s == s[..i] + s[i..];
      MirrorBalanced(s[..i]);
      MirrorBalanced(s[i..]);
      MirrorConcat(s[..i], s[i..]);
      BalancedConcat(Mirror(s[i..]), Mirror(s[..i]));
    } else {
      var o, b, c := s[0], s[1..|s| - 1], s[|s| - 1];
      assert s == [o] + b + [c];
      MirrorBalanced(b);
      MirrorEnclosed(o, b, c);
      MirroredPair(o, c);
      BalancedEnclosed(Flip(c), Mirror(b), Flip(o));
    }
  }

  lemma MirrorBalancedIff(s: string)
    ensures Balanced(s) <==> Balanced(Mirror(s))
  {
    if Balanced(s) {
      MirrorBalanced(s);
    }
    if Balanced(Mirror(s)) {
      MirrorBalanced(Mirror(s));
      MirrorTwice(s);
    }
  }

  lemma MirrorMatches(text: string, p: int, q: int)
    requires 0 <= p < q < |text|
    ensures Matches(text, p, q) <==> Matches(Mirror(text), |text| - 1 - q, |text| - 1 - p)
  {
    MirroredSlice(text, p, q);
    MirrorBalancedIff(text[p + 1..q]);
    MirroredPair(text[p], text[q]);
  }

  lemma MirroredPair(a: char, b: char)
    ensures Pair(a, b) <==> Pair(Flip(b), Flip(a))
  {
  }

  lemma MirroredSlice(text: string, p: int, q: int)
    requires 0 <= p < q < |text|
    ensures Mirror(text)[|text| - q..|text| - 1 - p] == Mirror(text[p + 1..q])
  {
  }
}
