/** Python string operations and the small regular expressions that the
    linter and the project scripts apply to one line of text. */
module Text {

  datatype Option<+T> = None | Some(value: T)

  /** The class `\s`. */
  predicate IsSpace(c: char) {
    c in " \t\n\r\U{0B}\U{0C}"
  }

  /** The class `\w`. */
  predicate IsWord(c: char) {
    'a' <= c <= 'z' || 'A' <= c <= 'Z' || '0' <= c <= '9' || c == '_'
  }

  /** The two classes by their codes. */
  lemma ClassCodes(c: char)
    ensures IsSpace(c) <==> c as int == 32 || 9 <= c as int <= 13
    ensures IsWord(c) <==> 48 <= c as int <= 57 || 65 <= c as int <= 90 || c as int == 95 || 97 <= c as int <= 122
  {
  }

  predicate StartsWith(s: string, prefix: string) {
    |prefix| <= |s| && s[..|prefix|] == prefix
  }

  lemma StartsWithMeaning(s: string, prefix: string)
    ensures StartsWith(s, prefix) <==> prefix <= s
  {
  }

  lemma FirstDiffers(s: string, prefix: string)
    requires s != "" && prefix != "" && s[0] != prefix[0]
    ensures !StartsWith(s, prefix)
  {
    assert |prefix| <= |s| ==> s[..|prefix|][0] == s[0];
  }

  function TrimEnd(s: string): (t: string)
    ensures t <= s
    ensures forall j :: |t| <= j < |s| ==> IsSpace(s[j])
  {
    if s != "" && IsSpace(s[|s| - 1]) then TrimEnd(s[..|s| - 1]) else s
  }

  function TrimStart(s: string): (t: string)
    ensures |t| <= |s| && t == s[|s| - |t|..]
  {
    if s != "" && IsSpace(s[0]) then TrimStart(s[1..]) else s
  }

  /** `Search(r'\boperator\s*$', s)` */
  predicate EndsWithOperator(s: string) {
    var t := TrimEnd(s);
    && |t| >= 8
    && t[|t| - 8..] == "operator"
    && (|t| == 8 || !IsWord(t[|t| - 9]))
  }

  predicate AllSpace(s: string) {
    forall i :: 0 <= i < |s| ==> IsSpace(s[i])
  }

  /** The pattern by its parts: what precedes `operator` ends no word, what follows is blank. */
  ghost predicate OperatorAt(s: string, u: string, v: string) {
    s == u + "operator" + v && AllSpace(v) && (u == "" || !IsWord(u[|u| - 1]))
  }

  lemma OperatorMeaning(s: string)
    ensures EndsWithOperator(s) <==> exists u, v :: OperatorAt(s, u, v)
  {
    if EndsWithOperator(s) {
      OperatorSplits(s, TrimEnd(s));
    }
    if u, v :| OperatorAt(s, u, v) {
      OperatorMatches(u, v);
    }
  }

  lemma OperatorSplits(s: string, t: string)
    requires EndsWithOperator(s) && t == TrimEnd(s)
    ensures OperatorAt(s, t[..|t| - 8], s[|t|..])
  {
    assert t == t[..|t| - 8] + "operator" && s == t + s[|t|..];
  }

  lemma OperatorMatches(u: string, v: string)
    requires AllSpace(v) && (u == "" || !IsWord(u[|u| - 1]))
    ensures EndsWithOperator(u + "operator" + v)
  {
    var t := u + "operator";
    assert t[|t| - 1] == 'r';
    TrimEndIs(t, v);
    assert t[|u|..] == "operator";
  }

  lemma {:induction false} TrimEndIs(t: string, v: string)
    requires t != "" && !IsSpace(t[|t| - 1]) && AllSpace(v)
    ensures TrimEnd(t + v) == t
    decreases |v|
  {
    if v == "" {
      assert t + v == t;
    } else {
      TrimEndIs(t, v[..|v| - 1]);
      assert (t + v)[..|t + v| - 1] == t + v[..|v| - 1];
    }
  }

  lemma {:induction false} TrimStartIs(u: string, t: string)
    requires AllSpace(u) && (t == "" || !IsSpace(t[0]))
    ensures TrimStart(u + t) == t
    decreases |u|
  {
    if u == "" {
      assert u + t == t;
    } else {
      TrimStartIs(u[1..], t);
      TailOf(u, t);
    }
  }

  lemma TailOf(a: string, b: string)
    requires a != ""
    ensures (a + b)[0] == a[0] && (a + b)[1..] == a[1..] + b
  {
  }

  /** What is trimmed is blank, and what is left does not begin with a blank. */
  lemma {:induction false} TrimStartCuts(s: string)
    ensures forall j :: 0 <= j < |s| - |TrimStart(s)| ==> IsSpace(s[j])
    ensures TrimStart(s) != "" ==> !IsSpace(TrimStart(s)[0])
  {
    if s != "" && IsSpace(s[0]) {
      TrimStartCuts(s[1..]);
      assert forall j :: 0 < j < |s| ==> s[j] == s[1..][j - 1];
    }
  }

  lemma TrimStartSplits(s: string) returns (u: string)
    ensures s == u + TrimStart(s) && AllSpace(u)
    ensures TrimStart(s) != "" ==> !IsSpace(TrimStart(s)[0])
  {
    TrimStartCuts(s);
    u := s[..|s| - |TrimStart(s)|];
  }

  /** What the backward scan steps over after an `operator` test is never a bracket. */
  lemma OperatorEndsPlain(s: string)
    requires EndsWithOperator(s)
    ensures s != "" && (s[|s| - 1] == 'r' || IsSpace(s[|s| - 1]))
  {
    var t := TrimEnd(s);
    if |t| == |s| {
      assert t[|t| - 8..][7] == 'r';
    }
  }

  /** `str.count(sub)`: non-overlapping occurrences, left to right. */
  function Count(s: string, sub: string): nat
    requires sub != ""
    decreases |s|
  {
    if |s| < |sub| then 0
    else if StartsWith(s, sub) then 1 + Count(s[|sub|..], sub)
    else Count(s[1..], sub)
  }

  predicate Occurs(s: string, sub: string, i: nat) {
    i <= |s| && sub <= s[i..]
  }

  /** `sub` stands at `i` and nowhere before. */
  ghost predicate FirstAt(s: string, sub: string, i: nat) {
    Occurs(s, sub, i) && forall j :: 0 <= j < i ==> !Occurs(s, sub, j)
  }

  ghost predicate Absent(s: string, sub: string) {
    forall j: nat :: !Occurs(s, sub, j)
  }

  lemma OccursInRest(s: string, sub: string, i: nat)
    requires s != ""
    ensures Occurs(s[1..], sub, i) <==> Occurs(s, sub, i + 1)
  {
    assert i < |s| ==> s[1..][i..] == s[i + 1..];
  }

  lemma OccursHere(s: string, sub: string)
    ensures Occurs(s, sub, 0) <==> sub <= s
  {
    assert s[0..] == s;
  }

  lemma FirstAtRest(s: string, sub: string, i: nat)
    requires FirstAt(s, sub, i) && i > 0
    ensures s != "" && !(sub <= s) && FirstAt(s[1..], sub, i - 1)
  {
    OccursHere(s, sub);
    OccursInRest(s, sub, i - 1);
    forall j | 0 <= j < i - 1 ensures !Occurs(s[1..], sub, j) {
      OccursInRest(s, sub, j);
    }
  }

  lemma AbsentRest(s: string, sub: string)
    requires Absent(s, sub) && s != ""
    ensures !(sub <= s) && Absent(s[1..], sub)
  {
    OccursHere(s, sub);
    forall j: nat ensures !Occurs(s[1..], sub, j) {
      OccursInRest(s, sub, j);
    }
  }

  /** Counting goes from first occurrence to first occurrence. */
  lemma CountMeaning(s: string, sub: string, i: nat)
    requires sub != "" && FirstAt(s, sub, i)
    ensures Count(s, sub) == 1 + Count(s[i + |sub|..], sub)
  {
    CountFrom(s, sub, i, s[i + |sub|..]);
  }

  lemma {:induction false} CountFrom(s: string, sub: string, i: nat, rest: string)
    requires sub != "" && FirstAt(s, sub, i) && rest == s[i + |sub|..]
    ensures Count(s, sub) == 1 + Count(rest, sub)
    decreases |s|
  {
    if i > 0 {
      FirstAtRest(s, sub, i);
      SameTail(s, i + |sub|);
      CountFrom(s[1..], sub, i - 1, rest);
      CountLater(s, sub);
    } else {
      OccursHere(s, sub);
      CountHere(s, sub);
    }
  }

  lemma CountHere(s: string, sub: string)
    requires sub != "" && sub <= s
    ensures Count(s, sub) == 1 + Count(s[|sub|..], sub)
  {
  }

  lemma CountLater(s: string, sub: string)
    requires sub != "" && s != "" && !(sub <= s)
    ensures Count(s, sub) == Count(s[1..], sub)
  {
  }

  lemma SameTail(s: string, k: nat)
    requires 0 < k <= |s|
    ensures s[1..][k - 1..] == s[k..]
  {
  }

  lemma {:induction false} CountNothing(s: string, sub: string)
    requires sub != "" && Absent(s, sub)
    ensures Count(s, sub) == 0
    decreases |s|
  {
    if s != "" {
      AbsentRest(s, sub);
      CountNothing(s[1..], sub);
    }
  }

  /** `str.replace(sub, rep)`: non-overlapping occurrences, left to right. */
  function Replace(s: string, sub: string, rep: string): string
    requires sub != ""
    decreases |s|
  {
    if s == "" then ""
    else if StartsWith(s, sub) then rep + Replace(s[|sub|..], sub, rep)
    else [s[0]] + Replace(s[1..], sub, rep)
  }

  /** Replacing goes from first occurrence to first occurrence. */
  lemma {:induction false} ReplaceMeaning(s: string, sub: string, rep: string, i: nat)
    requires sub != "" && FirstAt(s, sub, i)
    ensures Replace(s, sub, rep) == s[..i] + rep + Replace(s[i + |sub|..], sub, rep)
    decreases |s|
  {
    OccursHere(s, sub);
    if i > 0 {
      FirstAtRest(s, sub, i);
      ReplaceMeaning(s[1..], sub, rep, i - 1);
      ReplaceLater(s, sub, rep);
      SameTail(s, i + |sub|);
      FirstOnto(s, i, rep, Replace(s[i + |sub|..], sub, rep));
    } else {
      ReplaceHere(s, sub, rep);
    }
  }

  lemma ReplaceHere(s: string, sub: string, rep: string)
    requires sub != "" && sub <= s
    ensures Replace(s, sub, rep) == s[..0] + rep + Replace(s[|sub|..], sub, rep)
  {
    assert s[..0] + rep == rep;
  }

  lemma ReplaceLater(s: string, sub: string, rep: string)
    requires sub != "" && s != "" && !(sub <= s)
    ensures Replace(s, sub, rep) == [s[0]] + Replace(s[1..], sub, rep)
  {
  }

  lemma {:induction false} ReplaceNothing(s: string, sub: string, rep: string)
    requires sub != "" && Absent(s, sub)
    ensures Replace(s, sub, rep) == s
    decreases |s|
  {
    if s != "" {
      AbsentRest(s, sub);
      ReplaceNothing(s[1..], sub, rep);
    }
  }

  lemma FirstOnto(s: string, i: nat, rep: string, rest: string)
    requires 0 < i <= |s|
    ensures [s[0]] + (s[1..][..i - 1] + rep + rest) == s[..i] + rep + rest
  {
  }

  function Elements<T>(s: seq<T>): set<T> {
    set x | x in s
  }

  lemma ElementsConcat<T>(a: seq<T>, b: seq<T>)
    ensures Elements(a + b) == Elements(a) + Elements(b)
  {
  }
}
