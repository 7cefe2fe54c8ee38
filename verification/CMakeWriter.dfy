/** `CMakeCommand` and `Writer` of podspec_cmake.rb, and a reader of the command-invocation
    grammar of cmake-language(7) that undoes the writer. */
module CMakeWriter {
  import opened Text

  // ----- commands -----

  /** The loop of `add_args`: appends what is not there yet. */
  function AddAll(args: seq<string>, more: seq<string>): seq<string> {
    if more == [] then args
    else
      var front := AddAll(args, more[..|more| - 1]);
      if more[|more| - 1] in front then front else front + [more[|more| - 1]]
  }

  /** The elements of `more` that are new, each at its first occurrence. */
  function FirstOccurrences(args: seq<string>, more: seq<string>, n: nat): seq<string>
    requires n <= |more|
  {
    if n == 0 then []
    else
      var front := FirstOccurrences(args, more, n - 1);
      if more[n - 1] in args || more[n - 1] in more[..n - 1] then front else front + [more[n - 1]]
  }

  lemma {:induction false} AddAllConcat(args: seq<string>, a: seq<string>, b: seq<string>)
    ensures AddAll(AddAll(args, a), b) == AddAll(args, a + b)
    decreases |b|
  {
    if b == [] {
      assert a + b == a;
    } else {
      AddAllConcat(args, a, b[..|b| - 1]);
      assert (a + b)[..|a + b| - 1] == a + b[..|b| - 1];
    }
  }

  lemma {:induction false} AddAllElements(args: seq<string>, more: seq<string>, x: string)
    ensures x in AddAll(args, more) <==> x in args || x in more
  {
    if more != [] {
      AddAllElements(args, more[..|more| - 1], x);
      assert more == more[..|more| - 1] + [more[|more| - 1]];
    }
  }

  /** Adding keeps the arguments and appends exactly the first occurrences of the new ones. */
  lemma {:induction false} AddAllKeepsFirst(args: seq<string>, more: seq<string>, n: nat)
    requires n <= |more|
    ensures AddAll(args, more[..n]) == args + FirstOccurrences(args, more, n)
  {
    if n > 0 {
      AddAllKeepsFirst(args, more, n - 1);
      assert more[..n][..n - 1] == more[..n - 1];
      AddAllElements(args, more[..n - 1], more[n - 1]);
    }
  }

  class CMakeCommand {
    var args: seq<string>
    var checkedCount: Option<nat>

    constructor (initial: seq<string>)
      ensures args == initial && checkedCount == Some(0) && Skip()
    {
      args, checkedCount := initial, Some(0);
    }

    predicate Skip()
      reads this
    {
      checkedCount == Some(0)
    }

    method AllowMissingArgs()
      modifies this`checkedCount
      ensures checkedCount == None && !Skip()
    {
      checkedCount := None;
    }

    method AddArgs(more: seq<string>)
      modifies this
      ensures args == old(args) + FirstOccurrences(old(args), more, |more|)
      ensures args == AddAll(old(args), more)
      ensures Skip() <==> old(Skip()) && more == []
      ensures checkedCount == match old(checkedCount) case None => None case Some(n) => Some(n + |more|)
    {
      if checkedCount.Some? {
        checkedCount := Some(checkedCount.value + |more|);
      }
      ghost var before := args;
      for i := 0 to |more|
        invariant args == AddAll(before, more[..i])
        invariant checkedCount == old(checkedCount) || checkedCount.Some?
        invariant checkedCount.None? <==> old(checkedCount).None?
        invariant checkedCount.Some? ==> checkedCount.value == old(checkedCount).value + |more|
      {
        assert more[..i + 1][..i] == more[..i];
        if more[i] !in args {
          args := args + [more[i]];
        }
      }
      assert more[..|more|] == more;
      AddAllKeepsFirst(before, more, |more|);
    }

    /** Any sequence of calls is one call on the concatenation. */
    method AddEach(calls: seq<seq<string>>)
      modifies this
      ensures args == old(args) + FirstOccurrences(old(args), Concat(calls), |Concat(calls)|)
      ensures Skip() <==> old(Skip()) && Concat(calls) == []
    {
      for i := 0 to |calls|
        invariant args == AddAll(old(args), Concat(calls[..i]))
        invariant Skip() <==> old(Skip()) && Concat(calls[..i]) == []
      {
        assert calls[..i + 1][..i] == calls[..i];
        AddAllConcat(old(args), Concat(calls[..i]), calls[i]);
        AddArgs(calls[i]);
      }
      assert calls[..|calls|] == calls;
      assert Concat(calls)[..|Concat(calls)|] == Concat(calls);
      AddAllKeepsFirst(old(args), Concat(calls), |Concat(calls)|);
    }
  }

  function Concat(calls: seq<seq<string>>): seq<string> {
    if calls == [] then [] else Concat(calls[..|calls| - 1]) + calls[|calls| - 1]
  }

  // ----- the writer -----

  function JoinSpaced(args: seq<string>): string {
    if args == [] then "" else if |args| == 1 then args[0] else args[0] + " " + JoinSpaced(args[1..])
  }

  function Wrapped(args: seq<string>): string {
    if args == [] then "" else "  " + args[0] + "\n" + Wrapped(args[1..])
  }

  /** One command: on one line if that is shorter than 80 characters, else one argument a line. */
  function Body(name: string, args: seq<string>): string {
    var single := name + "(" + JoinSpaced(args) + ")\n";
    if |single| < 80 then single else name + "(\n" + Wrapped(args) + ")\n"
  }

  class Writer {
    var lastCommand: Option<string>
    var result: string

    constructor ()
      ensures lastCommand == None && result == ""
    {
      lastCommand, result := None, "";
    }

    method Write(command: CMakeCommand)
      requires command.args != []
      modifies this
      ensures command.Skip() ==> result == old(result) && lastCommand == old(lastCommand)
      ensures !command.Skip() ==>
                && lastCommand == Some(command.args[0])
                && result == old(result) + (if old(lastCommand) == Some(command.args[0]) then "" else "\n")
                             + Body(command.args[0], command.args[1..])
    {
      if command.Skip() {
        return;
      }
      var name, rest := command.args[0], command.args[1..];
      if Some(name) != lastCommand {
        result := result + "\n";
      }
      assert result == old(result) + Gap(old(lastCommand), name);
      lastCommand := Some(name);
      var single := name + "(" + JoinSpaced(rest) + ")\n";
      if |single| < 80 {
        result := result + single;
      } else {
        result := result + (name + "(\n");
        AppendArguments(rest);
        result := result + ")\n";
        Regroup(old(result), Gap(old(lastCommand), name), name + "(\n", Wrapped(rest), ")\n");
      }
    }

    /** One argument a line. */
    method AppendArguments(rest: seq<string>)
      modifies this`result
      ensures result == old(result) + Wrapped(rest)
    {
      var i := 0;
      while i < |rest|
        invariant 0 <= i <= |rest|
        invariant result + Wrapped(rest[i..]) == old(result) + Wrapped(rest)
      {
        assert rest[i..][0] == rest[i] && rest[i..][1..] == rest[i + 1..];
        RegroupLine(result, rest[i], Wrapped(rest[i + 1..]));
        result := result + "  " + rest[i] + "\n";
        i := i + 1;
      }
      assert rest[i..] == [] && result + "" == result;
    }

    method Append(text: string)
      modifies this`result
      ensures result == old(result) + text
    {
      result := result + text;
    }
  }

  // ----- the layout -----

  /** A text cut at its line ends. */
  function TextLines(s: string): (r: seq<string>)
    ensures r != []
  {
    if s == "" then [""]
    else
      var r := TextLines(s[1..]);
      if s[0] == '\n' then [""] + r else [[s[0]] + r[0]] + r[1..]
  }

  lemma {:induction false} LineEnds(line: string, rest: string)
    requires '\n' !in line
    ensures TextLines(line + ("\n" + rest)) == [line] + TextLines(rest)
    decreases |line|
  {
    var s := line + ("\n" + rest);
    if line == "" {
      assert s == "\n" + rest && s[1..] == rest;
    } else {
      LineEnds(line[1..], rest);
      assert s[1..] == line[1..] + ("\n" + rest);
      assert [line[0]] + line[1..] == line;
      assert ([line[1..]] + TextLines(rest))[1..] == TextLines(rest);
    }
  }

  function TotalLength(args: seq<string>): nat {
    if args == [] then 0 else |args[0]| + TotalLength(args[1..])
  }

  lemma {:induction false} JoinedLength(args: seq<string>)
    ensures |JoinSpaced(args)| == TotalLength(args) + if args == [] then 0 else |args| - 1
    decreases |args|
  {
    if |args| > 1 {
      JoinedLength(args[1..]);
    }
  }

  lemma {:induction false} JoinedPlain(args: seq<string>)
    requires forall i :: 0 <= i < |args| ==> '\n' !in args[i]
    ensures '\n' !in JoinSpaced(args)
    decreases |args|
  {
    if |args| > 1 {
      JoinedPlain(args[1..]);
    }
  }

  function Indented(args: seq<string>): (r: seq<string>)
    ensures |r| == |args| && forall i :: 0 <= i < |r| ==> r[i] == "  " + args[i]
  {
    seq(|args|, i requires 0 <= i < |args| => "  " + args[i])
  }

  lemma {:induction false} WrappedLines(args: seq<string>, rest: string)
    requires forall i :: 0 <= i < |args| ==> '\n' !in args[i]
    ensures TextLines(Wrapped(args) + rest) == Indented(args) + TextLines(rest)
    decreases |args|
  {
    if args == [] {
      assert Wrapped(args) + rest == rest;
      assert Indented(args) == [];
    } else {
      WrappedLines(args[1..], rest);
      LineEnds("  " + args[0], Wrapped(args[1..]) + rest);
      RegroupIndented(args[0], Wrapped(args[1..]), rest);
      assert Indented(args) == ["  " + args[0]] + Indented(args[1..]);
    }
  }

  lemma RegroupIndented(arg: string, args: string, rest: string)
    ensures "  " + arg + "\n" + args + rest == ("  " + arg) + ("\n" + (args + rest))
  {
  }

  /** The lines of one command: one line if it has, with its line end, less than 80 characters, and
      else one for the name, one for each argument, indented by two blanks, and one for the end. */
  lemma BodyLines(name: string, args: seq<string>)
    requires '\n' !in name && forall i :: 0 <= i < |args| ==> '\n' !in args[i]
    ensures TextLines(Body(name, args)) ==
              if |name| + TotalLength(args) + (if args == [] then 0 else |args| - 1) + 3 < 80
              then [name + "(" + JoinSpaced(args) + ")", ""]
              else [name + "("] + Indented(args) + [")", ""]
  {
    JoinedLength(args);
    if |name| + 1 + |JoinSpaced(args)| + 2 < 80 {
      SingleLine(name, args);
    } else {
      SeveralLines(name, args);
    }
  }

  lemma SingleLine(name: string, args: seq<string>)
    requires '\n' !in name && forall i :: 0 <= i < |args| ==> '\n' !in args[i]
    ensures TextLines(name + "(" + JoinSpaced(args) + ")\n") == [name + "(" + JoinSpaced(args) + ")", ""]
  {
    JoinedPlain(args);
    var line := name + "(" + JoinSpaced(args) + ")";
    LineEnds(line, "");
    RegroupEnd(name + "(" + JoinSpaced(args));
    assert TextLines("") == [""];
  }

  lemma RegroupEnd(s: string)
    ensures s + ")\n" == (s + ")") + ("\n" + "")
  {
  }

  lemma SeveralLines(name: string, args: seq<string>)
    requires '\n' !in name && forall i :: 0 <= i < |args| ==> '\n' !in args[i]
    ensures TextLines(name + "(\n" + Wrapped(args) + ")\n") == [name + "("] + Indented(args) + [")", ""]
  {
    var end := ")" + ("\n" + "");
    LineEnds(")", "");
    WrappedLines(args, end);
    LineEnds(name + "(", Wrapped(args) + end);
    RegroupBody(name, Wrapped(args));
    RegroupLines([name + "("], Indented(args), [")"] + TextLines(""), [")", ""]);
  }

  lemma RegroupLines(a: seq<string>, b: seq<string>, c: seq<string>, d: seq<string>)
    requires c == d
    ensures a + (b + c) == a + b + d
  {
  }

  lemma RegroupBody(name: string, args: string)
    ensures name + "(\n" + args + ")\n" == (name + "(") + ("\n" + (args + (")" + ("\n" + ""))))
  {
    assert "(\n" == "(" + "\n" && ")\n" == ")" + "\n";
  }

  lemma Regroup(a: string, gap: string, head: string, args: string, end: string)
    ensures a + gap + head + args + end == a + gap + (head + args + end)
  {
  }

  lemma RegroupLine(a: string, arg: string, rest: string)
    ensures a + ("  " + arg + "\n" + rest) == a + "  " + arg + "\n" + rest
  {
  }

  /** A blank line goes before a command whose name differs from the last one. */
  function Gap(last: Option<string>, name: string): string {
    if Some(name) != last then "\n" else ""
  }

  datatype Invocation = Invocation(name: string, args: seq<string>)

  /** What a sequence of calls of `Write` with these commands appends. */
  function WriteAll(last: Option<string>, commands: seq<Invocation>): string
    decreases |commands|
  {
    if commands == [] then ""
    else
      var c := commands[0];
      Gap(last, c.name) + Body(c.name, c.args) + WriteAll(Some(c.name), commands[1..])
  }

  // ----- the reader -----

  datatype Token = Space | Newline | Open | Close | Word(text: string) | Quoted(text: string) | Bad

  predicate IsBlank(c: char) { c == ' ' || c == '\t' }

  /** A character of an unquoted argument. */
  predicate IsWordChar(c: char) {
    !IsBlank(c) && c != '\n' && c != '(' && c != ')' && c != '#' && c != '"' && c != '\\'
  }

  function WordEnd(s: string): (k: nat)
    ensures k <= |s| && (forall i :: 0 <= i < k ==> IsWordChar(s[i])) && (k < |s| ==> !IsWordChar(s[k]))
  {
    if s == "" || !IsWordChar(s[0]) then 0 else 1 + WordEnd(s[1..])
  }

  function Find(s: string, c: char): (k: nat)
    ensures k <= |s| && c !in s[..k] && (k < |s| ==> s[k] == c)
  {
    if s == "" || s[0] == c then 0 else 1 + Find(s[1..], c)
  }

  /** `bracket_open`: `[`, any number of `=`, and `[`. */
  predicate OpensBracket(s: string) { s != "" && s[0] == '[' && SecondBracket(s[1..]) }

  predicate SecondBracket(s: string) { s != "" && (s[0] == '[' || (s[0] == '=' && SecondBracket(s[1..]))) }

  /** The tokens of a file. Separation is kept; a line comment counts as nothing before its line end.
      Bracket arguments, bracket comments, escapes, and a quote or comment that does not end are not read. */
  function Lex(s: string): seq<Token>
    decreases |s|
  {
    if s == "" then []
    else if IsBlank(s[0]) then [Space] + Lex(s[1..])
    else if s[0] == '\n' then [Newline] + Lex(s[1..])
    else if s[0] == '(' then [Open] + Lex(s[1..])
    else if s[0] == ')' then [Close] + Lex(s[1..])
    else if s[0] == '#' then
      var k := Find(s[1..], '\n');
      if k == |s| - 1 || OpensBracket(s[1..]) then [Bad] else Lex(s[1 + k..])
    else if s[0] == '"' then
      var k := Find(s[1..], '"');
      if k == |s| - 1 || '\\' in s[1..k + 1] then [Bad]
      else [Quoted(s[..k + 2])] + Lex(s[k + 2..])
    else
      var k := WordEnd(s);
      if k == 0 || OpensBracket(s) then [Bad] else [Word(s[..k])] + Lex(s[k..])
  }

  predicate IsIdentifier(s: string) {
    && s != "" && !('0' <= s[0] <= '9')
    && forall i :: 0 <= i < |s| ==> IsWord(s[i])
  }

  datatype Arguments = Arguments(args: seq<string>, rest: seq<Token>)

  /** The arguments up to the closing parenthesis. An argument must be `separated`, by blanks or line
      ends, from the one before it. */
  function ReadArguments(tokens: seq<Token>, separated: bool): (r: Option<Arguments>)
    ensures r.Some? ==> |r.value.rest| < |tokens|
  {
    if tokens == [] then None
    else match tokens[0]
      case Close => Some(Arguments([], tokens[1..]))
      case Space => ReadArguments(tokens[1..], true)
      case Newline => ReadArguments(tokens[1..], true)
      case Open => None
      case Bad => None
      case _ =>
        if !separated then None
        else match ReadArguments(tokens[1..], false)
          case None => None
          case Some(more) => Some(Arguments([tokens[0].text] + more.args, more.rest))
  }

  function SkipSpace(tokens: seq<Token>): (r: seq<Token>)
    ensures |r| <= |tokens|
  {
    if tokens != [] && tokens[0] == Space then SkipSpace(tokens[1..]) else tokens
  }

  /** A file: command invocations, each ended by a line end, and blank lines. */
  function Read(tokens: seq<Token>): Option<seq<Invocation>>
    decreases |tokens|
  {
    if tokens == [] then Some([])
    else
      var line := SkipSpace(tokens);
      if line == [] then None
      else if line[0] == Newline then Read(line[1..])
      else if !line[0].Word? || !IsIdentifier(line[0].text) then None
      else
        var call := SkipSpace(line[1..]);
        if call == [] || call[0] != Open then None
        else
          match ReadArguments(call[1..], true)
          case None => None
          case Some(r) =>
            if r.rest == [] || r.rest[0] != Newline then None
            else match Read(r.rest[1..])
              case None => None
              case Some(more) => Some([Invocation(line[0].text, r.args)] + more)
  }

  // ----- reading undoes writing -----

  /** An unquoted argument without escapes. */
  predicate IsPlainWord(arg: string) {
    arg != "" && (forall i :: 0 <= i < |arg| ==> IsWordChar(arg[i])) && !OpensBracket(arg)
  }

  /** A quoted argument without quotes or escapes inside. */
  predicate IsSimpleQuoted(arg: string) {
    && |arg| >= 2 && arg[0] == '"' && arg[|arg| - 1] == '"'
    && forall i :: 0 < i < |arg| - 1 ==> arg[i] != '"' && arg[i] != '\\'
  }

  /** Any text without quotes and backslashes makes such an argument, blanks and line ends included. */
  lemma SimpleQuotedIs(text: string)
    requires '"' !in text && '\\' !in text
    ensures IsSimpleQuoted("\"" + text + "\"")
  {
  }

  predicate IsArgument(arg: string) { IsPlainWord(arg) || IsSimpleQuoted(arg) }

  function TokenOf(arg: string): Token { if IsPlainWord(arg) then Word(arg) else Quoted(arg) }

  predicate Readable(c: Invocation) {
    IsIdentifier(c.name) && forall i :: 0 <= i < |c.args| ==> IsArgument(c.args[i])
  }

  lemma {:induction false} SecondBracketInWord(word: string, rest: string)
    requires rest == "" || !IsWordChar(rest[0])
    ensures SecondBracket(word + rest) == SecondBracket(word)
  {
    if word == "" {
      assert word + rest == rest;
    } else {
      SecondBracketInWord(word[1..], rest);
      assert (word + rest)[1..] == word[1..] + rest;
    }
  }

  lemma OpensBracketInWord(word: string, rest: string)
    requires word != "" && (rest == "" || !IsWordChar(rest[0]))
    ensures OpensBracket(word + rest) == OpensBracket(word)
  {
    SecondBracketInWord(word[1..], rest);
    assert (word + rest)[1..] == word[1..] + rest;
  }

  lemma WordEnds(word: string, rest: string)
    requires (forall i :: 0 <= i < |word| ==> IsWordChar(word[i])) && (rest == "" || !IsWordChar(rest[0]))
    ensures WordEnd(word + rest) == |word|
  {
    var s := word + rest;
    assert forall i :: 0 <= i < |word| ==> s[i] == word[i];
    assert rest != "" ==> s[|word|] == rest[0];
    var k := WordEnd(s);
  }

  lemma LexArgument(arg: string, rest: string)
    requires IsArgument(arg) && (rest == "" || !IsWordChar(rest[0]))
    ensures Lex(arg + rest) == [TokenOf(arg)] + Lex(rest)
  {
    var s := arg + rest;
    assert s[..|arg|] == arg && s[|arg|..] == rest;
    if IsPlainWord(arg) {
      assert IsWordChar(s[0]);
      WordEnds(arg, rest);
      OpensBracketInWord(arg, rest);
    } else {
      QuoteEnds(arg, rest);
    }
  }

  lemma QuoteEnds(arg: string, rest: string)
    requires IsSimpleQuoted(arg)
    ensures Find((arg + rest)[1..], '"') == |arg| - 2 && '\\' !in (arg + rest)[1..|arg| - 1]
  {
    var inner := arg[1..|arg| - 1];
    assert (arg + rest)[1..] == inner + ['"'] + rest;
    assert (arg + rest)[1..|arg| - 1] == inner;
    assert '"' !in inner && '\\' !in inner;
    FindAfter(inner, '"', rest);
  }

  /** How the arguments look to the reader on one line ... */
  function SpacedTokens(args: seq<string>): seq<Token> {
    if args == [] then []
    else if |args| == 1 then [TokenOf(args[0])]
    else [TokenOf(args[0])] + ([Space] + SpacedTokens(args[1..]))
  }

  /** ... and each on a line of its own. */
  function WrappedTokens(args: seq<string>): seq<Token> {
    if args == [] then []
    else [Space] + ([Space] + ([TokenOf(args[0])] + ([Newline] + WrappedTokens(args[1..]))))
  }

  /** The rules that the reader's lexer obeys; the lemmas below need no more of it. */
  ghost predicate ObeysRules(lex: string -> seq<Token>) {
    && lex("") == []
    && (forall s :: lex(" " + s) == [Space] + lex(s))
    && (forall s :: lex("\n" + s) == [Newline] + lex(s))
    && (forall s :: lex("(" + s) == [Open] + lex(s))
    && (forall s :: lex(")" + s) == [Close] + lex(s))
    && (forall arg, s :: IsArgument(arg) && (s == "" || !IsWordChar(s[0])) ==>
          lex(arg + s) == [TokenOf(arg)] + lex(s))
  }

  function Mark(c: char): Token {
    if c == ' ' then Space else if c == '\n' then Newline else if c == '(' then Open else Close
  }

  lemma LexMark(c: char, s: string)
    requires c == ' ' || c == '\n' || c == '(' || c == ')'
    ensures Lex([c] + s) == [Mark(c)] + Lex(s)
  {
    assert ([c] + s)[1..] == s;
  }

  lemma LexObeysRules()
    ensures ObeysRules(Lex)
  {
    forall s ensures Lex(" " + s) == [Space] + Lex(s) { LexMark(' ', s); }
    forall s ensures Lex("\n" + s) == [Newline] + Lex(s) { LexMark('\n', s); }
    forall s ensures Lex("(" + s) == [Open] + Lex(s) { LexMark('(', s); }
    forall s ensures Lex(")" + s) == [Close] + Lex(s) { LexMark(')', s); }
    forall arg, s | IsArgument(arg) && (s == "" || !IsWordChar(s[0]))
      ensures Lex(arg + s) == [TokenOf(arg)] + Lex(s)
    {
      LexArgument(arg, s);
    }
  }

  lemma LexOneSpaced(lex: string -> seq<Token>, arg: string, tail: string)
    requires ObeysRules(lex) && IsArgument(arg)
    ensures lex(arg + (" " + tail)) == [TokenOf(arg)] + ([Space] + lex(tail))
  {
    assert lex(" " + tail) == [Space] + lex(tail);
  }

  lemma LexOneWrapped(lex: string -> seq<Token>, arg: string, tail: string)
    requires ObeysRules(lex) && IsArgument(arg)
    ensures lex(" " + (" " + (arg + ("\n" + tail))))
         == [Space] + ([Space] + ([TokenOf(arg)] + ([Newline] + lex(tail))))
  {
    var line := arg + ("\n" + tail);
    assert lex(" " + (" " + line)) == [Space] + lex(" " + line);
    assert lex(" " + line) == [Space] + lex(line);
    assert lex("\n" + tail) == [Newline] + lex(tail);
  }

  lemma RegroupSpaced(arg: string, args: string, rest: string)
    ensures arg + " " + args + rest == arg + (" " + (args + rest))
  {
  }

  lemma RegroupWrappedLine(arg: string, args: string, rest: string)
    ensures "  " + arg + "\n" + args + rest == " " + (" " + (arg + ("\n" + (args + rest))))
  {
    assert "  " == " " + " ";
  }

  lemma RegroupArgs(t: Token, gap: Token, args: seq<Token>, rest: seq<Token>)
    ensures [t] + ([gap] + args) + rest == [t] + ([gap] + (args + rest))
  {
  }

  lemma RegroupLineTokens(t: Token, args: seq<Token>, rest: seq<Token>)
    ensures [Space] + ([Space] + ([t] + ([Newline] + args))) + rest
         == [Space] + ([Space] + ([t] + ([Newline] + (args + rest))))
  {
  }

  lemma {:induction false} LexSpaced(lex: string -> seq<Token>, args: seq<string>, rest: string)
    requires ObeysRules(lex) && forall i :: 0 <= i < |args| ==> IsArgument(args[i])
    requires rest != "" && !IsWordChar(rest[0])
    ensures lex(JoinSpaced(args) + rest) == SpacedTokens(args) + lex(rest)
    decreases |args|
  {
    if args == [] {
      assert JoinSpaced(args) + rest == rest;
    } else if |args| > 1 {
      var tail := JoinSpaced(args[1..]) + rest;
      LexSpaced(lex, args[1..], rest);
      RegroupSpaced(args[0], JoinSpaced(args[1..]), rest);
      LexOneSpaced(lex, args[0], tail);
      RegroupArgs(TokenOf(args[0]), Space, SpacedTokens(args[1..]), lex(rest));
    }
  }

  lemma {:induction false} LexWrapped(lex: string -> seq<Token>, args: seq<string>, rest: string)
    requires ObeysRules(lex) && forall i :: 0 <= i < |args| ==> IsArgument(args[i])
    ensures lex(Wrapped(args) + rest) == WrappedTokens(args) + lex(rest)
    decreases |args|
  {
    if args == [] {
      assert Wrapped(args) + rest == rest;
    } else {
      var tail := Wrapped(args[1..]) + rest;
      LexWrapped(lex, args[1..], rest);
      RegroupWrappedLine(args[0], Wrapped(args[1..]), rest);
      LexOneWrapped(lex, args[0], tail);
      RegroupLineTokens(TokenOf(args[0]), WrappedTokens(args[1..]), lex(rest));
    }
  }

  lemma ReadOneArgument(arg: string, tail: seq<Token>)
    requires ReadArguments(tail, false).Some?
    ensures ReadArguments([TokenOf(arg)] + tail, true)
         == Some(Arguments([arg] + ReadArguments(tail, false).value.args, ReadArguments(tail, false).value.rest))
  {
    assert ([TokenOf(arg)] + tail)[1..] == tail;
  }

  lemma ReadGap(gap: Token, tail: seq<Token>, separated: bool)
    requires gap == Space || gap == Newline
    ensures ReadArguments([gap] + tail, separated) == ReadArguments(tail, true)
  {
    assert ([gap] + tail)[1..] == tail;
  }

  lemma ReadClose(rest: seq<Token>, separated: bool)
    ensures ReadArguments([Close] + rest, separated) == Some(Arguments([], rest))
  {
    assert ([Close] + rest)[1..] == rest;
  }

  lemma {:induction false} ReadSpaced(args: seq<string>, rest: seq<Token>)
    ensures ReadArguments(SpacedTokens(args) + ([Close] + rest), true) == Some(Arguments(args, rest))
    decreases |args|
  {
    var end := [Close] + rest;
    ReadClose(rest, true);
    ReadClose(rest, false);
    if args == [] {
      assert SpacedTokens(args) + end == end;
    } else if |args| == 1 {
      ReadOneArgument(args[0], end);
      assert args == [args[0]] + [];
    } else {
      ReadSpaced(args[1..], rest);
      var tail := SpacedTokens(args[1..]) + end;
      ReadGap(Space, tail, false);
      ReadOneArgument(args[0], [Space] + tail);
      RegroupArgs(TokenOf(args[0]), Space, SpacedTokens(args[1..]), end);
      assert args == [args[0]] + args[1..];
    }
  }

  lemma {:induction false} ReadWrapped(args: seq<string>, rest: seq<Token>, separated: bool)
    ensures ReadArguments(WrappedTokens(args) + ([Close] + rest), separated) == Some(Arguments(args, rest))
    decreases |args|
  {
    var end := [Close] + rest;
    ReadClose(rest, separated);
    if args == [] {
      assert WrappedTokens(args) + end == end;
    } else {
      ReadWrapped(args[1..], rest, true);
      var tail := WrappedTokens(args[1..]) + end;
      var line := [TokenOf(args[0])] + ([Newline] + tail);
      ReadGap(Newline, tail, false);
      ReadOneArgument(args[0], [Newline] + tail);
      ReadGap(Space, line, true);
      ReadGap(Space, [Space] + line, separated);
      RegroupLineTokens(TokenOf(args[0]), WrappedTokens(args[1..]), end);
      assert args == [args[0]] + args[1..];
    }
  }

  lemma IdentifierIsWord(name: string)
    requires IsIdentifier(name)
    ensures IsPlainWord(name)
  {
  }

  /** The tokens of one command, in either form. */
  function BodyTokens(c: Invocation, wrapped: bool, rest: seq<Token>): seq<Token> {
    var end := [Close] + ([Newline] + rest);
    var inner := if wrapped then [Newline] + (WrappedTokens(c.args) + end) else SpacedTokens(c.args) + end;
    [Word(c.name)] + ([Open] + inner)
  }

  lemma LexBody(lex: string -> seq<Token>, c: Invocation, rest: string) returns (wrapped: bool)
    requires ObeysRules(lex) && Readable(c)
    ensures lex(Body(c.name, c.args) + rest) == BodyTokens(c, wrapped, lex(rest))
  {
    wrapped := |c.name + "(" + JoinSpaced(c.args) + ")\n"| >= 80;
    var end := ")" + ("\n" + rest);
    assert lex(end) == [Close] + lex("\n" + rest) == [Close] + ([Newline] + lex(rest));
    if wrapped {
      LexWrappedBody(lex, c, rest, end);
    } else {
      LexSpacedBody(lex, c, rest, end);
    }
  }

  lemma RegroupWrapped(name: string, args: string, rest: string)
    ensures name + "(\n" + args + ")\n" + rest == name + ("(" + ("\n" + (args + (")" + ("\n" + rest)))))
  {
    assert "(\n" == "(" + "\n" && ")\n" == ")" + "\n";
  }

  lemma LexWrappedBody(lex: string -> seq<Token>, c: Invocation, rest: string, end: string)
    requires ObeysRules(lex) && Readable(c) && end == ")" + ("\n" + rest)
    requires lex(end) == [Close] + ([Newline] + lex(rest))
    ensures lex(c.name + "(\n" + Wrapped(c.args) + ")\n" + rest) == BodyTokens(c, true, lex(rest))
  {
    var args := Wrapped(c.args) + end;
    LexWrapped(lex, c.args, end);
    IdentifierIsWord(c.name);
    RegroupWrapped(c.name, Wrapped(c.args), rest);
    var tail := "\n" + args;
    assert lex(tail) == [Newline] + lex(args);
    assert lex("(" + tail) == [Open] + lex(tail);
    assert lex(c.name + ("(" + tail)) == [Word(c.name)] + lex("(" + tail);
  }

  lemma RegroupSingle(name: string, args: string, rest: string)
    ensures name + "(" + args + ")\n" + rest == name + ("(" + (args + (")" + ("\n" + rest))))
  {
    assert ")\n" == ")" + "\n";
  }

  lemma LexSpacedBody(lex: string -> seq<Token>, c: Invocation, rest: string, end: string)
    requires ObeysRules(lex) && Readable(c) && end == ")" + ("\n" + rest)
    requires lex(end) == [Close] + ([Newline] + lex(rest))
    ensures lex(c.name + "(" + JoinSpaced(c.args) + ")\n" + rest) == BodyTokens(c, false, lex(rest))
  {
    var args := JoinSpaced(c.args) + end;
    LexSpaced(lex, c.args, end);
    IdentifierIsWord(c.name);
    RegroupSingle(c.name, JoinSpaced(c.args), rest);
    assert lex("(" + args) == [Open] + lex(args);
    assert lex(c.name + ("(" + args)) == [Word(c.name)] + lex("(" + args);
  }

  /** One command whose arguments read as `r`, up to its line end. */
  lemma ReadCommand(name: string, inner: seq<Token>, args: seq<string>, rest: seq<Token>)
    requires IsIdentifier(name) && ReadArguments(inner, true) == Some(Arguments(args, [Newline] + rest))
    requires Read(rest).Some?
    ensures Read([Word(name)] + ([Open] + inner)) == Some([Invocation(name, args)] + Read(rest).value)
  {
    var tokens, call := [Word(name)] + ([Open] + inner), [Open] + inner;
    assert tokens[0] == Word(name) && tokens[1..] == call && call[0] == Open && call[1..] == inner;
    assert SkipSpace(tokens) == tokens && SkipSpace(call) == call;
    assert ([Newline] + rest)[1..] == rest;
  }

  lemma ReadBody(c: Invocation, wrapped: bool, rest: seq<Token>)
    requires Readable(c) && Read(rest).Some?
    ensures Read(BodyTokens(c, wrapped, rest)) == Some([c] + Read(rest).value)
  {
    var end := [Close] + ([Newline] + rest);
    if wrapped {
      ReadWrapped(c.args, [Newline] + rest, true);
      ReadGap(Newline, WrappedTokens(c.args) + end, true);
      ReadCommand(c.name, [Newline] + (WrappedTokens(c.args) + end), c.args, rest);
    } else {
      ReadSpaced(c.args, [Newline] + rest);
      ReadCommand(c.name, SpacedTokens(c.args) + end, c.args, rest);
    }
  }

  lemma {:induction false} ReadUndoesWriteBy(lex: string -> seq<Token>, last: Option<string>,
                                             commands: seq<Invocation>)
    requires ObeysRules(lex) && forall i :: 0 <= i < |commands| ==> Readable(commands[i])
    ensures Read(lex(WriteAll(last, commands))) == Some(commands)
    decreases |commands|
  {
    if commands != [] {
      var c := commands[0];
      var rest := WriteAll(Some(c.name), commands[1..]);
      ReadUndoesWriteBy(lex, Some(c.name), commands[1..]);
      var wrapped := LexBody(lex, c, rest);
      ReadBody(c, wrapped, lex(rest));
      assert commands == [c] + commands[1..];
      ReadAfterGap(lex, last, c.name, Body(c.name, c.args), rest);
    }
  }

  lemma ReadAfterGap(lex: string -> seq<Token>, last: Option<string>, name: string, body: string, rest: string)
    requires ObeysRules(lex)
    ensures Read(lex(Gap(last, name) + body + rest)) == Read(lex(body + rest))
  {
    if Gap(last, name) == "" {
      assert "" + body + rest == body + rest;
    } else {
      assert "\n" + body + rest == "\n" + (body + rest);
      ReadBlankLine(lex(body + rest));
    }
  }

  lemma ReadBlankLine(tokens: seq<Token>)
    ensures Read([Newline] + tokens) == Read(tokens)
  {
    var line := [Newline] + tokens;
    assert SkipSpace(line) == line && line[1..] == tokens;
  }

  /** Reading what the writer wrote gives back the commands in order, in both forms. */
  lemma ReadUndoesWrite(last: Option<string>, commands: seq<Invocation>)
    requires forall i :: 0 <= i < |commands| ==> Readable(commands[i])
    ensures Read(Lex(WriteAll(last, commands))) == Some(commands)
  {
    LexObeysRules();
    ReadUndoesWriteBy(Lex, last, commands);
  }

  lemma CommentOpensNoBracket(comment: string, rest: string)
    requires !OpensBracket(comment) && rest != "" && !IsWordChar(rest[0])
    ensures !OpensBracket(comment + rest)
  {
    if comment == "" {
      assert comment + rest == rest && IsWordChar('[');
    } else {
      OpensBracketInWord(comment, rest);
    }
  }

  /** Neither a word that opens a bracket argument nor two arguments side by side are read. */
  lemma ReaderIsStrict(rest: string, a: string, b: string, tokens: seq<Token>)
    ensures Lex("[" + ("[" + rest)) == [Bad]
    ensures ReadArguments([Quoted(a)] + ([Quoted(b)] + tokens), true) == None
  {
    var s := "[" + ("[" + rest);
    assert s[1..] == "[" + rest && s[1..][0] == '[';
    var more := [Quoted(b)] + tokens;
    assert ([Quoted(a)] + more)[1..] == more && more[0] == Quoted(b);
  }

  /** A comment line, as the header of the generated file, reads as an empty line. */
  lemma CommentIsSkipped(comment: string, rest: string)
    requires '\n' !in comment && !OpensBracket(comment)
    ensures Read(Lex("#" + comment + "\n" + rest)) == Read(Lex(rest))
  {
    var s := "#" + comment + "\n" + rest;
    FindAfter(comment, '\n', rest);
    assert s[1..] == comment + ['\n'] + rest == comment + (['\n'] + rest);
    assert s[1 + |comment|..] == ['\n'] + rest;
    CommentOpensNoBracket(comment, ['\n'] + rest);
    LexMark('\n', rest);
    ReadBlankLine(Lex(rest));
  }

  lemma {:induction false} FindAfter(a: string, c: char, b: string)
    requires c !in a
    ensures Find(a + [c] + b, c) == |a|
  {
    if a != "" {
      FindAfter(a[1..], c, b);
      assert (a + [c] + b)[1..] == a[1..] + [c] + b;
    }
  }

  // ----- the loop over all commands -----

  function LastName(last: Option<string>, commands: seq<Invocation>): Option<string> {
    if commands == [] then last else Some(commands[|commands| - 1].name)
  }

  lemma {:induction false} WriteAllSnoc(last: Option<string>, commands: seq<Invocation>, c: Invocation)
    ensures WriteAll(last, commands + [c])
         == WriteAll(last, commands) + Gap(LastName(last, commands), c.name) + Body(c.name, c.args)
    decreases |commands|
  {
    if commands == [] {
      assert commands + [c] == [c];
      WriteOne(last, c);
    } else {
      var d := commands[0];
      WriteAllSnoc(Some(d.name), commands[1..], c);
      assert (commands + [c])[1..] == commands[1..] + [c];
      RegroupFour(Gap(last, d.name) + Body(d.name, d.args), WriteAll(Some(d.name), commands[1..]),
                  Gap(LastName(last, commands), c.name), Body(c.name, c.args));
    }
  }

  lemma WriteOne(last: Option<string>, c: Invocation)
    ensures WriteAll(last, [c]) == Gap(last, c.name) + Body(c.name, c.args)
  {
    assert [c][1..] == [];
  }

  lemma RegroupFour(a: string, b: string, c: string, d: string)
    ensures a + (b + c + d) == a + b + c + d
  {
  }

  /** The commands that are not skipped. */
  function Kept(commands: seq<CMakeCommand>): seq<Invocation>
    requires forall i :: 0 <= i < |commands| ==> commands[i].args != []
    reads commands
  {
    if commands == [] then []
    else
      var front, last := Kept(commands[..|commands| - 1]), commands[|commands| - 1];
      if last.Skip() then front else front + [Invocation(last.args[0], last.args[1..])]
  }

  /** A writer that began with an empty file has written these commands. */
  ghost predicate Holds(text: string, last: Option<string>, kept: seq<Invocation>) {
    text == WriteAll(None, kept) && last == LastName(None, kept)
  }

  lemma HoldsNext(text: string, last: Option<string>, kept: seq<Invocation>, name: string, args: seq<string>)
    requires Holds(text, last, kept)
    ensures Holds(text + Gap(last, name) + Body(name, args), Some(name), kept + [Invocation(name, args)])
  {
    WriteAllSnoc(None, kept, Invocation(name, args));
  }

  lemma ReadBack(kept: seq<Invocation>, text: string)
    requires text == WriteAll(None, kept)
    ensures (forall i :: 0 <= i < |kept| ==> Readable(kept[i])) ==> Read(Lex(text)) == Some(kept)
  {
    if forall i :: 0 <= i < |kept| ==> Readable(kept[i]) {
      ReadUndoesWrite(None, kept);
    }
  }

  /** Writing commands to an empty file: it reads back as the commands that are not skipped. */
  method WriteCommands(commands: seq<CMakeCommand>) returns (text: string)
    requires forall i :: 0 <= i < |commands| ==> commands[i].args != []
    ensures text == WriteAll(None, Kept(commands))
    ensures (forall i :: 0 <= i < |Kept(commands)| ==> Readable(Kept(commands)[i])) ==>
              Read(Lex(text)) == Some(Kept(commands))
  {
    var writer := new Writer();
    for n := 0 to |commands|
      invariant Holds(writer.result, writer.lastCommand, Kept(commands[..n]))
    {
      assert commands[..n + 1][..n] == commands[..n];
      if !commands[n].Skip() {
        HoldsNext(writer.result, writer.lastCommand, Kept(commands[..n]), commands[n].args[0], commands[n].args[1..]);
      }
      writer.Write(commands[n]);
    }
    assert commands[..|commands|] == commands;
    text := writer.result;
    ReadBack(Kept(commands), text);
  }
}
