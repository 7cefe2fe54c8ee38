/** `IsCppString` of cpplint.py: a quote-parity computation that stands in for a lexer. */
module CppStrings {
  import opened Text

  const BACKSLASH_PAIR: string := "\\\\"
  const ESCAPED_QUOTE: string := "\\\""
  const QUOTE_CHAR: string := "'\"'"

  predicate IsCppString(line: string) {
    var cleaned := Replace(line, BACKSLASH_PAIR, "XX");
    (Count(cleaned, "\"") - Count(cleaned, ESCAPED_QUOTE) - Count(cleaned, QUOTE_CHAR)) % 2 == 1
  }

  // ----- two lexers; `escaped` says that an odd run of backslashes ends right here -----

  /** Is the end of the line inside a literal, if a backslash escapes the next character everywhere? */
  predicate EndsInString(line: string, inside: bool, escaped: bool) {
    if line == "" then inside
    else if line[0] == '"' && !escaped then EndsInString(line[1..], !inside, false)
    else EndsInString(line[1..], inside, line[0] == '\\' && !escaped)
  }

  /** Where a C++ lexer stands: in code, in a string literal or in a character literal. */
  datatype Mode = Code | Str | Chr

  /** Literals are delimited by quotes that are not escaped inside them; nothing is escaped in code. */
  function NextMode(mode: Mode, escaped: bool, c: char): Mode {
    match mode
    case Code => if c == '"' then Str else if c == '\'' then Chr else Code
    case Str => if c == '"' && !escaped then Code else Str
    case Chr => if c == '\'' && !escaped then Code else Chr
  }

  function CppMode(line: string, mode: Mode, escaped: bool): Mode {
    if line == "" then mode
    else CppMode(line[1..], NextMode(mode, escaped, line[0]), line[0] == '\\' && !escaped)
  }

  predicate CppEndsInString(line: string) { CppMode(line, Code, false) == Str }

  /** The double quotes that only one of the two lexers takes for a delimiter: those that open a
      literal right after an odd run of backslashes, and those that stand, not escaped, in a
      character literal. */
  function Misread(line: string, mode: Mode, escaped: bool): nat {
    if line == "" then 0
    else
      (if line[0] == '"' && (if mode == Code then escaped else mode == Chr && !escaped) then 1 else 0)
      + Misread(line[1..], NextMode(mode, escaped, line[0]), line[0] == '\\' && !escaped)
  }

  // ----- the parity computation -----

  lemma CountSkip(c: char, s: string, sub: string)
    requires sub != "" && c != sub[0]
    ensures Count([c] + s, sub) == Count(s, sub)
  {
    assert ([c] + s)[1..] == s;
    FirstDiffers([c] + s, sub);
  }

  lemma CountHit(sub: string, s: string)
    requires sub != ""
    ensures Count(sub + s, sub) == 1 + Count(s, sub)
  {
    assert (sub + s)[..|sub|] == sub && (sub + s)[|sub|..] == s;
  }

  function Quotes(s: string): int {
    Count(s, "\"") - Count(s, ESCAPED_QUOTE)
  }

  lemma QuotesStep(c: char, s: string)
    requires c != '\\'
    ensures Quotes([c] + s) == Quotes(s) + if c == '"' then 1 else 0
  {
    CountSkip(c, s, ESCAPED_QUOTE);
    if c == '"' {
      assert [c] == "\"";
      CountHit("\"", s);
    } else {
      CountSkip(c, s, "\"");
    }
  }

  lemma QuotesEscape(x: char, s: string)
    requires x != '\\'
    ensures Quotes(['\\', x] + s) == Quotes(s)
  {
    assert ['\\', x] + s == ['\\'] + ([x] + s);
    CountSkip('\\', [x] + s, "\"");
    if x == '"' {
      assert ['\\', x] == ESCAPED_QUOTE;
      CountHit(ESCAPED_QUOTE, s);
      assert [x] == "\"";
      CountHit("\"", s);
    } else {
      CountSkip(x, s, "\"");
      assert (['\\', x] + s)[1..] == [x] + s;
      assert (['\\', x] + s)[..2][1] != ESCAPED_QUOTE[1];
      CountSkip(x, s, ESCAPED_QUOTE);
    }
  }

  function Cleaned(line: string): string { Replace(line, BACKSLASH_PAIR, "XX") }

  /** Counting quotes in the cleaned text follows the lexer. */
  lemma {:induction false} QuotesFollowLexer(line: string, inside: bool)
    ensures EndsInString(line, inside, false) == (inside != (Quotes(Cleaned(line)) % 2 == 1))
    decreases |line|
  {
    if line == "" {
    } else if line[0] != '\\' {
      FirstDiffers(line, BACKSLASH_PAIR);
      QuotesStep(line[0], Cleaned(line[1..]));
      QuotesFollowLexer(line[1..], if line[0] == '"' then !inside else inside);
    } else if |line| == 1 {
      assert line == "\\" && Cleaned(line) == "\\" + Cleaned("") == "\\";
      CountSkip('\\', "", "\"");
    } else {
      var rest := line[2..];
      assert line[1..][1..] == rest;
      assert EndsInString(line, inside, false) == EndsInString(line[1..], inside, true);
      assert EndsInString(line[1..], inside, true) == EndsInString(rest, inside, false);
      QuotesFollowLexer(rest, inside);
      if line[1] == '\\' {
        assert line[..2] == BACKSLASH_PAIR;
        assert "XX" + Cleaned(rest) == ['X'] + (['X'] + Cleaned(rest));
        QuotesStep('X', ['X'] + Cleaned(rest));
        QuotesStep('X', Cleaned(rest));
      } else {
        assert line[..2] != BACKSLASH_PAIR by { assert line[..2][1] != '\\'; }
        assert line[1..][0] != '\\';
        FirstDiffers(line[1..], BACKSLASH_PAIR);
        assert Cleaned(line[1..]) == [line[1]] + Cleaned(rest);
        assert Cleaned(line) == ['\\'] + Cleaned(line[1..]) == ['\\', line[1]] + Cleaned(rest);
        QuotesEscape(line[1], Cleaned(rest));
      }
    }
  }

  lemma {:induction false} CleanedKeepsOut(line: string, c: char)
    requires c !in line && c != 'X'
    ensures c !in Cleaned(line)
    decreases |line|
  {
    if line != "" {
      if StartsWith(line, BACKSLASH_PAIR) {
        CleanedKeepsOut(line[2..], c);
      } else {
        CleanedKeepsOut(line[1..], c);
      }
    }
  }

  lemma {:induction false} CountAbsent(s: string, sub: string)
    requires sub != "" && sub[0] !in s
    ensures Count(s, sub) == 0
    decreases |s|
  {
    if |s| >= |sub| {
      assert s[0] in s;
      FirstDiffers(s, sub);
      CountAbsent(s[1..], sub);
    }
  }

  /** The parity is the verdict of the lexer, turned around by every `'"'` that is subtracted. */
  lemma IsCppStringIsLexer(line: string)
    ensures IsCppString(line) <==> EndsInString(line, false, false) != (Count(Cleaned(line), QUOTE_CHAR) % 2 == 1)
  {
    QuotesFollowLexer(line, false);
  }

  /** On a line without single quotes nothing is subtracted. */
  lemma IsCppStringWithoutSingleQuotes(line: string)
    requires '\'' !in line
    ensures IsCppString(line) <==> EndsInString(line, false, false)
  {
    IsCppStringIsLexer(line);
    CleanedKeepsOut(line, '\'');
    CountAbsent(Cleaned(line), QUOTE_CHAR);
  }

  lemma {:induction false} LexersDiffer(line: string, inside: bool, mode: Mode, escaped: bool)
    ensures EndsInString(line, inside, escaped) == (CppMode(line, mode, escaped) == Str)
            <==> (inside == (mode == Str) <==> Misread(line, mode, escaped) % 2 == 0)
    decreases |line|
  {
    if line != "" {
      LexersDiffer(line[1..], if line[0] == '"' && !escaped then !inside else inside,
                   NextMode(mode, escaped, line[0]), line[0] == '\\' && !escaped);
    }
  }

  /** For every line: `IsCppString` agrees with the C++ lexer exactly when the double quotes that
      are misread and the `'"'` that are subtracted are together even in number. */
  lemma IsCppStringVersusCpp(line: string)
    ensures (IsCppString(line) <==> CppEndsInString(line))
            <==> (Misread(line, Code, false) + Count(Cleaned(line), QUOTE_CHAR)) % 2 == 0
  {
    IsCppStringIsLexer(line);
    LexersDiffer(line, false, Code, false);
  }

  /** No backslash stands outside literals, as in C++ without line continuations. */
  predicate CodeHasNoBackslash(line: string, mode: Mode, escaped: bool) {
    line == ""
    || (!(mode == Code && line[0] == '\\')
        && CodeHasNoBackslash(line[1..], NextMode(mode, escaped, line[0]), line[0] == '\\' && !escaped))
  }

  /** On a line without single quotes and without a backslash in code the verdict is that of C++. */
  lemma IsCppStringIsCpp(line: string)
    requires '\'' !in line && CodeHasNoBackslash(line, Code, false)
    ensures IsCppString(line) <==> CppEndsInString(line)
  {
    TameWithoutSingleQuotes(line, false);
    IsCppStringOnTameLines(line);
  }

  /** Outside string literals there is no backslash and no single quote but in `'"'`; inside them
      nothing reads as a `'"'`. */
  predicate Tame(line: string, inString: bool)
    decreases |line|
  {
    if line == "" then true
    else if !inString then
      if line[0] == '\'' then StartsWith(line, "'\"'") && Tame(line[3..], false)
      else line[0] != '\\' && Tame(line[1..], line[0] == '"')
    else if line[0] != '\\' then !StartsWith(line, "'\"'") && Tame(line[1..], line[0] != '"')
    else |line| == 1 || (!StartsWith(line[1..], "'\"'") && Tame(line[2..], true))
  }

  lemma {:induction false} TameWithoutSingleQuotes(line: string, inString: bool)
    requires '\'' !in line && CodeHasNoBackslash(line, if inString then Str else Code, false)
    ensures Tame(line, inString)
    decreases |line|
  {
    if line != "" {
      assert line[0] in line;
      FirstDiffers(line, "'\"'");
      if line[0] != '\\' {
        TameWithoutSingleQuotes(line[1..], if inString then line[0] != '"' else line[0] == '"');
      } else if |line| > 1 {
        assert line[1] in line;
        FirstDiffers(line[1..], "'\"'");
        assert line[1..][1..] == line[2..];
        TameWithoutSingleQuotes(line[2..], true);
      }
    }
  }

  lemma CleanedFirst(c: char, rest: string)
    requires c != '\\'
    ensures Cleaned([c] + rest) == [c] + Cleaned(rest)
  {
    FirstDiffers([c] + rest, BACKSLASH_PAIR);
    assert ([c] + rest)[1..] == rest;
  }

  /** Cleaning makes no new `'"'`. */
  lemma NoNewQuoteChar(rest: string)
    requires !StartsWith(['\''] + rest, QUOTE_CHAR)
    ensures Count(['\''] + Cleaned(rest), QUOTE_CHAR) == Count(Cleaned(rest), QUOTE_CHAR)
  {
    var s := ['\''] + Cleaned(rest);
    assert s[1..] == Cleaned(rest);
    if |rest| >= 2 && rest[0] == '"' {
      CleanedFirst('"', rest[1..]);
      assert rest == ['"'] + rest[1..];
      assert (['\''] + rest)[..3] == ['\'', rest[0], rest[1]];
      assert rest[1] != '\'';
      if StartsWith(rest[1..], BACKSLASH_PAIR) {
        assert s[2] == 'X';
      } else {
        assert s[2] == rest[1];
      }
    } else if rest != "" && rest[0] == '"' {
      assert rest == ['"'] + "";
      CleanedFirst('"', "");
    } else if rest != "" {
      assert s[1] != '"';
    }
  }

  lemma CountNext(c: char, rest: string)
    requires !StartsWith([c] + rest, QUOTE_CHAR)
    ensures Count([c] + Cleaned(rest), QUOTE_CHAR) == Count(Cleaned(rest), QUOTE_CHAR)
  {
    if c == '\'' {
      NoNewQuoteChar(rest);
    } else {
      CountSkip(c, Cleaned(rest), QUOTE_CHAR);
    }
  }

  /** On such a line the misread quotes are exactly those of the `'"'`. */
  lemma {:induction false} MisreadAreCounted(line: string, inString: bool)
    requires Tame(line, inString)
    ensures Misread(line, if inString then Str else Code, false) == Count(Cleaned(line), QUOTE_CHAR)
    decreases |line|
  {
    if line == "" {
    } else if line[0] == '\\' {
      if |line| == 1 {
        assert line == "\\" && Cleaned(line) == "\\" + Cleaned("") == "\\";
      } else {
        MisreadEscape(line);
        MisreadAreCounted(line[2..], true);
      }
    } else if !inString && line[0] == '\'' {
      MisreadAreCounted(line[3..], false);
      MisreadQuoteChar(line);
    } else {
      MisreadAreCounted(line[1..], if inString then line[0] != '"' else line[0] == '"');
      assert line == [line[0]] + line[1..];
      CleanedFirst(line[0], line[1..]);
      CountNext(line[0], line[1..]);
    }
  }

  lemma MisreadFirst(c: char, rest: string, mode: Mode, escaped: bool)
    ensures Misread([c] + rest, mode, escaped)
         == Misread(rest, NextMode(mode, escaped, c), c == '\\' && !escaped)
            + if c == '"' && (if mode == Code then escaped else mode == Chr && !escaped) then 1 else 0
  {
    assert ([c] + rest)[1..] == rest;
  }

  lemma MisreadQuoteChar(line: string)
    requires StartsWith(line, "'\"'")
    ensures Misread(line, Code, false) == 1 + Misread(line[3..], Code, false)
    ensures Count(Cleaned(line), QUOTE_CHAR) == 1 + Count(Cleaned(line[3..]), QUOTE_CHAR)
  {
    var rest := line[3..];
    var b := ['\''] + rest;
    var a := ['"'] + b;
    assert line == ['\''] + a;
    MisreadFirst('\'', a, Code, false);
    MisreadFirst('"', b, Chr, false);
    MisreadFirst('\'', rest, Chr, false);
    CountedQuoteChar(line, a, b, rest);
  }

  lemma CountedQuoteChar(line: string, a: string, b: string, rest: string)
    requires line == ['\''] + a && a == ['"'] + b && b == ['\''] + rest
    ensures Count(Cleaned(line), QUOTE_CHAR) == 1 + Count(Cleaned(rest), QUOTE_CHAR)
  {
    CleanedFirst('\'', a);
    CleanedFirst('"', b);
    CleanedFirst('\'', rest);
    assert ['\''] + (['"'] + (['\''] + Cleaned(rest))) == QUOTE_CHAR + Cleaned(rest);
    CountHit(QUOTE_CHAR, Cleaned(rest));
  }

  lemma MisreadEscape(line: string)
    requires |line| >= 2 && line[0] == '\\' && !StartsWith(line[1..], "'\"'")
    ensures Misread(line, Str, false) == Misread(line[2..], Str, false)
    ensures Count(Cleaned(line), QUOTE_CHAR) == Count(Cleaned(line[2..]), QUOTE_CHAR)
  {
    var x, rest := line[1], line[2..];
    var more := [x] + rest;
    assert line == ['\\'] + more && line[1..] == more;
    MisreadFirst('\\', more, Str, false);
    MisreadFirst(x, rest, Str, true);
    CountedEscape(line, x, rest);
  }

  lemma CountedEscape(line: string, x: char, rest: string)
    requires line == ['\\'] + ([x] + rest) && !StartsWith([x] + rest, QUOTE_CHAR)
    ensures Count(Cleaned(line), QUOTE_CHAR) == Count(Cleaned(rest), QUOTE_CHAR)
  {
    assert line[2..] == rest && line[1..] == [x] + rest && line[..2] == ['\\', x];
    if x == '\\' {
      assert "XX" + Cleaned(rest) == ['X'] + (['X'] + Cleaned(rest));
      CountSkip('X', ['X'] + Cleaned(rest), QUOTE_CHAR);
      CountSkip('X', Cleaned(rest), QUOTE_CHAR);
    } else {
      CleanedFirst(x, rest);
      CountSkip('\\', [x] + Cleaned(rest), QUOTE_CHAR);
      CountNext(x, rest);
    }
  }

  /** On a tame line, character literals of a double quote included, the verdict is that of C++. */
  lemma IsCppStringOnTameLines(line: string)
    requires Tame(line, false)
    ensures IsCppString(line) <==> CppEndsInString(line)
  {
    MisreadAreCounted(line, false);
    IsCppStringVersusCpp(line);
  }

  /** A literal opened right after one backslash is missed. */
  lemma IsCppStringMissesOpening()
    ensures !IsCppString("\\\"") && CppEndsInString("\\\"")
  {
    IsCppStringWithoutSingleQuotes("\\\"");
    assert "\\\""[1..] == "\"" && "\""[1..] == "";
  }

  /** The character literal of one double quote is recognized. */
  lemma IsCppStringKnowsQuoteChar()
    ensures !IsCppString("'\"'") && !CppEndsInString("'\"'")
  {
    var line := "'\"'";
    assert line[1..] == "\"'" && "\"'"[1..] == "'" && "'"[1..] == "";
    assert Misread(line, Code, false) == 1;
    CleanedPlain(line);
    assert line + "" == line;
    CountHit(QUOTE_CHAR, "");
    IsCppStringVersusCpp(line);
  }

  lemma {:induction false} CleanedPlain(line: string)
    requires '\\' !in line
    ensures Cleaned(line) == line
  {
    if line != "" {
      FirstDiffers(line, BACKSLASH_PAIR);
      CleanedPlain(line[1..]);
    }
  }
}
