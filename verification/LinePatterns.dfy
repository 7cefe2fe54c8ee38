/** The patterns that cpplint.py's `NestingState` applies to a line, each as a scan of the text and,
    proved to be the same, by the parts that the regular expression names. */
module LinePatterns {
  import opened Text

  // ----- preprocessor directives -----

  datatype Directive = If | Else | Endif | NoDirective

  function LeadingWord(s: string): string {
    if s == "" || !IsWord(s[0]) then "" else [s[0]] + LeadingWord(s[1..])
  }

  /** Which of the three patterns `^\s*#\s*(...)\b` matches the line. */
  function DirectiveOf(text: string): Directive {
    var t := TrimStart(text);
    if t == "" || t[0] != '#' then NoDirective
    else
      WordDirective(LeadingWord(TrimStart(t[1..])))
  }

  function WordDirective(word: string): Directive {
    if word == "if" || word == "ifdef" || word == "ifndef" then If
    else if word == "else" || word == "elif" then Else
    else if word == "endif" then Endif
    else NoDirective
  }

  /** The text by its parts: `#` and a keyword, blanks around the `#`, and no word character after. */
  ghost predicate DirectiveParts(text: string, u: string, v: string, keyword: string, rest: string) {
    && text == u + ("#" + (v + (keyword + rest))) && AllSpace(u) && AllSpace(v)
    && (rest == "" || !IsWord(rest[0]))
  }

  ghost predicate HasDirective(text: string, keyword: string) {
    exists u, v, rest :: DirectiveParts(text, u, v, keyword, rest)
  }

  predicate IsKeyword(word: string) {
    word != "" && forall i :: 0 <= i < |word| ==> IsWord(word[i])
  }

  lemma {:induction false} LeadingWordIs(word: string, rest: string)
    requires (forall i :: 0 <= i < |word| ==> IsWord(word[i])) && (rest == "" || !IsWord(rest[0]))
    ensures LeadingWord(word + rest) == word
    decreases |word|
  {
    if word == "" {
      assert word + rest == rest;
    } else {
      LeadingWordIs(word[1..], rest);
      assert (word + rest)[1..] == word[1..] + rest;
    }
  }

  lemma {:induction false} LeadingWordCuts(s: string)
    ensures LeadingWord(s) <= s && forall i :: 0 <= i < |LeadingWord(s)| ==> IsWord(LeadingWord(s)[i])
    ensures |LeadingWord(s)| < |s| ==> !IsWord(s[|LeadingWord(s)|])
  {
    if s != "" && IsWord(s[0]) {
      LeadingWordCuts(s[1..]);
    }
  }

  lemma PartsAreRead(text: string, u: string, v: string, keyword: string, rest: string)
    requires IsKeyword(keyword) && DirectiveParts(text, u, v, keyword, rest)
    ensures ReadsWord(text, keyword)
  {
    var word := keyword + rest;
    var t := "#" + (v + word);
    TrimStartIs(u, t);
    assert t[1..] == v + word;
    WordIsNoSpace(keyword[0]);
    TrimStartIs(v, word);
    LeadingWordIs(keyword, rest);
  }

  lemma WordIsNoSpace(c: char)
    requires IsWord(c)
    ensures !IsSpace(c)
  {
  }

  lemma ReadHasParts(text: string, t: string, w: string)
    requires t == TrimStart(text) && t != "" && t[0] == '#' && w == TrimStart(t[1..])
    ensures HasDirective(text, LeadingWord(w))
  {
    var u := TrimStartSplits(text);
    var v := TrimStartSplits(t[1..]);
    LeadingWordCuts(w);
    PartsTogether(text, u, t, v, w, LeadingWord(w), w[|LeadingWord(w)|..]);
  }

  lemma PartsTogether(text: string, u: string, t: string, v: string, w: string, keyword: string, rest: string)
    requires text == u + t && t != "" && t[0] == '#' && t[1..] == v + w && keyword <= w && rest == w[|keyword|..]
    requires AllSpace(u) && AllSpace(v) && (rest == "" || !IsWord(rest[0]))
    ensures HasDirective(text, keyword)
  {
    assert w == keyword + rest && t == "#" + (v + w);
    assert DirectiveParts(text, u, v, keyword, rest);
  }

  /** The scan reads this word after a `#`. */
  predicate ReadsWord(text: string, word: string) {
    var t := TrimStart(text);
    t != "" && t[0] == '#' && LeadingWord(TrimStart(t[1..])) == word
  }

  lemma KeywordMeaning(text: string, keyword: string)
    requires IsKeyword(keyword)
    ensures HasDirective(text, keyword) <==> ReadsWord(text, keyword)
  {
    if u, v, rest :| DirectiveParts(text, u, v, keyword, rest) {
      PartsAreRead(text, u, v, keyword, rest);
    }
    var t := TrimStart(text);
    if t != "" && t[0] == '#' {
      ReadHasParts(text, t, TrimStart(t[1..]));
    }
  }

  predicate OpensConditional(word: string) { word == "if" || word == "ifdef" || word == "ifndef" }

  predicate ContinuesConditional(word: string) { word == "else" || word == "elif" }

  predicate EndsConditional(word: string) { word == "endif" }

  lemma Keywords(word: string)
    requires OpensConditional(word) || ContinuesConditional(word) || EndsConditional(word)
    ensures IsKeyword(word)
  {
  }

  lemma WordDirectiveMeaning(word: string)
    ensures WordDirective(word) == If <==> OpensConditional(word)
    ensures WordDirective(word) == Else <==> ContinuesConditional(word)
    ensures WordDirective(word) == Endif <==> EndsConditional(word)
  {
  }

  /** A line is a directive exactly if it is of the form of one of the three patterns. */
  lemma DirectiveMeaning(text: string)
    ensures DirectiveOf(text) == If <==> exists k :: OpensConditional(k) && HasDirective(text, k)
    ensures DirectiveOf(text) == Else <==> exists k :: ContinuesConditional(k) && HasDirective(text, k)
    ensures DirectiveOf(text) == Endif <==> exists k :: EndsConditional(k) && HasDirective(text, k)
  {
    forall k | (OpensConditional(k) || ContinuesConditional(k) || EndsConditional(k)) && HasDirective(text, k)
      ensures DirectiveOf(text) == If <==> OpensConditional(k)
      ensures DirectiveOf(text) == Else <==> ContinuesConditional(k)
      ensures DirectiveOf(text) == Endif <==> EndsConditional(k)
    {
      Keywords(k);
      KeywordMeaning(text, k);
      assert DirectiveOf(text) == WordDirective(k);
      WordDirectiveMeaning(k);
    }
    if DirectiveOf(text) != NoDirective {
      var k := LeadingWord(TrimStart(TrimStart(text)[1..]));
      WordDirectiveMeaning(k);
      Keywords(k);
      KeywordMeaning(text, k);
      assert DirectiveOf(text) == WordDirective(k);
    }
  }

  // ----- what opens a block -----

  /** `Match(r'^extern\s*"[^"]*"\s*\{', line)` */
  predicate MatchesExtern(line: string) {
    && StartsWith(line, "extern")
    && var t := TrimStart(line[6..]);
       && t != "" && t[0] == '"'
       && exists q :: 0 < q < |t| && t[q] == '"' && '"' !in t[1..q] && StartsWith(TrimStart(t[q + 1..]), "{")
  }

  /** `_MATCH_ASM`: an asm keyword, an optional `volatile`, then `{` or `(`. */
  predicate MatchesAsm(line: string) {
    var t := TrimStart(line);
    AsmAfter(t, "asm") || AsmAfter(t, "_asm") || AsmAfter(t, "__asm") || AsmAfter(t, "__asm__")
  }

  predicate AsmAfter(t: string, word: string) {
    StartsWith(t, word) && (AsmBody(t[|word|..]) || AsmVolatile(t[|word|..]))
  }

  predicate AsmBody(t: string) {
    var u := TrimStart(t);
    u != "" && (u[0] == '{' || u[0] == '(')
  }

  predicate AsmVolatile(t: string) {
    t != "" && IsSpace(t[0]) && (BodyAfter(TrimStart(t), "volatile") || BodyAfter(TrimStart(t), "__volatile__"))
  }

  predicate BodyAfter(t: string, word: string) {
    StartsWith(t, word) && AsmBody(t[|word|..])
  }

  /** The text by the parts of the first pattern. */
  ghost predicate ExternParts(line: string, s: string, language: string, v: string, rest: string) {
    && line == "extern" + (s + ("\"" + (language + ("\"" + (v + ("{" + rest))))))
    && AllSpace(s) && AllSpace(v) && '"' !in language
  }

  ghost predicate HasExternParts(line: string) {
    exists s, language, v, rest :: ExternParts(line, s, language, v, rest)
  }

  lemma ExternPartsMatch(line: string, s: string, language: string, v: string, rest: string)
    requires ExternParts(line, s, language, v, rest)
    ensures MatchesExtern(line)
  {
    var brace := "{" + rest;
    var tail := v + brace;
    var t := "\"" + (language + ("\"" + tail));
    WordThen("extern", s + t);
    TrimStartIs(s, t);
    TrimStartIs(v, brace);
    WordThen("{", rest);
    QuotedParts(t, language, tail);
  }

  lemma WordThen(word: string, rest: string)
    ensures StartsWith(word + rest, word) && (word + rest)[|word|..] == rest
  {
  }

  lemma QuotedParts(t: string, language: string, tail: string)
    requires t == "\"" + (language + ("\"" + tail))
    ensures var q := |language| + 1; q < |t| && t[q] == '"' && t[1..q] == language && t[q + 1..] == tail
  {
  }

  lemma ExternTogether(line: string, s: string, t: string, q: nat, v: string, w: string)
    requires "extern" <= line && line[6..] == s + t && AllSpace(s) && AllSpace(v)
    requires 0 < q < |t| && t[0] == t[q] == '"' && '"' !in t[1..q] && t[q + 1..] == v + w && "{" <= w
    ensures HasExternParts(line)
  {
    assert w == "{" + w[1..];
    assert t == "\"" + (t[1..q] + ("\"" + (v + w)));
    assert line == "extern" + line[6..];
    assert ExternParts(line, s, t[1..q], v, w[1..]);
  }

  /** `^extern\s*"[^"]*"\s*\{`, said by the parts of the text. */
  lemma ExternMeaning(line: string)
    ensures MatchesExtern(line) <==> HasExternParts(line)
  {
    if MatchesExtern(line) {
      var t := TrimStart(line[6..]);
      var q :| 0 < q < |t| && t[q] == '"' && '"' !in t[1..q] && StartsWith(TrimStart(t[q + 1..]), "{");
      var s := TrimStartSplits(line[6..]);
      var v := TrimStartSplits(t[q + 1..]);
      ExternTogether(line, s, t, q, v, TrimStart(t[q + 1..]));
    }
    if s, language, v, rest :| ExternParts(line, s, language, v, rest) {
      ExternPartsMatch(line, s, language, v, rest);
    }
  }

  predicate IsAsmWord(word: string) { word == "asm" || word == "_asm" || word == "__asm" || word == "__asm__" }

  predicate IsVolatile(word: string) { word == "volatile" || word == "__volatile__" }

  /** The text by the parts of `_MATCH_ASM`; `middle` is empty, or blanks and a `volatile`. */
  ghost predicate AsmParts(line: string, u: string, word: string, middle: string, v: string, rest: string) {
    && line == u + (word + (middle + (v + rest)))
    && AllSpace(u) && IsAsmWord(word) && AllSpace(v) && IsAsmMiddle(middle)
    && rest != "" && (rest[0] == '{' || rest[0] == '(')
  }

  ghost predicate HasAsmParts(line: string) {
    exists u, word, middle, v, rest :: AsmParts(line, u, word, middle, v, rest)
  }

  ghost predicate IsAsmMiddle(middle: string) {
    middle == "" || exists s, word :: s != "" && AllSpace(s) && IsVolatile(word) && middle == s + word
  }

  lemma AsmBodyIs(v: string, rest: string)
    requires AllSpace(v) && rest != "" && (rest[0] == '{' || rest[0] == '(')
    ensures AsmBody(v + rest)
  {
    TrimStartIs(v, rest);
  }

  lemma AsmVolatileIs(s: string, word: string, v: string, rest: string)
    requires s != "" && AllSpace(s) && IsVolatile(word) && AllSpace(v)
    requires rest != "" && (rest[0] == '{' || rest[0] == '(')
    ensures AsmVolatile(s + (word + (v + rest)))
  {
    var t := word + (v + rest);
    TrimStartIs(s, t);
    AsmBodyIs(v, rest);
    assert t[|word|..] == v + rest;
    assert BodyAfter(t, word);
    assert (s + t)[0] == s[0];
  }

  lemma AsmPartsMatch(line: string, u: string, word: string, middle: string, v: string, rest: string)
    requires AsmParts(line, u, word, middle, v, rest)
    ensures MatchesAsm(line)
  {
    var more := middle + (v + rest);
    TrimStartIs(u, word + more);
    AsmMiddleMatches(middle, v, rest);
    AsmAfterIs(word, more);
  }

  lemma AsmAfterIs(word: string, more: string)
    requires AsmBody(more) || AsmVolatile(more)
    ensures AsmAfter(word + more, word)
  {
    assert (word + more)[|word|..] == more;
  }

  lemma AsmMiddleMatches(middle: string, v: string, rest: string)
    requires IsAsmMiddle(middle) && AllSpace(v) && rest != "" && (rest[0] == '{' || rest[0] == '(')
    ensures AsmBody(middle + (v + rest)) || AsmVolatile(middle + (v + rest))
  {
    if middle == "" {
      assert middle + (v + rest) == v + rest;
      AsmBodyIs(v, rest);
    } else {
      var s, w :| s != "" && AllSpace(s) && IsVolatile(w) && middle == s + w;
      AsmVolatileIs(s, w, v, rest);
      Regroup(s, w, v + rest);
    }
  }

  lemma Regroup(a: string, b: string, c: string)
    ensures (a + b) + c == a + (b + c)
  {
  }

  lemma SomeSpace(more: string, s: string, t: string)
    requires more == s + t && more != "" && IsSpace(more[0]) && (t == "" || !IsSpace(t[0]))
    ensures s != ""
  {
    assert s == "" ==> more == t;
  }

  lemma AsmAfterParts(line: string, u: string, t: string, word: string)
    requires line == u + t && AllSpace(u) && IsAsmWord(word) && AsmAfter(t, word)
    ensures HasAsmParts(line)
  {
    var more := t[|word|..];
    assert t == word + more;
    if AsmBody(more) {
      var v := TrimStartSplits(more);
      assert more == "" + (v + TrimStart(more));
      assert AsmParts(line, u, word, "", v, TrimStart(more));
    } else {
      var s := TrimStartSplits(more);
      SomeSpace(more, s, TrimStart(more));
      if BodyAfter(TrimStart(more), "volatile") {
        VolatileParts(line, u, word, more, "volatile", s, TrimStart(more));
      } else {
        VolatileParts(line, u, word, more, "__volatile__", s, TrimStart(more));
      }
    }
  }

  lemma VolatileParts(line: string, u: string, word: string, more: string, k: string, s: string, t: string)
    requires line == u + (word + more) && more == s + t && AllSpace(u) && IsAsmWord(word)
    requires s != "" && AllSpace(s) && IsVolatile(k) && BodyAfter(t, k)
    ensures HasAsmParts(line)
  {
    var v := TrimStartSplits(t[|k|..]);
    VolatileTogether(line, u, word, s, k, v, TrimStart(t[|k|..]), more, t);
  }

  lemma VolatileTogether(line: string, u: string, word: string, s: string, k: string, v: string, rest: string,
                         more: string, t: string)
    requires line == u + (word + more) && more == s + t && k <= t && t[|k|..] == v + rest
    requires AllSpace(u) && IsAsmWord(word) && s != "" && AllSpace(s) && IsVolatile(k) && AllSpace(v)
    requires rest != "" && (rest[0] == '{' || rest[0] == '(')
    ensures HasAsmParts(line)
  {
    assert t == k + (v + rest);
    assert more == (s + k) + (v + rest);
    assert IsAsmMiddle(s + k);
    assert AsmParts(line, u, word, s + k, v, rest);
  }

  /** `_MATCH_ASM`, said by the parts of the text. */
  lemma AsmMeaning(line: string)
    ensures MatchesAsm(line) <==> HasAsmParts(line)
  {
    if MatchesAsm(line) {
      var t := TrimStart(line);
      var u := TrimStartSplits(line);
      if AsmAfter(t, "asm") {
        AsmAfterParts(line, u, t, "asm");
      } else if AsmAfter(t, "_asm") {
        AsmAfterParts(line, u, t, "_asm");
      } else if AsmAfter(t, "__asm") {
        AsmAfterParts(line, u, t, "__asm");
      } else {
        AsmAfterParts(line, u, t, "__asm__");
      }
    }
    if u, word, middle, v, rest :| AsmParts(line, u, word, middle, v, rest) {
      AsmPartsMatch(line, u, word, middle, v, rest);
    }
  }
}
