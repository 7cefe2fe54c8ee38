/** The byte-emitting loop of binary_to_array.py, and a reader of its array initializer. */
module ByteArray {
  import opened Text

  const WIDTH := 12

  type Byte = b: nat | b < 256

  function HexDigit(d: nat): char
    requires d < 16
  {
    if d < 10 then ('0' as int + d) as char else ('a' as int + d - 10) as char
  }

  /** `"0x%02x," % b` */
  function Item(b: Byte): string {
    ['0', 'x', HexDigit(b / 16), HexDigit(b % 16), ',']
  }

  function Items(row: seq<Byte>): string {
    if row == [] then "" else Items(row[..|row| - 1]) + " " + Item(row[|row| - 1])
  }

  /** A line of the array: two blanks before the first byte and one before every other. */
  function Line(row: seq<Byte>): string {
    if row == [] then "" else " " + Items(row)
  }

  /** Full rows of `WIDTH` bytes, and a last row that is shorter and may be empty. */
  function Rows(input: seq<Byte>): seq<seq<Byte>> {
    if |input| < WIDTH then [input] else [input[..WIDTH]] + Rows(input[WIDTH..])
  }

  function Lines(rows: seq<seq<Byte>>): (lines: seq<string>)
    ensures |lines| == |rows|
    ensures forall k :: 0 <= k < |rows| ==> lines[k] == Line(rows[k])
  {
    seq(|rows|, k requires 0 <= k < |rows| => Line(rows[k]))
  }

  /** The lines of bytes between the braces of the array. */
  method EmitBytes(input: seq<Byte>) returns (data: seq<string>)
    ensures data == Lines(Rows(input))
  {
    data := [];
    var line := "";
    ghost var done := 0;
    for idx := 0 to |input|
      invariant Emitted(input, done, idx, data, line)
    {
      ghost var gap, item := if idx % WIDTH == 0 then "  " else " ", Item(input[idx]);
      EmittedStep(input, done, idx, data, line, gap, item);
      if idx % WIDTH == 0 {
        line := line + "  ";
      } else {
        line := line + " ";
      }
      line := line + Item(input[idx]);
      if idx % WIDTH == WIDTH - 1 {
        data := data + [line];
        line := "";
        done := idx + 1;
      }
    }
    LastRow(input, done, data, line);
    data := data + [line];
  }

  /** `data` holds the full rows of `input[..done]`, and `line` the bytes up to `idx`. */
  ghost predicate Emitted(input: seq<Byte>, done: nat, idx: nat, data: seq<string>, line: string) {
    && done <= idx <= |input| && idx < done + WIDTH && done % WIDTH == 0
    && line == Line(input[done..idx])
    && data + Lines(Rows(input[done..])) == Lines(Rows(input))
  }

  lemma EmittedStep(input: seq<Byte>, done: nat, idx: nat, data: seq<string>, line: string, gap: string, item: string)
    requires idx < |input| && Emitted(input, done, idx, data, line) && item == Item(input[idx])
    requires gap == if idx % WIDTH == 0 then "  " else " "
    ensures var next := line + gap + item;
            if idx % WIDTH == WIDTH - 1 then Emitted(input, idx + 1, idx + 1, data + [next], "")
            else Emitted(input, done, idx + 1, data, next)
  {
    InRow(done, idx);
    LineGrows(input, done, idx);
    if idx % WIDTH == WIDTH - 1 {
      RowDone(input, done, idx, data);
      assert Line(input[done..idx + 1]) == line + gap + item;
      assert input[idx + 1..idx + 1] == [];
    }
  }

  lemma InRow(done: nat, idx: nat)
    requires done <= idx < done + WIDTH && done % WIDTH == 0
    ensures idx % WIDTH == idx - done
    ensures idx + 1 == done + WIDTH ==> (idx + 1) % WIDTH == 0
  {
  }

  lemma LastRow(input: seq<Byte>, done: nat, data: seq<string>, line: string)
    requires Emitted(input, done, |input|, data, line)
    ensures data + [line] == Lines(Rows(input))
  {
    assert input[done..|input|] == input[done..];
    assert Rows(input[done..]) == [input[done..]];
    assert Lines([input[done..]]) == [line];
  }

  lemma LineGrows(input: seq<Byte>, done: nat, idx: nat)
    requires done <= idx < |input| && idx % WIDTH == idx - done
    ensures Line(input[done..idx + 1])
         == Line(input[done..idx]) + (if idx % WIDTH == 0 then "  " else " ") + Item(input[idx])
  {
    assert input[done..idx + 1] == input[done..idx] + [input[idx]];
    LineSnoc(input[done..idx], input[idx]);
  }

  lemma RowDone(input: seq<Byte>, done: nat, idx: nat, data: seq<string>)
    requires done + WIDTH == idx + 1 <= |input|
    requires data + Lines(Rows(input[done..])) == Lines(Rows(input))
    ensures data + [Line(input[done..idx + 1])] + Lines(Rows(input[idx + 1..])) == Lines(Rows(input))
  {
    var rest := input[done..];
    assert rest[..WIDTH] == input[done..idx + 1] && rest[WIDTH..] == input[idx + 1..];
    NextRow(rest);
    Regroup(data, Line(input[done..idx + 1]), Lines(Rows(input[idx + 1..])));
  }

  lemma Regroup(a: seq<string>, x: string, b: seq<string>)
    ensures a + ([x] + b) == a + [x] + b
  {
  }

  lemma LineSnoc(row: seq<Byte>, b: Byte)
    ensures Line(row + [b]) == Line(row) + (if row == [] then "  " else " ") + Item(b)
  {
    var item := Item(b);
    assert (row + [b])[..|row|] == row;
    assert Items(row + [b]) == Items(row) + " " + item;
    if row == [] {
      assert Items(row) + " " + item == " " + item;
      assert " " + (" " + item) == "" + "  " + item;
    } else {
      assert " " + (Items(row) + " " + item) == (" " + Items(row)) + " " + item;
    }
  }

  lemma NextRow(input: seq<Byte>)
    requires |input| >= WIDTH
    ensures Lines(Rows(input)) == [Line(input[..WIDTH])] + Lines(Rows(input[WIDTH..]))
  {
  }

  // ----- layout -----

  lemma {:induction false} ItemsLength(row: seq<Byte>)
    ensures |Items(row)| == 6 * |row|
  {
    if row != [] {
      ItemsLength(row[..|row| - 1]);
    }
  }

  /** Every row but the last holds 12 bytes, the last holds the remainder, and no line of bytes
      is longer than 73 characters. */
  lemma {:induction false} RowsFit(input: seq<Byte>)
    ensures |Rows(input)| == |input| / WIDTH + 1
    ensures forall k :: 0 <= k < |Rows(input)| - 1 ==> |Rows(input)[k]| == WIDTH
    ensures |Rows(input)[|Rows(input)| - 1]| == |input| % WIDTH
    ensures forall k :: 0 <= k < |Rows(input)| ==> |Line(Rows(input)[k])| <= 73
    decreases |input|
  {
    if |input| >= WIDTH {
      var rest := Rows(input[WIDTH..]);
      RowsFit(input[WIDTH..]);
      ItemsLength(input[..WIDTH]);
      assert Rows(input)[|Rows(input)| - 1] == rest[|rest| - 1];
    } else {
      ItemsLength(input);
    }
  }

  // ----- reading -----

  function DigitValue(c: char): Option<nat> {
    if '0' <= c <= '9' then Some((c - '0') as int)
    else if 'a' <= c <= 'f' then Some((c - 'a') as int + 10)
    else None
  }

  function AfterLine(s: string): (r: string)
    ensures |r| <= |s|
  {
    if s == "" then "" else if s[0] == '\n' then s[1..] else AfterLine(s[1..])
  }

  predicate IsGap(c: char) { c == ' ' || c == '\n' }

  /** The values of an initializer list of two-digit hexadecimal numbers: values separated by commas,
      one more comma allowed at the end, blanks, line ends and line comments anywhere between;
      None if the text is anything else. */
  function ReadValues(s: string): Option<seq<int>>
    decreases |s|
  {
    if s == "" then Some([])
    else if IsGap(s[0]) then ReadValues(s[1..])
    else if StartsWith(s, "//") then ReadValues(AfterLine(s[2..]))
    else if StartsWith(s, "0x") && |s| >= 4 && DigitValue(s[2]).Some? && DigitValue(s[3]).Some? then
      Prepend([16 * DigitValue(s[2]).value + DigitValue(s[3]).value], ReadAfterValue(s[4..]))
    else None
  }

  /** After a value there is a comma, or nothing is left. */
  function ReadAfterValue(s: string): Option<seq<int>>
    decreases |s|
  {
    if s == "" then Some([])
    else if IsGap(s[0]) then ReadAfterValue(s[1..])
    else if StartsWith(s, "//") then ReadAfterValue(AfterLine(s[2..]))
    else if s[0] == ',' then ReadValues(s[1..])
    else None
  }

  function Joined(lines: seq<string>): string {
    if lines == [] then "" else if |lines| == 1 then lines[0] else lines[0] + "\n" + Joined(lines[1..])
  }

  function Prepend(values: seq<int>, r: Option<seq<int>>): Option<seq<int>> {
    match r case None => None case Some(more) => Some(values + more)
  }

  /** The rules that the reader obeys; the lemmas below need no more of it. */
  ghost predicate ObeysRules(read: string -> Option<seq<int>>) {
    && (forall s :: read(" " + s) == read(s))
    && (forall s :: read("\n" + s) == read(s))
    && (forall b: Byte, s :: read(Item(b) + s) == Prepend([b], read(s)))
  }

  lemma ReadSkip(c: char, s: string)
    requires IsGap(c)
    ensures ReadValues([c] + s) == ReadValues(s)
    ensures ReadAfterValue([c] + s) == ReadAfterValue(s)
  {
    assert ([c] + s)[1..] == s;
  }

  lemma ReadHex(x: char, y: char, s: string)
    requires DigitValue(x).Some? && DigitValue(y).Some?
    ensures ReadValues(['0', 'x', x, y] + s)
         == Prepend([16 * DigitValue(x).value + DigitValue(y).value], ReadAfterValue(s))
  {
    var t := ['0', 'x', x, y] + s;
    assert t[..2] == "0x" && t[0] == '0' && t[2] == x && t[3] == y && t[4..] == s;
    FirstDiffers(t, "//");
  }

  lemma ReadComma(s: string)
    ensures ReadAfterValue([','] + s) == ReadValues(s)
  {
    var t := [','] + s;
    assert t[1..] == s;
    FirstDiffers(t, "//");
  }

  lemma ItemText(item: string, x: char, y: char, s: string)
    requires item == ['0', 'x', x, y, ',']
    ensures item + s == ['0', 'x', x, y] + ([','] + s)
  {
  }

  lemma ReadHexComma(item: string, x: char, y: char, v: int, s: string)
    requires DigitValue(x).Some? && DigitValue(y).Some? && v == 16 * DigitValue(x).value + DigitValue(y).value
    requires item == ['0', 'x', x, y, ',']
    ensures ReadValues(item + s) == Prepend([v], ReadValues(s))
  {
    ItemText(item, x, y, s);
    ReadHex(x, y, [','] + s);
    ReadComma(s);
  }

  lemma ReadItem(b: Byte, s: string)
    ensures ReadValues(Item(b) + s) == Prepend([b], ReadValues(s))
  {
    var h, l := b / 16, b % 16;
    assert 16 * h + l == b;
    DigitsMatch(h);
    DigitsMatch(l);
    ReadHexComma(Item(b), HexDigit(h), HexDigit(l), b, s);
  }

  lemma DigitsMatch(d: nat)
    requires d < 16
    ensures DigitValue(HexDigit(d)) == Some(d)
  {
  }

  /** Two values without a comma between them are refused, so the commas of the emitter matter. */
  lemma MissingCommaIsRefused(x: char, y: char, u: char, v: char, s: string)
    requires DigitValue(x).Some? && DigitValue(y).Some?
    ensures ReadValues(['0', 'x', x, y] + (['0', 'x', u, v] + s)) == None
  {
    var t := ['0', 'x', u, v] + s;
    ReadHex(x, y, t);
    assert t[0] == '0';
    FirstDiffers(t, "//");
  }

  lemma ReadComment(text: string)
    requires '\n' !in text
    ensures ReadAfterValue("//" + text) == Some([])
  {
    var s := "//" + text;
    assert s[..2] == "//" && s[2..] == text;
    AfterOneLine(text);
  }

  lemma {:induction false} AfterOneLine(s: string)
    requires '\n' !in s
    ensures AfterLine(s) == ""
  {
    if s != "" {
      AfterOneLine(s[1..]);
    }
  }

  const COMMENT := " Extra \\0 to make it a C string"

  /** The line that ends the array: two blanks, `0x00`, two blanks and a comment. */
  function Terminator(comment: string): string {
    [' '] + ([' '] + (['0', 'x', '0', '0'] + ([' '] + ([' '] + ("//" + comment)))))
  }

  lemma ReadTerminator(comment: string)
    requires '\n' !in comment
    ensures ReadValues(Terminator(comment)) == Some([0])
  {
    var tail := "//" + comment;
    ReadComment(comment);
    ReadSkip(' ', tail);
    ReadSkip(' ', [' '] + tail);
    var value := ['0', 'x', '0', '0'] + ([' '] + ([' '] + tail));
    ReadHex('0', '0', [' '] + ([' '] + tail));
    ReadSkip(' ', value);
    ReadSkip(' ', [' '] + value);
    assert [0] + [] == [0];
  }

  lemma ReadValuesObeysRules()
    ensures ObeysRules(ReadValues)
  {
    forall s ensures ReadValues(" " + s) == ReadValues(s) { ReadSkip(' ', s); }
    forall s ensures ReadValues("\n" + s) == ReadValues(s) { ReadSkip('\n', s); }
    forall b: Byte, s ensures ReadValues(Item(b) + s) == Prepend([b], ReadValues(s)) { ReadItem(b, s); }
  }

  lemma ReadOneMore(read: string -> Option<seq<int>>, text: string, front: seq<Byte>, last: Byte, item: string,
                    s: string)
    requires read(" " + (item + s)) == read(item + s) == Prepend([last], read(s))
    requires read(text + (" " + (item + s))) == Prepend(front, read(" " + (item + s)))
    ensures read(text + " " + item + s) == Prepend(front + [last], read(s))
  {
    RegroupText(text, " ", item, s);
    PrependTwice(front, last, read(s));
  }

  lemma {:induction false} ReadItems(read: string -> Option<seq<int>>, row: seq<Byte>, s: string)
    requires ObeysRules(read)
    ensures read(Items(row) + s) == Prepend(row, read(s))
    decreases |row|
  {
    if row == [] {
      assert Items(row) + s == s;
      PrependNothing(read(s));
    } else {
      var front, last := row[..|row| - 1], row[|row| - 1];
      ReadItems(read, front, " " + (Item(last) + s));
      ReadOneMore(read, Items(front), front, last, Item(last), s);
      FrontAndLast(row);
    }
  }

  lemma FrontAndLast(row: seq<Byte>)
    requires row != []
    ensures row[..|row| - 1] + [row[|row| - 1]] == row
  {
  }

  lemma RegroupText(a: string, b: string, c: string, d: string)
    ensures a + b + c + d == a + (b + (c + d))
  {
  }

  lemma PrependTwice(front: seq<Byte>, last: Byte, r: Option<seq<int>>)
    ensures Prepend(front, Prepend([last], r)) == Prepend(front + [last], r)
  {
    if r.Some? {
      assert front + ([last] + r.value) == (front + [last]) + r.value;
    }
  }

  lemma PrependNothing(r: Option<seq<int>>)
    ensures Prepend([], r) == r
  {
    assert r.Some? ==> [] + r.value == r.value;
  }

  lemma LineText(row: seq<Byte>, s: string)
    requires row != []
    ensures Line(row) + "\n" + s == " " + (Items(row) + ("\n" + s))
  {
    RegroupText(" ", Items(row), "\n", s);
  }

  lemma ReadLine(read: string -> Option<seq<int>>, row: seq<Byte>, s: string)
    requires ObeysRules(read)
    ensures read(Line(row) + "\n" + s) == Prepend(row, read(s))
  {
    assert read("\n" + s) == read(s);
    if row == [] {
      assert Line(row) + "\n" + s == "\n" + s;
      PrependNothing(read(s));
    } else {
      LineText(row, s);
      ReadItems(read, row, "\n" + s);
    }
  }

  lemma {:induction false} ReadUndoesEmitBy(read: string -> Option<seq<int>>, input: seq<Byte>, last: string)
    requires ObeysRules(read) && read(last) == Some([0])
    ensures read(Joined(Lines(Rows(input)) + [last])) == Some(input + [0])
    decreases |input|
  {
    var lines := Lines(Rows(input)) + [last];
    if |input| < WIDTH {
      assert lines == [Line(input), last];
      assert lines[1..] == [last];
      ReadLine(read, input, last);
    } else {
      var row, rest := input[..WIDTH], Lines(Rows(input[WIDTH..])) + [last];
      ReadUndoesEmitBy(read, input[WIDTH..], last);
      NextRow(input);
      assert lines == [Line(row)] + rest && lines[1..] == rest;
      ReadLine(read, row, Joined(rest));
      assert row + (input[WIDTH..] + [0]) == input + [0];
    }
  }

  /** Reading the emitted array gives the input and one zero byte, so that the size of the
      array less one is the length of the input. */
  lemma ReadUndoesEmit(input: seq<Byte>)
    ensures ReadValues(Joined(Lines(Rows(input)) + [Terminator(COMMENT)])) == Some(input + [0])
  {
    ReadValuesObeysRules();
    ReadTerminator(COMMENT);
    ReadUndoesEmitBy(ReadValues, input, Terminator(COMMENT));
  }
}
