/** Lines that end brfpatch, as syntax trees: it has written the records of the
    lines before, and nothing for the bad one. */
module ScriptErrors {
  import opened Bytes
  import opened CText
  import opened Script
  import opened ScriptSyntax

  /** What is wrong at the start of a data word: it starts with neither a quote nor
      0x; 0x is followed by another number of letters and digits than 2, 4, 6, 8
      or 16, or by a letter that is no digit where a conversion starts; or there is
      something between quotes that is no digit. */
  datatype Flaw =
    | Stray(text: string)
    | Length(letters: string, rest: string)
    | NoDigit(letters: string, rest: string)
    | Quote(pairs: seq<Pair>, text: string)

  predicate IsFlaw(f: Flaw) {
    match f
    case Stray(text) =>
      text != "" && !IsSpace(text[0]) && text[0] != '"' && !("0x" <= text)
    case Length(letters, rest) =>
      && AllAlnum(letters) && (rest == "" || !IsAlnum(rest[0]))
      && |letters| != 2 && |letters| != 4 && |letters| != 6 && |letters| != 8 && |letters| != 16
    case NoDigit(letters, rest) =>
      && AllAlnum(letters) && (rest == "" || !IsAlnum(rest[0]))
      && (if |letters| == 16 then !IsHex(letters[0]) || !IsHex(letters[8])
          else (|letters| == 2 || |letters| == 4 || |letters| == 6 || |letters| == 8) && !IsHex(letters[0]))
    case Quote(pairs, text) =>
      ArePairs(pairs) && text != "" && NoNumberAt(text) && text[0] != '"' && text[0] != ':'
  }

  function FlawText(f: Flaw): string {
    match f
    case Stray(text) => text
    case Length(letters, rest) => "0x" + letters + rest
    case NoDigit(letters, rest) => "0x" + letters + rest
    case Quote(pairs, text) => "\"" + (RenderPairs(pairs) + text)
  }

  /** A line that starts with no known letter; one that starts with an S but not with
      Send_; one without an opcode; one whose opcode is no number; and one with a
      flaw behind any good data words. */
  datatype BadEntry =
    | Unknown(indent: string, text: string)
    | NotSend(indent: string, text: string)
    | NoOpcode(indent: string, name: string, tail: string)
    | BadOpcode(indent: string, name: string, gap: string, text: string)
    | BadWord(indent: string, name: string, gap: string, opcode: string, junk: string, items: seq<Item>,
              wordGap: string, flaw: Flaw)

  function BadBody(b: BadEntry): string {
    match b
    case Unknown(_, text) => text
    case NotSend(_, text) => text
    case NoOpcode(_, name, tail) => "Send_" + name + tail
    case BadOpcode(_, name, gap, text) => "Send_" + name + (gap + text)
    case BadWord(_, name, gap, opcode, junk, items, wordGap, flaw) =>
      SendText(name, gap, opcode, junk, RenderItems(items) + (wordGap + FlawText(flaw)))
  }

  function RenderBad(b: BadEntry): string {
    b.indent + BadBody(b)
  }

  predicate IsBad(b: BadEntry) {
    && AllSpace(b.indent) && OnOneLine(RenderBad(b))
    && match b
       case Unknown(_, text) =>
         text != "" && !IsSpace(text[0]) && text[0] != 'S' && text[0] != 'W' && text[0] != '#'
       case NotSend(_, text) => text != "" && text[0] == 'S' && !("Send_" <= text)
       case NoOpcode(_, name, tail) => NoSpace(name) && AllSpace(tail)
       case BadOpcode(_, name, gap, text) =>
         && NoSpace(name) && IsGap(gap) && text != "" && !IsSpace(text[0])
         && (!("0x" <= text) || NoNumberAt(text[2..]))
       case BadWord(_, name, gap, opcode, junk, items, wordGap, flaw) =>
         && NoSpace(name) && IsGap(gap) && IsOpcode(opcode, junk) && AreItems(items)
         && IsGap(wordGap) && IsFlaw(flaw)
  }

  // ---------- bad words ----------

  /** A newline at the end makes no start of a text. */
  lemma PrefixStays(start: string, text: string, end: string)
    requires NoNewline(start) && !(start <= text) && (end == "" || end == "\n")
    ensures !(start <= text + end)
  {
    var t := text + end;
    if |start| <= |text| {
      assert t[..|start|] == text[..|start|];
    } else if |start| <= |t| {
      assert t[|text|] == '\n' && t[..|start|][|text|] == '\n';
    } else {
      assert |t| < |start|;
    }
  }

  lemma ShortMalformed(letters: string, rest: string, n: nat)
    requires letters != "" && IsAlnum(letters[0]) && !IsHex(letters[0]) && n <= |letters|
    ensures ShortNumber(letters + rest, n) == Malformed
  {
    hide ScanHex;
    assert "" + (letters + rest) == letters + rest && (letters + rest)[0] == letters[0];
    NothingThere("", letters + rest, n);
  }

  lemma LongMalformed(letters: string, rest: string)
    requires AllAlnum(letters) && |letters| == 16 && (!IsHex(letters[0]) || !IsHex(letters[8]))
    ensures LongNumber(letters + rest) == Malformed
  {
    hide ScanHex;
    var t := letters + rest;
    if !IsHex(letters[0]) {
      assert "" + t == t && t[0] == letters[0];
      NothingThere("", t, 8);
    } else {
      assert "" + t[8..] == t[8..] && t[8..][0] == letters[8];
      NothingThere("", t[8..], 8);
    }
  }

  lemma QuoteMalformed(text: string)
    requires text != "" && NoNumberAt(text) && text[0] != '"'
    ensures Quoted(text) == Malformed
  {
    assert "" + text == text;
    NothingThere("", text, 2);
  }

  lemma NumberMalformed(letters: string, rest: string)
    requires AllAlnum(letters) && (rest == "" || !IsAlnum(rest[0]))
    requires IsFlaw(Length(letters, rest)) || IsFlaw(NoDigit(letters, rest))
    ensures Digits(letters + rest) == Malformed
  {
    hide ShortNumber, LongNumber, AlnumRun, IsHex, IsAlnum;
    AlnumRunOver(letters, rest);
    if IsFlaw(NoDigit(letters, rest)) {
      if |letters| == 16 {
        LongMalformed(letters, rest);
      } else {
        ShortMalformed(letters, rest, |letters|);
      }
    }
  }

  lemma FlawRead(f: Flaw, end: string)
    requires IsFlaw(f) && (end == "" || end == "\n")
    ensures var u := FlawText(f) + end;
            u != "" && !IsSpace(u[0]) && Field(u) == Malformed
  {
    hide Digits, Quoted, RenderPairs;
    var u := FlawText(f) + end;
    match f {
      case Stray(text) =>
        assert u[0] == text[0];
        PrefixStays("0x", text, end);
      case Length(letters, rest) =>
        assert u == "0x" + letters + (rest + end) && u[0] == '0';
        NumberMalformed(letters, rest + end);
        NumeralField(letters, rest + end);
      case NoDigit(letters, rest) =>
        assert u == "0x" + letters + (rest + end) && u[0] == '0';
        NumberMalformed(letters, rest + end);
        NumeralField(letters, rest + end);
      case Quote(pairs, text) =>
        assert u == "\"" + (RenderPairs(pairs) + (text + end)) && u[0] == '"';
        TextField(RenderPairs(pairs) + (text + end));
        assert (text + end)[0] == text[0];
        QuotedPairs(pairs, text + end);
        QuoteMalformed(text + end);
    }
  }

  lemma BehindItems(cur: string, gap: string, u: string)
    requires NoSpace(cur) && IsGap(gap) && u != "" && !IsSpace(u[0]) && !Field(u).Parsed?
    ensures Fields(cur + (gap + u)) == Field(u)
  {
    hide Fields, Field, AdvanceTo;
    AdvanceOver(cur, gap, u);
    FieldsUnfold(cur + (gap + u), u, Field(u));
  }

  // ---------- bad lines ----------

  lemma BadWordLine(name: string, gap: string, opcode: string, junk: string, items: seq<Item>, wordGap: string,
                    u: string)
    requires NoSpace(name) && IsGap(gap) && IsOpcode(opcode, junk) && AreItems(items)
    requires IsGap(wordGap) && u != "" && !IsSpace(u[0]) && !Field(u).Parsed?
    ensures ReadLine(SendText(name, gap, opcode, junk, RenderItems(items) + (wordGap + u)))
         == if Field(u).Malformed? then BadLine else LinePastEnd
  {
    assert AtBreak(wordGap + u) by {
      assert (wordGap + u)[0] == wordGap[0];
    }
    hide ReadLine, Fields, Field, RenderItems, ItemBytes, IsItem, Opcode, AtBreak, SendText;
    LineOfData(name, gap, opcode, junk, items, wordGap + u);
    BehindItems(LastLeft("0x" + opcode + junk, items), wordGap, u);
  }

  lemma NoHeaderLine(name: string, gap: string, text: string)
    requires NoSpace(name) && AllSpace(gap) && (gap != "" || text == "") && (text == "" || !IsSpace(text[0]))
    requires !("0x" <= text) || NoNumberAt(text[2..]) || text[2..] == "\n"
    ensures ReadLine("Send_" + name + (gap + text)) == BadLine
  {
    var t := "Send_" + name + (gap + text);
    assert NoSpace("Send_" + name);
    AdvanceOver("Send_" + name, gap, text);
    if "0x" <= text {
      if text[2..] == "\n" {
        assert "\n" == "\n" + "";
        NothingThere("\n", "", 4);
      } else {
        assert "" + text[2..] == text[2..];
        NothingThere("", text[2..], 4);
      }
    }
    hide ScanHex, AdvanceTo;
    assert ReadHeader(t) == NoHeader;
    LineUnfold(t);
  }

  /** What process_line, or the dispatch of lines, makes of a bad line. */
  lemma BadRead(b: BadEntry, end: string)
    requires IsBad(b) && (end == "" || end == "\n")
    ensures var body := BadBody(b);
            && body != "" && !IsSpace(body[0])
            && (body + end)[0] != 'W' && (body + end)[0] != '#'
            && ((body + end)[0] == 'S' ==> ReadLine(body + end) == BadLine)
  {
    hide ReadLine, RenderItems, Field;
    var body := BadBody(b);
    match b {
      case Unknown(_, text) =>
      case NotSend(_, text) =>
        NotSendLine(text, end);
      case NoOpcode(_, name, tail) =>
        assert body + end == "Send_" + name + ((tail + end) + "");
        NoHeaderLine(name, tail + end, "");
      case BadOpcode(_, name, gap, text) =>
        assert body + end == "Send_" + name + (gap + (text + end));
        OpcodeStays(text, end);
        NoHeaderLine(name, gap, text + end);
      case BadWord(_, name, gap, opcode, junk, items, wordGap, flaw) =>
        FlawRead(flaw, end);
        hide IsFlaw, FlawText;
        SendTextAppend(name, gap, opcode, junk, RenderItems(items), wordGap + FlawText(flaw), end);
        assert wordGap + FlawText(flaw) + end == wordGap + (FlawText(flaw) + end);
        BadWordLine(name, gap, opcode, junk, items, wordGap, FlawText(flaw) + end);
    }
  }

  lemma NotSendLine(text: string, end: string)
    requires text != "" && !("Send_" <= text) && (end == "" || end == "\n")
    ensures ReadLine(text + end) == BadLine
  {
    var t := text + end;
    PrefixStays("Send_", text, end);
    hide AdvanceTo;
    assert ReadHeader(t) == NoHeader;
    LineUnfold(t);
  }

  lemma OpcodeStays(text: string, end: string)
    requires text != "" && !IsSpace(text[0]) && (end == "" || end == "\n")
    requires !("0x" <= text) || NoNumberAt(text[2..])
    ensures var u := text + end;
            u != "" && !IsSpace(u[0]) && (!("0x" <= u) || NoNumberAt(u[2..]) || u[2..] == "\n")
  {
    var u := text + end;
    assert u[0] == text[0];
    if "0x" <= text {
      assert u[2..] == text[2..] + end;
      if |text| > 2 {
        assert u[2..][0] == text[2..][0];
      }
    } else {
      PrefixStays("0x", text, end);
    }
  }

  // ---------- scripts with a bad line ----------

  lemma CompileExits(t: string)
    requires t != "" && FirstLine(t) != "" && FirstLine(t)[0] != 'W' && FirstLine(t)[0] != '#'
    requires FirstLine(t)[0] == 'S' ==> ReadLine(FirstLine(t)) == BadLine
    ensures Compile(t) == Compiled([], Exit)
  {
  }

  /** The first bad line ends the program: the output holds the records of the lines
      before it, and nothing else, whatever follows. */
  lemma BadLineExits(es: seq<Entry>, b: BadEntry, end: string, more: string)
    requires (forall e | e in es :: IsEntry(e)) && IsBad(b) && Ends(RenderBad(b), end, more)
    ensures Compile(RenderFile(es, true) + (RenderBad(b) + end + more)) == Compiled(Meaning(es), Exit)
  {
    var t := RenderBad(b) + end + more;
    assert AllSpace(b.indent) && OnOneLine(b.indent + BadBody(b)) && (end == "" || end == "\n");
    BadRead(b, end);
    hide IsEntry, IsBad, Compile, BadBody, FirstLine, FgetsCount, ReadLine, Ends;
    assert b.indent + BadBody(b) + "" == b.indent + BadBody(b);
    LineSeen(b.indent, BadBody(b), "", end, more);
    CompileExits(t);
    CompileFirst(es, t);
    assert Meaning(es) + [] == Meaning(es);
  }

  /** A line that ends, without a newline, behind the first digit of a quoted pair:
      the cursor is moved over the terminator. */
  lemma CutPairUndefined(es: seq<Entry>, name: string, gap: string, opcode: string, junk: string,
                         items: seq<Item>, wordGap: string, pairs: seq<Pair>, h: char)
    requires forall e | e in es :: IsEntry(e)
    requires NoSpace(name) && IsGap(gap) && IsOpcode(opcode, junk) && AreItems(items)
    requires IsGap(wordGap) && ArePairs(pairs) && IsHex(h)
    requires var line := SendText(name, gap, opcode, junk,
                                  RenderItems(items) + (wordGap + ("\"" + (RenderPairs(pairs) + [h]))));
             OnOneLine(line) && |line| <= 1023
    ensures var line := SendText(name, gap, opcode, junk,
                                 RenderItems(items) + (wordGap + ("\"" + (RenderPairs(pairs) + [h]))));
            Compile(RenderFile(es, true) + line) == Compiled(Meaning(es), Undefined)
  {
    var u := "\"" + (RenderPairs(pairs) + [h]);
    var line := SendText(name, gap, opcode, junk, RenderItems(items) + (wordGap + u));
    CutPairRead(pairs, h);
    assert line[0] == 'S';
    hide IsEntry, Compile, ReadLine, RenderPairs, RenderItems, SendText, Field, IsItem, IsOpcode, OnOneLine;
    BadWordLine(name, gap, opcode, junk, items, wordGap, u);
    UndefinedAtEnd(es, line);
  }

  lemma UndefinedAtEnd(es: seq<Entry>, line: string)
    requires forall e | e in es :: IsEntry(e)
    requires OnOneLine(line) && line != "" && |line| <= 1023 && line[0] == 'S' && ReadLine(line) == LinePastEnd
    ensures Compile(RenderFile(es, true) + line) == Compiled(Meaning(es), Undefined)
  {
    hide IsEntry, Compile, FirstLine, FgetsCount, ReadLine;
    assert "" + line == line && line + "" == line;
    LineSeen("", line, "", "", "");
    CompileStops(line);
    CompileFirst(es, line);
    assert Meaning(es) + [] == Meaning(es);
  }

  lemma CutPairRead(pairs: seq<Pair>, h: char)
    requires ArePairs(pairs) && IsHex(h)
    ensures var u := "\"" + (RenderPairs(pairs) + [h]);
            u[0] == '"' && Field(u) == PastEnd
  {
    hide RenderPairs, ScanHex;
    TextField(RenderPairs(pairs) + [h]);
    QuotedPairs(pairs, [h]);
    assert [h] + "" == [h];
    ScanHexDigits([h], "", 2);
  }

  lemma CompileStops(t: string)
    requires t != "" && FirstLine(t) != "" && FirstLine(t)[0] == 'S' && ReadLine(FirstLine(t)) == LinePastEnd
    ensures Compile(t) == Compiled([], Undefined)
  {
  }
}
