/** The scripts that brfpatch takes, as syntax trees: those the usage text
    describes, and what the conversions of sscanf let pass besides. Compiling
    their text yields what the trees say. */
module ScriptSyntax {
  import opened Bytes
  import opened CText
  import opened Script
  import H4

  datatype Pair = Pair(high: char, low: char, colon: bool)

  /** Digits, and letters behind them that are no digits: a conversion stops there,
      but the letters count for the size of the number. */
  datatype Numeral = Numeral(hex: string, letters: string)

  /** A data word: 0x and 2, 4, 6 or 8 letters and digits; 0x and 16 of them, in two
      halves; or quoted digit pairs, each with or without a colon behind it. */
  datatype Word = Short(digits: Numeral) | Long(high: Numeral, low: Numeral) | Text(pairs: seq<Pair>)

  /** White space, a word, and what follows it up to the next white space. */
  datatype Item = Item(gap: string, word: Word, junk: string)

  datatype Entry =
    | Send(indent: string, name: string, gap: string, opcode: string, junk: string, items: seq<Item>, tail: string)
    | Skipped(indent: string, text: string)

  // ---------- well-formedness ----------

  predicate AllAlnum(d: string) {
    forall i | 0 <= i < |d| :: IsAlnum(d[i])
  }

  /** A conversion that has read hexadecimal digits ends in front of r. */
  predicate Ended(r: string) {
    r == "" || (!IsHex(r[0]) && r[0] != 'x' && r[0] != 'X')
  }

  predicate IsNumeral(d: Numeral, n: nat) {
    AllHex(d.hex) && d.hex != "" && AllAlnum(d.letters) && Ended(d.letters) && |d.hex| + |d.letters| == n
  }

  predicate IsWord(w: Word) {
    match w
    case Short(d) => IsNumeral(d, 2) || IsNumeral(d, 4) || IsNumeral(d, 6) || IsNumeral(d, 8)
    case Long(high, low) => IsNumeral(high, 8) && IsNumeral(low, 8)
    case Text(ps) => ArePairs(ps)
  }

  predicate IsGap(g: string) {
    g != "" && AllSpace(g)
  }

  /** The run of letters and digits, if w is a number, ends in front of r. */
  predicate RunEnds(w: Word, r: string) {
    w.Text? || r == "" || !IsAlnum(r[0])
  }

  predicate IsItem(i: Item) {
    IsGap(i.gap) && IsWord(i.word) && NoSpace(i.junk) && RunEnds(i.word, i.junk)
  }

  predicate AreItems(items: seq<Item>) {
    forall i | i in items :: IsItem(i)
  }

  predicate IsOpcode(opcode: string, junk: string) {
    AllHex(opcode) && 1 <= |opcode| <= 4 && NoSpace(junk) && (|opcode| == 4 || Ended(junk))
  }

  predicate NoNewline(t: string) {
    forall i | 0 <= i < |t| :: t[i] != '\n'
  }

  /** The characters of one line. */
  predicate OnOneLine(t: string) {
    NoNewline(t) && forall i | 0 <= i < |t| :: t[i] != '\0'
  }

  predicate IsEntry(e: Entry) {
    && AllSpace(e.indent)
    && OnOneLine(Render(e)) && |Render(e)| <= 1023
    && match e
       case Send(_, name, gap, opcode, junk, items, tail) =>
         NoSpace(name) && IsGap(gap) && IsOpcode(opcode, junk) && AreItems(items) && AllSpace(tail)
       case Skipped(_, text) => text == "" || text[0] == 'W' || text[0] == '#'
  }

  // ---------- text ----------

  function RenderPairs(ps: seq<Pair>): string {
    if ps == [] then ""
    else [ps[0].high, ps[0].low] + Colon(ps[0]) + RenderPairs(ps[1..])
  }

  function NumeralText(d: Numeral): string {
    d.hex + d.letters
  }

  function RenderWord(w: Word): string {
    match w
    case Short(d) => "0x" + NumeralText(d)
    case Long(high, low) => "0x" + (NumeralText(high) + NumeralText(low))
    case Text(ps) => "\"" + (RenderPairs(ps) + "\"")
  }

  function RenderItems(items: seq<Item>): string {
    if items == [] then ""
    else items[0].gap + (RenderWord(items[0].word) + (items[0].junk + RenderItems(items[1..])))
  }

  /** A line from its first character that is not white space. */
  function RenderBody(e: Entry): string {
    match e
    case Send(_, name, gap, opcode, junk, items, tail) =>
      SendText(name, gap, opcode, junk, RenderItems(items) + tail)
    case Skipped(_, text) => text
  }

  function SendText(name: string, gap: string, opcode: string, junk: string, data: string): string {
    "Send_" + name + (gap + ("0x" + opcode + junk + data))
  }

  function Render(e: Entry): string {
    e.indent + RenderBody(e)
  }

  /** The lines of a file, the last one with or without a newline. */
  function RenderFile(es: seq<Entry>, closed: bool): string {
    if es == [] then ""
    else if |es| == 1 && !closed then Render(es[0])
    else Render(es[0]) + "\n" + RenderFile(es[1..], closed)
  }

  // ---------- meaning ----------

  function PairBytes(ps: seq<Pair>): seq<byte>
    requires ArePairs(ps)
  {
    if ps == [] then [] else [16 * HexDigit(ps[0].high) + HexDigit(ps[0].low)] + PairBytes(ps[1..])
  }

  /** A number is little-endian, quoted bytes are in textual order. */
  function WordBytes(w: Word): seq<byte>
    requires IsWord(w)
  {
    match w
    case Short(d) => LittleEndian(HexNumber(d.hex), |NumeralText(d)| / 2)
    case Long(high, low) => LittleEndian(HexNumber(low.hex), 4) + LittleEndian(HexNumber(high.hex), 4)
    case Text(ps) => PairBytes(ps)
  }

  function ItemBytes(items: seq<Item>): seq<byte>
    requires AreItems(items)
  {
    if items == [] then []
    else
      assert IsItem(items[0]);
      WordBytes(items[0].word) + ItemBytes(items[1..])
  }

  function SourceOf(e: Entry): Source
    requires IsEntry(e) && e.Send?
  {
    Source(Opcode(e.opcode), ItemBytes(e.items))
  }

  function Meaning(es: seq<Entry>): seq<Source>
    requires forall e | e in es :: IsEntry(e)
  {
    if es == [] then []
    else if es[0].Skipped? then Meaning(es[1..])
    else
      assert IsEntry(es[0]);
      [SourceOf(es[0])] + Meaning(es[1..])
  }

  function Opcode(d: string): u16
    requires AllHex(d) && |d| <= 4
  {
    OpcodeFits(d);
    HexNumber(d)
  }

  lemma OpcodeFits(d: string)
    requires AllHex(d) && |d| <= 4
    ensures HexNumber(d) < 0x1_0000
  {
    HexNumberBound(d);
    Pow16Monotone(|d|, 4);
    assert Pow16(2) == 256;
    assert Pow16(4) == 0x1_0000;
  }

  /** Sixteen digits are the little-endian bytes of the number they write. */
  lemma SixteenDigits(a: string, b: string)
    requires AllHex(a) && AllHex(b) && |a| == |b| == 8
    ensures IsWord(Long(Numeral(a, ""), Numeral(b, "")))
    ensures WordBytes(Long(Numeral(a, ""), Numeral(b, ""))) == LittleEndian(HexNumber(a + b), 8)
  {
    hide LittleEndian, HexNumber, Pow16, Pow256, IsHex;
    HexNumberAppend(a, b);
    HexNumberFits(b);
    Pow16Eight();
    Pow256Four();
    LittleEndianHalves(HexNumber(a), HexNumber(b), 4, 4);
  }

  // ---------- scanning ----------

  /** The end of the string, or white space. */
  predicate AtBreak(r: string) {
    r == "" || IsSpace(r[0])
  }

  lemma {:induction false} SkipWordOver(w: string, r: string)
    requires NoSpace(w) && AtBreak(r)
    ensures SkipWord(w + r) == r
  {
    if w == "" {
      assert w + r == r;
    } else {
      assert (w + r)[1..] == w[1..] + r;
      SkipWordOver(w[1..], r);
    }
  }

  lemma AdvanceOver(w: string, g: string, r: string)
    requires NoSpace(w) && AllSpace(g) && (g != "" || r == "") && (r == "" || !IsSpace(r[0]))
    ensures AdvanceTo(w + (g + r)) == r
  {
    assert AtBreak(g + r) by {
      if g != "" { assert (g + r)[0] == g[0]; }
    }
    SkipWordOver(w, g + r);
    SkipSpaceOver(g, r);
  }

  lemma {:induction false} AlnumRunOver(d: string, r: string)
    requires AllAlnum(d) && (r == "" || !IsAlnum(r[0]))
    ensures AlnumRun(d + r) == |d|
  {
    if d == "" {
      assert d + r == r;
    } else {
      assert (d + r)[1..] == d[1..] + r;
      AlnumRunOver(d[1..], r);
    }
  }

  // ---------- one word ----------

  predicate ArePairs(ps: seq<Pair>) {
    forall p | p in ps :: IsHex(p.high) && IsHex(p.low)
  }

  function Colon(p: Pair): string {
    if p.colon then ":" else ""
  }

  lemma PairsStart(ps: seq<Pair>, r: string)
    requires ps != []
    ensures RenderPairs(ps) + r == [ps[0].high, ps[0].low] + (Colon(ps[0]) + (RenderPairs(ps[1..]) + r))
  {
  }

  /** Exactly the colon that belongs to a pair is skipped behind it. */
  lemma ColonSkipped(p: Pair, ps: seq<Pair>, r: string)
    requires ArePairs(ps) && (r == "" || r[0] != ':')
    ensures SkipColon(Colon(p) + (RenderPairs(ps) + r)) == RenderPairs(ps) + r
  {
    var more := RenderPairs(ps) + r;
    if p.colon {
      assert (Colon(p) + more)[1..] == more;
    } else {
      assert Colon(p) + more == more;
      if ps == [] {
        assert more == r;
      } else {
        assert more[0] == ps[0].high;
      }
    }
  }

  lemma QuotedUnfold(t: string, v: u32, r: string)
    requires |t| >= 2 && t[0] != '"' && ScanHex(t, 2) == Match(v, r)
    ensures Quoted(t) == Prepend([v % 256], Quoted(SkipColon(t[2..])))
  {
  }

  lemma QuotedOne(h: char, l: char, r: string)
    requires IsHex(h) && IsHex(l)
    ensures Quoted([h, l] + r) == Prepend([16 * HexDigit(h) + HexDigit(l)], Quoted(SkipColon(r)))
  {
    hide Quoted, ScanHex, HexNumber;
    var t, v := [h, l] + r, 16 * HexDigit(h) + HexDigit(l);
    HexNumberTwo(h, l);
    ScanHexDigits([h, l], r, 2);
    assert t[0] == h && t[2..] == r;
    QuotedUnfold(t, v, r);
    assert v % 256 == v;
  }

  lemma QuotedPair(ps: seq<Pair>, r: string)
    requires ArePairs(ps) && ps != [] && (r == "" || r[0] != ':')
    ensures Quoted(RenderPairs(ps) + r) == Prepend([PairBytes(ps)[0]], Quoted(RenderPairs(ps[1..]) + r))
  {
    hide Quoted, SkipColon, Colon, RenderPairs, IsHex, HexDigit;
    PairsStart(ps, r);
    ColonSkipped(ps[0], ps[1..], r);
    QuotedOne(ps[0].high, ps[0].low, Colon(ps[0]) + (RenderPairs(ps[1..]) + r));
  }

  /** Quoted digit pairs, and whatever follows them. */
  lemma {:induction false} QuotedPairs(ps: seq<Pair>, r: string)
    requires ArePairs(ps) && (r == "" || r[0] != ':')
    ensures Quoted(RenderPairs(ps) + r) == Prepend(PairBytes(ps), Quoted(r))
  {
    hide Quoted, IsHex;
    if ps == [] {
      assert RenderPairs(ps) + r == r;
      PrependTwice([], [], Quoted(r));
    } else {
      QuotedPair(ps, r);
      QuotedPairs(ps[1..], r);
      PrependTwice([PairBytes(ps)[0]], PairBytes(ps[1..]), Quoted(r));
    }
  }

  lemma QuotedEnd(r: string)
    requires r == "" || r[0] == '"'
    ensures Quoted(r) == Parsed([], r)
  {
  }

  /** One conversion takes the digits of a number of at most eight characters. */
  lemma DigitsScanned(d: Numeral, r: string, n: nat)
    requires IsNumeral(d, n) && 0 < n <= 8
    ensures HexNumber(d.hex) < 0x1_0000_0000
    ensures ScanHex(NumeralText(d) + r, n).Match? && ScanHex(NumeralText(d) + r, n).value == HexNumber(d.hex)
    ensures (NumeralText(d) + r)[n..] == r
  {
    hide ScanHex, HexNumber;
    assert NumeralText(d) + r == d.hex + (d.letters + r);
    assert d.letters != "" ==> (d.letters + r)[0] == d.letters[0];
    ScanHexDigits(d.hex, d.letters + r, n);
  }

  lemma ShortDigits(d: Numeral, r: string, n: nat)
    requires IsNumeral(d, n) && 2 <= n <= 8
    ensures ShortNumber(NumeralText(d) + r, n) == Parsed(LittleEndian(HexNumber(d.hex), n / 2), r)
  {
    hide ScanHex, HexNumber, LittleEndian;
    DigitsScanned(d, r, n);
  }

  lemma LongDigits(a: Numeral, b: Numeral, r: string)
    requires IsNumeral(a, 8) && IsNumeral(b, 8)
    ensures LongNumber(NumeralText(a) + NumeralText(b) + r)
         == Parsed(LittleEndian(HexNumber(b.hex), 4) + LittleEndian(HexNumber(a.hex), 4), r)
  {
    hide ScanHex, HexNumber, LittleEndian;
    var t := NumeralText(a) + NumeralText(b) + r;
    assert t == NumeralText(a) + (NumeralText(b) + r);
    DigitsScanned(a, NumeralText(b) + r, 8);
    DigitsScanned(b, r, 8);
    assert t[16..] == t[8..][8..];
  }

  lemma DigitsAlnum(d: Numeral, n: nat)
    requires IsNumeral(d, n)
    ensures AllAlnum(NumeralText(d)) && |NumeralText(d)| == n
  {
  }

  /** Where the cursor is when a word has been read. */
  function Behind(w: Word, r: string): string {
    if w.Text? then "\"" + r else r
  }

  lemma NumeralField(d: string, r: string)
    ensures Field("0x" + d + r) == Digits(d + r)
  {
    assert ("0x" + d + r)[2..] == d + r;
  }

  lemma TextField(t: string)
    ensures Field("\"" + t) == Quoted(t)
  {
    assert ("\"" + t)[1..] == t;
  }

  lemma NumberRead(d: Numeral, r: string)
    requires IsWord(Short(d)) && (r == "" || !IsAlnum(r[0]))
    ensures Digits(NumeralText(d) + r) == Parsed(WordBytes(Short(d)), r)
  {
    hide ShortNumber, LongNumber, LittleEndian, HexNumber, AlnumRun, IsHex, IsAlnum;
    var n := |NumeralText(d)|;
    assert IsNumeral(d, n);
    DigitsAlnum(d, n);
    AlnumRunOver(NumeralText(d), r);
    ShortDigits(d, r, n);
  }

  lemma LongRead(a: Numeral, b: Numeral, r: string)
    requires IsWord(Long(a, b)) && (r == "" || !IsAlnum(r[0]))
    ensures Digits(NumeralText(a) + NumeralText(b) + r) == Parsed(WordBytes(Long(a, b)), r)
  {
    hide ShortNumber, LongNumber, LittleEndian, HexNumber, AlnumRun, IsHex, IsAlnum;
    DigitsAlnum(a, 8);
    DigitsAlnum(b, 8);
    assert AllAlnum(NumeralText(a) + NumeralText(b));
    AlnumRunOver(NumeralText(a) + NumeralText(b), r);
    LongDigits(a, b, r);
  }

  lemma WordRead(w: Word, r: string)
    requires IsWord(w) && RunEnds(w, r)
    ensures RenderWord(w) + r != "" && !IsSpace((RenderWord(w) + r)[0])
    ensures Field(RenderWord(w) + r) == Parsed(WordBytes(w), Behind(w, r))
  {
    hide Digits, Quoted, Field, LittleEndian, HexNumber, PairBytes, RenderPairs, NumeralText, IsNumeral;
    match w {
      case Short(d) =>
        NumberRead(d, r);
        NumeralField(NumeralText(d), r);
        assert (RenderWord(w) + r)[0] == '0';
      case Long(a, b) =>
        LongRead(a, b, r);
        NumeralField(NumeralText(a) + NumeralText(b), r);
        assert (RenderWord(w) + r)[0] == '0';
      case Text(ps) =>
        QuotedPairs(ps, "\"" + r);
        QuotedEnd("\"" + r);
        TextField(RenderPairs(ps) + ("\"" + r));
        assert PairBytes(ps) + [] == PairBytes(ps);
        assert RenderWord(w) + r == "\"" + (RenderPairs(ps) + ("\"" + r)) && (RenderWord(w) + r)[0] == '\"';
    }
  }

  // ---------- one line ----------

  /** The end of an item, where the cursor is when its word has been read. */
  function Left(i: Item): string {
    if i.word.Text? then "\"" + i.junk else i.junk
  }

  function LastLeft(cur: string, items: seq<Item>): string {
    if items == [] then cur else Left(items[|items| - 1])
  }

  lemma ItemsStart(items: seq<Item>, more: string)
    requires items != []
    ensures RenderItems(items) + more
         == items[0].gap + (RenderWord(items[0].word) + (items[0].junk + (RenderItems(items[1..]) + more)))
  {
  }

  lemma ItemsAtBreak(items: seq<Item>, more: string)
    requires AreItems(items) && AtBreak(more)
    ensures AtBreak(RenderItems(items) + more)
  {
    if items == [] {
      assert RenderItems(items) + more == more;
    } else {
      assert IsItem(items[0]);
      assert (RenderItems(items) + more)[0] == items[0].gap[0];
    }
  }

  lemma FieldsUnfold(t: string, u: string, f: Parsed)
    requires AdvanceTo(t) == u && u != "" && Field(u) == f
    ensures Fields(t) == if f.Parsed? then Prepend(f.bytes, Fields(f.rest)) else f
  {
  }

  lemma JunkEnds(i: Item, more: string)
    requires IsItem(i) && AtBreak(more)
    ensures RunEnds(i.word, i.junk + more)
  {
    if i.junk == "" {
      assert i.junk + more == more;
    }
  }

  /** One item behind a word. */
  lemma FieldsItem(cur: string, i: Item, more: string)
    requires NoSpace(cur) && IsItem(i) && AtBreak(more)
    ensures Fields(cur + (i.gap + (RenderWord(i.word) + (i.junk + more))))
         == Prepend(WordBytes(i.word), Fields(Left(i) + more))
  {
    hide Fields, Field, AdvanceTo, RenderWord, WordBytes, IsWord;
    var u := RenderWord(i.word) + (i.junk + more);
    JunkEnds(i, more);
    WordRead(i.word, i.junk + more);
    AdvanceOver(cur, i.gap, u);
    assert Behind(i.word, i.junk + more) == Left(i) + more;
    FieldsUnfold(cur + (i.gap + u), u, Parsed(WordBytes(i.word), Behind(i.word, i.junk + more)));
  }

  /** Behind any word, the items of a line give their bytes in order, and then comes
      what is behind them. */
  lemma {:induction false} FieldsItems(cur: string, items: seq<Item>, more: string)
    requires NoSpace(cur) && AreItems(items) && AtBreak(more)
    ensures NoSpace(LastLeft(cur, items))
    ensures Fields(cur + (RenderItems(items) + more)) == Prepend(ItemBytes(items), Fields(LastLeft(cur, items) + more))
    decreases |items|
  {
    if items == [] {
      assert RenderItems(items) + more == more;
      PrependTwice([], [], Fields(cur + more));
    } else {
      ItemsStep(cur, items);
      hide Fields, RenderItems, ItemBytes, WordBytes, IsItem, IsWord, AtBreak, NoSpace, Left, LastLeft;
      ItemsStart(items, more);
      ItemsAtBreak(items[1..], more);
      FieldsItem(cur, items[0], RenderItems(items[1..]) + more);
      FieldsItems(Left(items[0]), items[1..], more);
      PrependTwice(WordBytes(items[0].word), ItemBytes(items[1..]), Fields(LastLeft(cur, items) + more));
    }
  }

  lemma ItemsStep(cur: string, items: seq<Item>)
    requires AreItems(items) && items != []
    ensures IsItem(items[0]) && AreItems(items[1..])
    ensures NoSpace(Left(items[0])) && LastLeft(Left(items[0]), items[1..]) == LastLeft(cur, items)
    ensures ItemBytes(items) == WordBytes(items[0].word) + ItemBytes(items[1..])
  {
    assert IsItem(items[0]);
    hide WordBytes;
  }

  lemma FieldsEnd(cur: string, tail: string)
    requires NoSpace(cur) && AllSpace(tail)
    ensures Fields(cur + tail) == Parsed([], "")
  {
    assert tail == tail + "";
    AdvanceOver(cur, tail, "");
  }

  /** The items of a line, with white space behind them. */
  lemma {:induction false} FieldsRead(cur: string, items: seq<Item>, tail: string)
    requires NoSpace(cur) && AreItems(items) && AllSpace(tail)
    ensures Fields(cur + (RenderItems(items) + tail)) == Parsed(ItemBytes(items), "")
  {
    hide Fields, IsItem;
    FieldsItems(cur, items, tail);
    FieldsEnd(LastLeft(cur, items), tail);
    assert ItemBytes(items) + [] == ItemBytes(items);
  }

  lemma HeaderUnfold(t: string, u: string, v: u16, r: string)
    requires "Send_" <= t && AdvanceTo(t) == u && "0x" <= u && ScanHex(u[2..], 4) == Match(v, r)
    ensures ReadHeader(t) == Header(v, u)
  {
  }

  lemma HeaderRead(name: string, gap: string, opcode: string, junk: string, data: string)
    requires NoSpace(name) && IsGap(gap) && IsOpcode(opcode, junk) && AtBreak(data)
    ensures ReadHeader(SendText(name, gap, opcode, junk, data)) == Header(Opcode(opcode), "0x" + opcode + junk + data)
  {
    var t, u := SendText(name, gap, opcode, junk, data), "0x" + opcode + junk + data;
    AdvanceOver("Send_" + name, gap, u);
    assert u[2..] == opcode + (junk + data);
    assert junk + data == if junk == "" then data else [junk[0]] + (junk[1..] + data);
    hide ScanHex, AdvanceTo, ReadHeader, HexNumber;
    ScanHexDigits(opcode, junk + data, 4);
    HeaderUnfold(t, u, Opcode(opcode), junk + data);
  }

  lemma LineUnfold(t: string)
    ensures var h := ReadHeader(t);
            if h.NoHeader? then ReadLine(t) == BadLine
            else match Fields(h.rest)
                 case Parsed(data, _) => ReadLine(t) == Record(Source(h.opcode, data))
                 case Malformed => ReadLine(t) == BadLine
                 case PastEnd => ReadLine(t) == LinePastEnd
  {
  }

  /** What process_line makes of a Send_ line whose data words are followed by
      more. */
  lemma LineOfData(name: string, gap: string, opcode: string, junk: string, items: seq<Item>, more: string)
    requires NoSpace(name) && IsGap(gap) && IsOpcode(opcode, junk) && AreItems(items) && AtBreak(more)
    ensures var t, cur := SendText(name, gap, opcode, junk, RenderItems(items) + more), "0x" + opcode + junk;
            && NoSpace(LastLeft(cur, items))
            && match Prepend(ItemBytes(items), Fields(LastLeft(cur, items) + more))
               case Parsed(data, _) => ReadLine(t) == Record(Source(Opcode(opcode), data))
               case Malformed => ReadLine(t) == BadLine
               case PastEnd => ReadLine(t) == LinePastEnd
  {
    hide ReadLine, ReadHeader, Fields, RenderItems, ItemBytes, Opcode, IsItem, AtBreak, HexNumber;
    ItemsAtBreak(items, more);
    HeaderRead(name, gap, opcode, junk, RenderItems(items) + more);
    assert NoSpace("0x" + opcode + junk);
    FieldsItems("0x" + opcode + junk, items, more);
    LineUnfold(SendText(name, gap, opcode, junk, RenderItems(items) + more));
  }

  /** The record of a Send_ line, with or without its newline. */
  lemma {:induction false} SendRead(e: Entry, end: string)
    requires IsEntry(e) && e.Send? && AllSpace(end)
    ensures ReadLine(RenderBody(e) + end) == Record(SourceOf(e))
  {
    var more := e.tail + end;
    assert RenderBody(e) + end == SendText(e.name, e.gap, e.opcode, e.junk, RenderItems(e.items) + more) by {
      SendTextAppend(e.name, e.gap, e.opcode, e.junk, RenderItems(e.items), e.tail, end);
    }
    hide ReadLine, Fields, RenderItems, ItemBytes, Opcode, OnOneLine, IsItem, RenderBody, Render, SendText;
    LineOfData(e.name, e.gap, e.opcode, e.junk, e.items, more);
    FieldsEnd(LastLeft("0x" + e.opcode + e.junk, e.items), more);
    assert ItemBytes(e.items) + [] == ItemBytes(e.items);
  }

  lemma SendTextAppend(name: string, gap: string, opcode: string, junk: string, a: string, b: string, end: string)
    ensures SendText(name, gap, opcode, junk, a + b) + end == SendText(name, gap, opcode, junk, a + (b + end))
  {
    assert a + b + end == a + (b + end);
  }

  lemma {:induction false} FgetsOver(line: string, r: string, room: nat)
    requires NoNewline(line) && |line| < room && (r == "" || r[0] == '\n')
    ensures FgetsCount(line + r, room) == if r == "" then |line| else |line| + 1
  {
    if line == "" {
      assert line + r == r;
    } else {
      assert (line + r)[1..] == line[1..] + r;
      FgetsOver(line[1..], r, room - 1);
    }
  }

  lemma {:induction false} FgetsFull(line: string, r: string)
    requires NoNewline(line)
    ensures FgetsCount(line + r, |line|) == |line|
  {
    if line != "" {
      assert (line + r)[1..] == line[1..] + r;
      FgetsFull(line[1..], r);
    }
  }

  /** What ends a line that fgets takes: a newline, the end of the file, or the
      end of the room. */
  predicate Ends(line: string, end: string, more: string) {
    || (|line| < 1023 && (end == "\n" || (end == "" && more == "")))
    || (|line| == 1023 && end == "")
  }

  lemma FgetsTakes(line: string, end: string, more: string)
    requires NoNewline(line) && Ends(line, end, more)
    ensures FgetsCount(line + (end + more), LINE_ROOM) == |line + end|
  {
    if |line| == 1023 {
      FgetsFull(line, end + more);
    } else {
      FgetsOver(line, end + more, LINE_ROOM);
    }
  }

  lemma {:induction false} UpToNulOver(t: string, r: string)
    requires forall i | 0 <= i < |t| :: t[i] != '\0'
    requires r == "" || r[0] == '\0'
    ensures UpToNul(t + r) == t
  {
    if t == "" {
      assert t + r == r;
    } else {
      assert (t + r)[1..] == t[1..] + r;
      UpToNulOver(t[1..], r);
    }
  }

  /** The line that the program sees of indent and body with end behind them; what is
      behind a NUL is not seen. */
  lemma LineSeen(indent: string, body: string, hidden: string, end: string, more: string)
    requires AllSpace(indent) && (body != "" ==> !IsSpace(body[0])) && OnOneLine(indent + body)
    requires NoNewline(hidden) && (hidden != "" ==> hidden[0] == '\0')
    requires Ends(indent + body + hidden, end, more)
    ensures var t := indent + body + hidden + end + more;
            && t[FgetsCount(t, LINE_ROOM)..] == more
            && FirstLine(t) == if body == "" then "" else if hidden == "" then body + end else body
  {
    hide FgetsCount, UpToNul, SkipSpace;
    var line, t := indent + body + hidden, indent + body + hidden + end + more;
    var n := FgetsCount(t, LINE_ROOM);
    assert t == line + (end + more);
    FgetsTakes(line, end, more);
    assert n == |line + end| && t[..n] == line + end && t[n..] == more;
    if hidden == "" {
      assert line + end == indent + body + end + "" && line == indent + body;
      UpToNulOver(indent + body + end, "");
      SeenBehind(indent, body, end);
    } else {
      assert line + end == indent + body + (hidden + end);
      UpToNulOver(indent + body, hidden + end);
      assert indent + body == indent + body + "";
      SeenBehind(indent, body, "");
    }
  }

  lemma SeenBehind(indent: string, body: string, end: string)
    requires AllSpace(indent) && AllSpace(end) && (body != "" ==> !IsSpace(body[0]))
    ensures SkipSpace(indent + body + end) == if body == "" then "" else body + end
  {
    if body == "" {
      assert indent + body + end == (indent + end) + "";
      SkipSpaceOver(indent + end, "");
    } else {
      assert indent + body + end == indent + (body + end);
      SkipSpaceOver(indent, body + end);
    }
  }

  lemma EntryIndent(e: Entry)
    requires IsEntry(e)
    ensures AllSpace(e.indent) && OnOneLine(Render(e)) && |Render(e)| <= 1023
    ensures RenderBody(e) != "" ==> !IsSpace(RenderBody(e)[0])
  {
  }

  /** The line that the program sees of an entry with end behind it. */
  lemma EntryLine(e: Entry, end: string, more: string)
    requires IsEntry(e) && Ends(Render(e), end, more)
    ensures var t := Render(e) + end + more;
            && t[FgetsCount(t, LINE_ROOM)..] == more
            && FirstLine(t) == if RenderBody(e) == "" then "" else RenderBody(e) + end
  {
    hide RenderBody, IsEntry, FgetsCount, FirstLine;
    EntryIndent(e);
    assert Render(e) + "" == Render(e);
    LineSeen(e.indent, RenderBody(e), "", end, more);
  }

  // ---------- whole scripts ----------

  lemma CompileSkips(t: string)
    requires t != "" && (FirstLine(t) == "" || FirstLine(t)[0] == 'W' || FirstLine(t)[0] == '#')
    ensures Compile(t) == Compile(t[FgetsCount(t, LINE_ROOM)..])
  {
  }

  lemma CompileRecords(t: string, s: Source)
    requires t != "" && FirstLine(t) != "" && FirstLine(t)[0] == 'S' && ReadLine(FirstLine(t)) == Record(s)
    ensures var more := Compile(t[FgetsCount(t, LINE_ROOM)..]);
            Compile(t) == Compiled([s] + more.sources, more.status)
  {
  }

  /** What an entry and the text behind it compile to. */
  function Compiling(e: Entry, more: string): Compiled
    requires IsEntry(e)
  {
    if e.Skipped? then Compile(more)
    else Compiled([SourceOf(e)] + Compile(more).sources, Compile(more).status)
  }

  /** How a line starts, by its kind. */
  lemma EntryStart(e: Entry)
    requires IsEntry(e)
    ensures var body := RenderBody(e);
            if e.Send? then body != "" && body[0] == 'S'
            else body != "" ==> body[0] == 'W' || body[0] == '#'
  {
    hide RenderItems;
  }

  /** A text of which the program sees an entry first. */
  lemma CompileSeen(e: Entry, end: string, t: string, more: string)
    requires IsEntry(e) && AllSpace(end) && (e.Send? || t == "" ==> t != "" || more == "")
    requires t[FgetsCount(t, LINE_ROOM)..] == more
    requires FirstLine(t) == if RenderBody(e) == "" then "" else RenderBody(e) + end
    ensures Compile(t) == Compiling(e, more)
  {
    hide IsEntry, Compile, Render, RenderBody, FgetsCount, FirstLine, ReadLine, SourceOf;
    EntryStart(e);
    if e.Skipped? {
      if t == "" {
        assert more == "";
      } else {
        CompileSkips(t);
      }
    } else {
      NothingSeen();
      SendRead(e, end);
      CompileRecords(t, SourceOf(e));
    }
  }

  lemma NothingSeen()
    ensures FirstLine("") == ""
  {
  }

  /** An entry of which fgets takes all, with or without a newline. */
  lemma CompileTaken(e: Entry, end: string, more: string)
    requires IsEntry(e) && Ends(Render(e), end, more)
    ensures Compile(Render(e) + end + more) == Compiling(e, more)
  {
    hide IsEntry, Compile, Render, RenderBody, FgetsCount, FirstLine;
    EntryLine(e, end, more);
    CompileSeen(e, end, Render(e) + end + more, more);
  }

  lemma BlankLine(more: string)
    ensures Compile("\n" + more) == Compile(more)
  {
    var t := "\n" + more;
    assert FgetsCount(t, LINE_ROOM) == 1 && t[..1] == "\n" && t[1..] == more;
    assert UpToNul("\n") == "\n";
    CompileSkips(t);
  }

  /** One entry, with or without a newline, and the text behind it. The newline of
      a line that fills the room is a blank line of its own. */
  lemma CompileEntry(e: Entry, end: string, more: string)
    requires IsEntry(e) && (end == "\n" || (end == "" && more == ""))
    ensures Compile(Render(e) + end + more) == Compiling(e, more)
  {
    hide Compile, Render, SourceOf;
    if |Render(e)| < 1023 || end == "" {
      EntryIndent(e);
      CompileTaken(e, end, more);
    } else {
      EntryIndent(e);
      CompileTaken(e, "", end + more);
      assert Render(e) + "" + (end + more) == Render(e) + end + more;
      BlankLine(more);
    }
  }

  /** The lines of a script come first in what it and the text behind it compile
      to. */
  lemma {:induction false} CompileFirst(es: seq<Entry>, more: string)
    requires forall e | e in es :: IsEntry(e)
    ensures Compile(RenderFile(es, true) + more) ==
            Compiled(Meaning(es) + Compile(more).sources, Compile(more).status)
  {
    hide IsEntry, Compile, Render, SourceOf;
    if es == [] {
      assert RenderFile(es, true) + more == more && Meaning(es) + Compile(more).sources == Compile(more).sources;
    } else {
      var rest := RenderFile(es[1..], true) + more;
      CompileFirst(es[1..], more);
      assert IsEntry(es[0]);
      CompileEntry(es[0], "\n", rest);
      assert RenderFile(es, true) + more == Render(es[0]) + "\n" + rest;
      if es[0].Send? {
        Associative([SourceOf(es[0])], Meaning(es[1..]), Compile(more).sources);
      }
    }
  }

  /** Compiling the text of a script yields the meaning of its tree, whatever
      the white space, the token forms and the lines to be skipped. */
  lemma {:induction false} CompilerCorrect(es: seq<Entry>, closed: bool)
    requires forall e | e in es :: IsEntry(e)
    ensures Compile(RenderFile(es, closed)) == Compiled(Meaning(es), Success)
  {
    if es != [] {
      var end := if |es| == 1 && !closed then "" else "\n";
      var more := RenderFile(es[1..], closed);
      CompilerCorrect(es[1..], closed);
      assert IsEntry(es[0]);
      hide Compile, IsEntry, Render, SourceOf;
      CompileEntry(es[0], end, more);
      assert RenderFile(es, closed) == Render(es[0]) + end + more;
    }
  }

  /** A reader of the output gets back the commands of the script exactly when
      each has at most 255 bytes of data. */
  lemma {:induction false} RoundTrip(es: seq<Entry>, closed: bool)
    requires forall e | e in es :: IsEntry(e)
    ensures H4.DecodeAll(DumpAll(Compile(RenderFile(es, closed)).sources)).Some?
    ensures CarryAll(H4.DecodeAll(DumpAll(Compile(RenderFile(es, closed)).sources)).value, Meaning(es))
            <==> forall s | s in Meaning(es) :: |s.data| <= 255
  {
    CompilerCorrect(es, closed);
    LosslessExactlyWhenShort(Meaning(es));
  }

  /** What is behind a NUL in the line of an entry does not matter. */
  lemma NulEndsLine(e: Entry, hidden: string, more: string)
    requires IsEntry(e) && NoNewline(hidden) && |Render(e)| + |hidden| < 1022
    ensures Compile(Render(e) + ("\0" + hidden) + "\n" + more) == Compiling(e, more)
  {
    hide IsEntry, Compile, RenderBody, FgetsCount, FirstLine;
    EntryIndent(e);
    LineSeen(e.indent, RenderBody(e), "\0" + hidden, "\n", more);
    CompileSeen(e, "", Render(e) + ("\0" + hidden) + "\n" + more, more);
    assert RenderBody(e) + "" == RenderBody(e);
  }

  /** A comment that does not fit in the room is cut: what is behind its 1023
      characters is read as a line. */
  lemma LongComment(a: string, more: string)
    requires |a| == 1023 && OnOneLine(a) && (a[0] == '#' || a[0] == 'W')
    ensures Compile(a + more) == Compile(more)
  {
    hide FgetsCount, Compile, FirstLine;
    assert "" + a + "" == a && a + "" + more == a + more;
    LineSeen("", a, "", "", more);
    CompileSkips(a + more);
  }

  // ---------- a script that loses data ----------

  function Zeros(n: nat): (ps: seq<Pair>)
    ensures |ps| == n && forall i | 0 <= i < n :: ps[i] == Pair('0', '0', false)
  {
    if n == 0 then [] else [Pair('0', '0', false)] + Zeros(n - 1)
  }

  lemma {:induction false} ZerosText(n: nat)
    ensures |RenderPairs(Zeros(n))| == 2 * n
    ensures forall i | 0 <= i < 2 * n :: RenderPairs(Zeros(n))[i] == '0'
    ensures OnOneLine(RenderPairs(Zeros(n)))
  {
    if n > 0 {
      ZerosText(n - 1);
      assert Zeros(n)[1..] == Zeros(n - 1);
      assert RenderPairs(Zeros(n)) == ['0', '0'] + RenderPairs(Zeros(n - 1));
    }
  }

  lemma {:induction false} ZerosBytes(n: nat)
    ensures ArePairs(Zeros(n)) && |PairBytes(Zeros(n))| == n
  {
    if n > 0 {
      ZerosBytes(n - 1);
      assert Zeros(n)[1..] == Zeros(n - 1);
    }
  }

  /** A line with one quoted word. */
  function QuotedEntry(ps: seq<Pair>): (e: Entry)
    ensures e.Send?
  {
    Send("", "", " ", "0", "", [Item(" ", Text(ps), "")], "")
  }

  lemma OneItem(i: Item)
    requires IsItem(i)
    ensures AreItems([i]) && RenderItems([i]) == i.gap + (RenderWord(i.word) + i.junk)
    ensures ItemBytes([i]) == WordBytes(i.word)
  {
    hide RenderWord, WordBytes;
    assert [i][1..] == [] && i.gap + (RenderWord(i.word) + (i.junk + "")) == i.gap + (RenderWord(i.word) + i.junk);
    hide IsItem;
    assert WordBytes(i.word) + [] == WordBytes(i.word);
  }

  lemma QuotedItem(ps: seq<Pair>)
    requires ArePairs(ps)
    ensures IsItem(Item(" ", Text(ps), ""))
  {
  }

  lemma QuotedText(ps: seq<Pair>)
    requires ArePairs(ps)
    ensures Render(QuotedEntry(ps)) == "Send_ 0x0 \"" + (RenderPairs(ps) + "\"")
  {
    hide RenderPairs, RenderItems, IsItem;
    var word := "\"" + (RenderPairs(ps) + "\"");
    QuotedItem(ps);
    OneItem(Item(" ", Text(ps), ""));
    assert Render(QuotedEntry(ps)) == "" + ("Send_" + "" + (" " + ("0x" + "0" + "" + (" " + (word + "") + ""))));
  }

  lemma QuotedIsEntry(ps: seq<Pair>)
    requires ArePairs(ps) && |RenderPairs(ps)| <= 1000 && OnOneLine(RenderPairs(ps))
    ensures IsEntry(QuotedEntry(ps)) && SourceOf(QuotedEntry(ps)).data == PairBytes(ps)
  {
    hide RenderPairs, PairBytes, RenderItems, ItemBytes, Render, ArePairs, IsItem;
    QuotedText(ps);
    QuotedItem(ps);
    OneItem(Item(" ", Text(ps), ""));
    assert AllHex("0") && NoSpace("") && IsGap(" ");
  }

  lemma OneMeaning(e: Entry)
    requires IsEntry(e) && e.Send?
    ensures Meaning([e]) == [SourceOf(e)]
  {
    hide IsEntry, SourceOf;
    assert [e][1..] == [];
  }

  lemma LongLineLoses(ps: seq<Pair>)
    requires ArePairs(ps) && |RenderPairs(ps)| <= 1000 && OnOneLine(RenderPairs(ps)) && |PairBytes(ps)| > 255
    ensures var es := [QuotedEntry(ps)];
            && (forall e | e in es :: IsEntry(e))
            && H4.DecodeAll(DumpAll(Compile(RenderFile(es, true)).sources)).Some?
            && !CarryAll(H4.DecodeAll(DumpAll(Compile(RenderFile(es, true)).sources)).value, Meaning(es))
  {
    var e := QuotedEntry(ps);
    QuotedIsEntry(ps);
    hide IsEntry, SourceOf, DumpAll, Compile, RenderFile, CarryAll, PairBytes, RenderPairs, ArePairs, QuotedEntry;
    OneMeaning(e);
    RoundTrip([e], true);
    assert SourceOf(e) in Meaning([e]);
  }

  /** A script of which a reader of the output does not get back the data: one line
      with n > 255 quoted bytes. */
  lemma LossyScript(n: nat)
    requires 255 < n <= 500
    ensures var es := [QuotedEntry(Zeros(n))];
            && (forall e | e in es :: IsEntry(e))
            && H4.DecodeAll(DumpAll(Compile(RenderFile(es, true)).sources)).Some?
            && !CarryAll(H4.DecodeAll(DumpAll(Compile(RenderFile(es, true)).sources)).value, Meaning(es))
  {
    hide RenderPairs, PairBytes;
    ZerosText(n);
    ZerosBytes(n);
    hide *;
    LongLineLoses(Zeros(n));
  }
}
