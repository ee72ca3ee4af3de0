/** What brfpatch computes: scripts of Send_ lines, as functions on text. A
    cursor into a line is the suffix it points at. */
module Script {
  import opened Bytes
  import opened CText
  import H4

  /** One Send_ line: an opcode and its data, of any length. */
  datatype Source = Source(opcode: u16, data: seq<byte>)

  /** Bytes read up to a cursor; or a parse error, on which the program exits;
      or a cursor moved past the terminator of its line, where C defines
      nothing. */
  datatype Parsed = Parsed(bytes: seq<byte>, rest: string) | Malformed | PastEnd

  function Prepend(bs: seq<byte>, p: Parsed): Parsed {
    if p.Parsed? then Parsed(bs + p.bytes, p.rest) else p
  }

  lemma PrependTwice(a: seq<byte>, b: seq<byte>, p: Parsed)
    ensures Prepend(a, Prepend(b, p)) == Prepend(a + b, p)
    ensures Prepend([], p) == p
  {
    if p.Parsed? {
      assert a + (b + p.bytes) == a + b + p.bytes;
      assert [] + p.bytes == p.bytes;
    }
  }

  /** The next word: beyond the rest of this one and the white space after it. */
  function AdvanceTo(t: string): (r: string)
    ensures |r| <= |t|
  {
    SkipSpace(SkipWord(t))
  }

  /** Quoted data, from behind the opening quote up to the closing one: each
      byte is a two-character conversion, with an optional colon behind it. */
  function Quoted(t: string): (p: Parsed)
    ensures p.Parsed? ==> |p.rest| <= |t| && 2 * |p.bytes| <= |t| - |p.rest|
    decreases |t|
  {
    if t == "" || t[0] == '"' then Parsed([], t)
    else match ScanHex(t, 2)
      case NoMatch => Malformed
      case Match(v, _) =>
        if |t| < 2 then PastEnd
        else Prepend([v % 256], Quoted(SkipColon(t[2..])))
  }

  function SkipColon(t: string): string {
    if t != "" && t[0] == ':' then t[1..] else t
  }

  /** How many letters and digits t starts with. */
  function AlnumRun(t: string): (n: nat)
    ensures n <= |t|
  {
    if t != "" && IsAlnum(t[0]) then 1 + AlnumRun(t[1..]) else 0
  }

  /** A number of n <= 8 digits: one conversion, n / 2 bytes little-endian. */
  function ShortNumber(t: string, n: nat): (p: Parsed)
    requires n <= |t|
    ensures p.Parsed? ==> p.rest == t[n..] && |p.bytes| == n / 2
  {
    match ScanHex(t, n)
    case NoMatch => Malformed
    case Match(v, _) => Parsed(LittleEndian(v, n / 2), t[n..])
  }

  /** A number of 16 digits: two conversions, the first giving the high half. */
  function LongNumber(t: string): (p: Parsed)
    requires 16 <= |t|
    ensures p.Parsed? ==> p.rest == t[16..] && |p.bytes| == 8
  {
    match ScanHex(t, 8)
    case NoMatch => Malformed
    case Match(high, _) =>
      match ScanHex(t[8..], 8)
      case NoMatch => Malformed
      case Match(low, _) => Parsed(LittleEndian(low, 4) + LittleEndian(high, 4), t[16..])
  }

  /** A number behind its 0x, by its count of characters. */
  function Digits(t: string): (p: Parsed)
    ensures p.Parsed? ==> |p.rest| < |t| && 2 * |p.bytes| == |t| - |p.rest|
  {
    var n := AlnumRun(t);
    if n == 2 || n == 4 || n == 6 || n == 8 then ShortNumber(t, n)
    else if n == 16 then LongNumber(t)
    else Malformed
  }

  /** One word of data. */
  function Field(t: string): (p: Parsed)
    requires t != ""
    ensures p.Parsed? ==> |p.rest| < |t| && 2 * |p.bytes| < |t| - |p.rest|
  {
    if t[0] == '"' then Quoted(t[1..])
    else if "0x" <= t then Digits(t[2..])
    else Malformed
  }

  /** All words of data beyond the current one. */
  function Fields(t: string): (p: Parsed)
    ensures p.Parsed? ==> p.rest == "" && 2 * |p.bytes| <= |t|
    decreases |t|
  {
    var u := AdvanceTo(t);
    if u == "" then Parsed([], "")
    else
      var f := Field(u);
      if f.Parsed? then Prepend(f.bytes, Fields(f.rest)) else f
  }

  /** The opcode of a Send_ line, and the cursor at it. */
  datatype Header = Header(opcode: u16, rest: string) | NoHeader

  function ReadHeader(t: string): (h: Header)
    ensures h.Header? ==> |h.rest| <= |t|
  {
    if !("Send_" <= t) then NoHeader
    else
      var u := AdvanceTo(t);
      if !("0x" <= u) then NoHeader
      else match ScanHex(u[2..], 4)
        case NoMatch => NoHeader
        case Match(opcode, _) => Header(opcode % 0x1_0000, u)
  }

  datatype Line = Record(source: Source) | BadLine | LinePastEnd

  /** process_line. */
  function ReadLine(t: string): (r: Line)
    ensures r.Record? ==> 2 * |r.source.data| <= |t|
  {
    match ReadHeader(t)
    case NoHeader => BadLine
    case Header(opcode, u) =>
      match Fields(u)
      case Parsed(data, _) => Record(Source(opcode, data))
      case Malformed => BadLine
      case PastEnd => LinePastEnd
  }

  /** dump_record: the length byte wraps, and only that many bytes follow. */
  function Dump(s: Source): seq<byte> {
    [1, s.opcode % 256, s.opcode / 256, |s.data| % 256] + s.data[..|s.data| % 256]
  }

  function DumpAll(ss: seq<Source>): seq<byte> {
    if ss == [] then [] else Dump(ss[0]) + DumpAll(ss[1..])
  }

  /** How many characters fgets takes when it has room for that many. */
  function FgetsCount(t: string, room: nat): (n: nat)
    ensures n <= |t| && n <= room
    ensures t != "" && room > 0 ==> n > 0
    decreases t, room
  {
    if t == "" || room == 0 then 0
    else if t[0] == '\n' then 1
    else 1 + FgetsCount(t[1..], room - 1)
  }

  /** A buffer as a C string. */
  function UpToNul(t: string): (r: string)
    ensures |r| <= |t|
  {
    if t == "" || t[0] == '\0' then "" else [t[0]] + UpToNul(t[1..])
  }

  datatype Status = Success | Exit | Undefined

  datatype Compiled = Compiled(sources: seq<Source>, status: Status)

  const LINE_ROOM: nat := 1023

  /** The line that fgets makes of the start of t, from its first character
      that is not white space. */
  function FirstLine(t: string): (r: string)
    ensures |r| <= LINE_ROOM
  {
    SkipSpace(UpToNul(t[..FgetsCount(t, LINE_ROOM)]))
  }

  /** The program: what it writes before it ends, and how it ends. */
  function Compile(t: string): Compiled
    decreases |t|
  {
    if t == "" then Compiled([], Success)
    else
      var line := FirstLine(t);
      var rest := t[FgetsCount(t, LINE_ROOM)..];
      if line == "" || line[0] == 'W' || line[0] == '#' then Compile(rest)
      else if line[0] != 'S' then Compiled([], Exit)
      else match ReadLine(line)
        case BadLine => Compiled([], Exit)
        case LinePastEnd => Compiled([], Undefined)
        case Record(s) =>
          var more := Compile(rest);
          Compiled([s] + more.sources, more.status)
  }

  // ---------- every output is a stream of command frames ----------

  /** What a reader of the output gets for a line. */
  function Truncated(s: Source): H4.Command {
    H4.Command(s.opcode, s.data[..|s.data| % 256])
  }

  function TruncatedAll(ss: seq<Source>): (cs: seq<H4.Command>)
    ensures |cs| == |ss|
  {
    if ss == [] then [] else [Truncated(ss[0])] + TruncatedAll(ss[1..])
  }

  lemma DumpIsFrame(s: Source)
    ensures Dump(s) == H4.Encode(Truncated(s))
  {
  }

  /** Whatever the lines, the output parses as exactly one command per line,
      each with its first n mod 256 bytes. */
  lemma {:induction false} OutputDecodes(ss: seq<Source>)
    ensures DumpAll(ss) == H4.EncodeAll(TruncatedAll(ss))
    ensures H4.DecodeAll(DumpAll(ss)) == Option.Some(TruncatedAll(ss))
  {
    if ss != [] {
      OutputDecodes(ss[1..]);
      DumpIsFrame(ss[0]);
      assert TruncatedAll(ss)[1..] == TruncatedAll(ss[1..]);
    }
    H4.DecodeEncodeAll(TruncatedAll(ss));
  }

  /** Commands that carry the opcodes and all of the data of the lines. */
  predicate CarryAll(cs: seq<H4.Command>, ss: seq<Source>) {
    if cs == [] || ss == [] then cs == [] && ss == []
    else cs[0].opcode == ss[0].opcode && cs[0].payload == ss[0].data && CarryAll(cs[1..], ss[1..])
  }

  lemma CarriesWhenShort(s: Source)
    ensures Truncated(s).payload == s.data <==> |s.data| <= 255
  {
    var n := |s.data|;
    if n <= 255 {
      assert n % 256 == n && s.data[..n] == s.data;
    } else {
      assert |Truncated(s).payload| == n % 256 < n;
    }
  }

  lemma {:induction false} CarryAllWhenShort(ss: seq<Source>)
    ensures CarryAll(TruncatedAll(ss), ss) <==> forall s | s in ss :: |s.data| <= 255
  {
    if ss != [] {
      CarriesWhenShort(ss[0]);
      CarryAllWhenShort(ss[1..]);
      assert TruncatedAll(ss)[1..] == TruncatedAll(ss[1..]);
      assert ss == [ss[0]] + ss[1..];
    }
  }

  /** The output decodes to what the lines say exactly when each line's data
      fits the length byte. */
  lemma {:induction false} LosslessExactlyWhenShort(ss: seq<Source>)
    ensures H4.DecodeAll(DumpAll(ss)).Some?
    ensures CarryAll(H4.DecodeAll(DumpAll(ss)).value, ss) <==> forall s | s in ss :: |s.data| <= 255
  {
    OutputDecodes(ss);
    CarryAllWhenShort(ss);
  }
}
