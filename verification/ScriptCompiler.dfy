/** brfpatch as it works: cursors into a line buffer, and four-byte stores into
    a data array. */
module ScriptCompiler {
  import opened Bytes
  import opened CText
  import opened Script

  const DATA_SIZE: nat := 1024

  class OutputFile {
    var contents: seq<byte>

    constructor ()
      ensures contents == []
    {
      contents := [];
    }

    /** fwrite. */
    method Write(bytes: seq<byte>)
      modifies this
      ensures contents == old(contents) + bytes
    {
      contents := contents + bytes;
    }
  }

  /** How a parse step ended. */
  datatype Outcome = Fine | Error | Past

  predicate Matches(p: Parsed, outcome: Outcome) {
    match p
    case Parsed(_, _) => outcome == Fine
    case Malformed => outcome == Error
    case PastEnd => outcome == Past
  }

  /** advance: moves the cursor beyond the next white space; false at the end
      of the string. */
  method Advance(s: string, p: nat) returns (q: nat, found: bool)
    requires p <= |s|
    ensures p <= q <= |s| && s[q..] == AdvanceTo(s[p..])
    ensures found == (q < |s|)
  {
    q := p;
    while q < |s| && !IsSpace(s[q])
      invariant p <= q <= |s| && SkipWord(s[q..]) == SkipWord(s[p..])
    {
      assert s[q..][1..] == s[q + 1..];
      q := q + 1;
    }
    while q < |s| && IsSpace(s[q])
      invariant p <= q <= |s| && SkipSpace(s[q..]) == AdvanceTo(s[p..])
    {
      assert s[q..][1..] == s[q + 1..];
      q := q + 1;
    }
    found := q < |s|;
  }

  /** What sscanf does with the address of a data byte: it stores all four
      bytes of an unsigned int there. */
  method StoreWord(data: array<byte>, dp: nat, v: u32)
    requires dp + 4 <= data.Length
    modifies data
    ensures data[..] == old(data[..dp]) + LittleEndian(v, 4) + old(data[dp + 4..])
  {
    var word := LittleEndian(v, 4);
    forall k | 0 <= k < 4 {
      data[dp + k] := word[k];
    }
  }

  /** A store of four bytes of which n are kept. */
  lemma KeepSome(before: seq<byte>, after: seq<byte>, dp: nat, v: u32, n: nat)
    requires dp + 4 <= |before| == |after| && n <= 4
    requires after == before[..dp] + LittleEndian(v, 4) + before[dp + 4..]
    ensures after[..dp + n] == before[..dp] + LittleEndian(v, n)
  {
    LittleEndianPrefix(v, n, 4);
    assert after[..dp + n] == before[..dp] + LittleEndian(v, 4)[..n];
  }

  /** What a reader that started with the array holding front has done: it ended
      as q says, and when q has bytes they follow front and the cursor is at q's
      rest, with two characters consumed for each byte. */
  ghost predicate Stored(q: Parsed, s: string, p: nat, dp: nat, outcome: Outcome, data: seq<byte>, front: seq<byte>) {
    && Matches(q, outcome)
    && (outcome == Fine ==>
          && p <= |s| && s[p..] == q.rest
          && dp == |front| + |q.bytes| <= |data| && 2 * dp <= p
          && data[..dp] == front + q.bytes)
  }

  /** One byte of quoted data, and the colon behind it. */
  method ReadOctet(s: string, start: nat, data: array<byte>, dp0: nat)
    returns (p: nat, dp: nat, outcome: Outcome, ghost octet: byte)
    requires start < |s| && s[start] != '"' && dp0 + 4 <= data.Length
    modifies data
    ensures outcome == Error ==> Quoted(s[start..]) == Malformed
    ensures outcome == Past ==> Quoted(s[start..]) == PastEnd
    ensures outcome == Fine ==>
              && start + 2 <= p <= |s| && dp == dp0 + 1
              && data[..dp] == old(data[..dp0]) + [octet]
              && Quoted(s[start..]) == Prepend([octet], Quoted(s[p..]))
  {
    p, dp, octet := start, dp0, 0;
    var item := ScanHex(s[p..], 2);
    if item.NoMatch? {
      return p, dp, Error, octet;
    }
    ghost var before := data[..];
    StoreWord(data, dp, item.value);
    KeepSome(before, data[..], dp, item.value, 1);
    octet := item.value % 256;
    assert LittleEndian(item.value, 1) == [octet];
    dp := dp + 1;
    if p + 2 > |s| {
      return p, dp, Past, octet;
    }
    assert s[p..][2..] == s[p + 2..];
    ghost var next := SkipColon(s[p + 2..]);
    p := p + 2;
    if p < |s| && s[p] == ':' {
      p := p + 1;
    }
    assert s[p..] == next;
    outcome := Fine;
  }

  lemma QuotedEnd(t: string)
    requires t == "" || t[0] == '"'
    ensures Quoted(t) == Parsed([], t)
  {
  }

  /** Quoted data. Two characters are consumed for each byte, so every store
      stays inside the array. */
  method ReadQuoted(s: string, start: nat, data: array<byte>, dp0: nat) returns (p: nat, dp: nat, outcome: Outcome)
    requires start <= |s| <= LINE_ROOM && data.Length == DATA_SIZE && 2 * dp0 <= start
    modifies data
    ensures Stored(Quoted(s[start..]), s, p, dp, outcome, data[..], old(data[..dp0]))
  {
    hide Quoted, ScanHex;
    p, dp, outcome := start, dp0, Fine;
    ghost var whole, front, done := Quoted(s[start..]), data[..dp0], [];
    PrependTwice([], [], whole);
    while p < |s| && s[p] != '"'
      invariant start <= p <= |s| && outcome == Fine
      invariant dp == dp0 + |done| && 2 * dp <= p
      invariant data[..dp] == front + done
      invariant whole == Prepend(done, Quoted(s[p..]))
    {
      assert dp <= data.Length;  // so the program's check of the data size never fails
      ghost var octet;
      p, dp, outcome, octet := ReadOctet(s, p, data, dp);
      if outcome != Fine {
        return;
      }
      PrependTwice(done, [octet], Quoted(s[p..]));
      assert front + done + [octet] == front + (done + [octet]);
      done := done + [octet];
    }
    QuotedEnd(s[p..]);
    assert whole == Parsed(done, s[p..]) by { assert done + [] == done; }
  }

  /** The end of a run of letters and digits. */
  method AlnumEnd(s: string, start: nat) returns (end: nat)
    requires start <= |s|
    ensures end == start + AlnumRun(s[start..]) <= |s|
  {
    end := start;
    while end < |s| && IsAlnum(s[end])
      invariant start <= end <= |s|
      invariant start + AlnumRun(s[start..]) == end + AlnumRun(s[end..])
    {
      assert s[end..][1..] == s[end + 1..];
      end := end + 1;
    }
  }

  /** A number of at most eight digits. */
  method ReadShort(s: string, start: nat, n: nat, data: array<byte>, dp0: nat)
    returns (p: nat, dp: nat, outcome: Outcome)
    requires start + n <= |s| && n <= 8 && n % 2 == 0
    requires dp0 + 4 <= data.Length && 2 * dp0 <= start
    modifies data
    ensures Stored(ShortNumber(s[start..], n), s, p, dp, outcome, data[..], old(data[..dp0]))
  {
    p, dp := start, dp0;
    var item := ScanHex(s[p..], n);
    if item.NoMatch? {
      return p, dp, Error;
    }
    ghost var before := data[..];
    StoreWord(data, dp, item.value);
    KeepSome(before, data[..], dp, item.value, n / 2);
    p := p + n;
    dp := dp + n / 2;
    assert s[start..][n..] == s[p..];
    outcome := Fine;
  }

  /** A number of 16 digits: its first half is stored behind the place of its
      second half, and the second store does not reach it. */
  method ReadLong(s: string, start: nat, data: array<byte>, dp0: nat) returns (p: nat, dp: nat, outcome: Outcome)
    requires start + 16 <= |s|
    requires dp0 + 8 <= data.Length && 2 * dp0 <= start
    modifies data
    ensures Stored(LongNumber(s[start..]), s, p, dp, outcome, data[..], old(data[..dp0]))
  {
    p, dp := start, dp0;
    dp := dp + 4;
    var high := ScanHex(s[p..], 8);
    if high.NoMatch? {
      return p, dp, Error;
    }
    StoreWord(data, dp, high.value);
    p := p + 8;
    dp := dp - 4;
    assert s[start..][8..] == s[p..];
    var low := ScanHex(s[p..], 8);
    if low.NoMatch? {
      return p, dp, Error;
    }
    ghost var before := data[..];
    StoreWord(data, dp, low.value);
    TwoStores(old(data[..]), before, data[..], dp, high.value, low.value);
    p := p + 8;
    dp := dp + 8;
    assert s[start..][16..] == s[p..];
    outcome := Fine;
  }

  lemma TwoStores(a: seq<byte>, b: seq<byte>, c: seq<byte>, dp: nat, high: u32, low: u32)
    requires dp + 8 <= |a| == |b| == |c|
    requires b == a[..dp + 4] + LittleEndian(high, 4) + a[dp + 8..]
    requires c == b[..dp] + LittleEndian(low, 4) + b[dp + 4..]
    ensures c[..dp + 8] == a[..dp] + (LittleEndian(low, 4) + LittleEndian(high, 4))
  {
    hide LittleEndian;
    assert b[..dp] == a[..dp];
    assert b[dp + 4..][..4] == LittleEndian(high, 4);
    assert c[..dp + 8] == b[..dp] + LittleEndian(low, 4) + b[dp + 4..][..4];
  }

  /** A number behind its 0x. */
  method ReadDigits(s: string, start: nat, data: array<byte>, dp0: nat) returns (p: nat, dp: nat, outcome: Outcome)
    requires start <= |s| <= LINE_ROOM && data.Length == DATA_SIZE && 2 * dp0 <= start
    modifies data
    ensures Stored(Digits(s[start..]), s, p, dp, outcome, data[..], old(data[..dp0]))
  {
    var end := AlnumEnd(s, start);
    var n := end - start;
    if n == 2 || n == 4 || n == 6 || n == 8 {
      p, dp, outcome := ReadShort(s, start, n, data, dp0);
    } else if n == 16 {
      p, dp, outcome := ReadLong(s, start, data, dp0);
    } else {
      p, dp, outcome := start, dp0, Error;
    }
  }

  /** dump_record. */
  method DumpRecord(file: OutputFile, opcode: u16, len: byte, data: array<byte>)
    requires len <= data.Length
    modifies file
    ensures file.contents == old(file.contents) + [1, opcode % 256, opcode / 256, len] + data[..len]
  {
    file.Write([1]);
    file.Write([opcode % 256, opcode / 256]);
    file.Write([len]);
    file.Write(data[..len]);
  }

  /** One word of data. */
  method ReadField(s: string, start: nat, data: array<byte>, dp0: nat) returns (p: nat, dp: nat, outcome: Outcome)
    requires start < |s| <= LINE_ROOM && data.Length == DATA_SIZE && 2 * dp0 <= start
    modifies data
    ensures Stored(Field(s[start..]), s, p, dp, outcome, data[..], old(data[..dp0]))
  {
    ghost var t := s[start..];
    p := start;
    if s[p] == '"' {
      p := p + 1;
      assert t[1..] == s[p..];
      p, dp, outcome := ReadQuoted(s, p, data, dp0);
    } else if s[p] == '0' {
      p := p + 1;
      if p == |s| || s[p] != 'x' {
        return p, dp0, Error;
      }
      p := p + 1;
      assert t[2..] == s[p..];
      p, dp, outcome := ReadDigits(s, p, data, dp0);
    } else {
      return p, dp0, Error;
    }
  }

  /** One more word of data. */
  lemma FieldsStep(t: string, done: seq<byte>)
    ensures AdvanceTo(t) == "" ==> Fields(t) == Parsed([], "")
    ensures AdvanceTo(t) != "" ==>
              var f := Field(AdvanceTo(t));
              if f.Parsed? then
                |f.rest| < |t| && Prepend(done, Fields(t)) == Prepend(done + f.bytes, Fields(f.rest))
              else Prepend(done, Fields(t)) == f
  {
    if AdvanceTo(t) != "" {
      var f := Field(AdvanceTo(t));
      if f.Parsed? {
        PrependTwice(done, f.bytes, Fields(f.rest));
      }
    }
  }

  /** The data words behind the cursor, one after the other into the array. */
  method ReadFields(s: string, start: nat, data: array<byte>) returns (dp: nat, outcome: Outcome)
    requires start <= |s| <= LINE_ROOM && data.Length == DATA_SIZE
    modifies data
    ensures Matches(Fields(s[start..]), outcome)
    ensures outcome == Fine ==> dp <= data.Length && data[..dp] == Fields(s[start..]).bytes
  {
    var p := start;
    dp := 0;
    PrependTwice([], [], Fields(s[start..]));
    while true
      invariant p <= |s| && 2 * dp <= p
      invariant Fields(s[start..]) == Prepend(data[..dp], Fields(s[p..]))
      decreases |s| - p
    {
      FieldsStep(s[p..], data[..dp]);
      var q, found := Advance(s, p);
      if !found {
        return dp, Fine;
      }
      p, dp, outcome := ReadField(s, q, data, dp);
      if outcome != Fine {
        return;
      }
    }
  }

  /** The opcode of a Send_ line. */
  method ReadOpcode(buf: string) returns (p: nat, opcode: u16, found: bool)
    ensures found == ReadHeader(buf).Header?
    ensures found ==> p <= |buf| && ReadHeader(buf) == Header(opcode, buf[p..])
  {
    p, opcode, found := 0, 0, false;
    if !("Send_" <= buf) {
      return;
    }
    assert buf[0..] == buf;
    p, found := Advance(buf, 0);
    if !found || !("0x" <= buf[p..]) {
      return p, 0, false;
    }
    var item := ScanHex(buf[p..][2..], 4);
    if item.NoMatch? {
      return p, 0, false;
    }
    return p, item.value % 0x1_0000, true;
  }

  /** A record made of the first bytes of the array. */
  lemma DumpOf(s: Source, data: seq<byte>)
    requires |s.data| <= |data| && s.data == data[..|s.data|]
    ensures var len := |s.data| % 256;
            Dump(s) == [1, s.opcode % 256, s.opcode / 256, len] + data[..len]
  {
    assert data[..|s.data|][..|s.data| % 256] == data[..|s.data| % 256];
  }

  /** process_line: writes one record, or ends the program. */
  method ProcessLine(file: OutputFile, buf: string) returns (outcome: Outcome)
    requires |buf| <= LINE_ROOM
    modifies file
    ensures match ReadLine(buf)
            case Record(source) => outcome == Fine && file.contents == old(file.contents) + Dump(source)
            case BadLine => outcome == Error && file.contents == old(file.contents)
            case LinePastEnd => outcome == Past && file.contents == old(file.contents)
  {
    hide Fields, ReadHeader, Dump;
    var p, opcode, found := ReadOpcode(buf);
    if !found {
      return Error;
    }
    var data := new byte[DATA_SIZE];
    var dp;
    dp, outcome := ReadFields(buf, p, data);
    if outcome == Fine {
      DumpOf(Source(opcode, data[..dp]), data[..]);
      var len := dp % 256;
      DumpRecord(file, opcode, len, data);
    }
  }

  lemma {:induction false} DumpAllAppend(ss: seq<Source>, s: Source)
    ensures DumpAll(ss + [s]) == DumpAll(ss) + Dump(s)
  {
    if ss == [] {
      assert ss + [s] == [s];
    } else {
      assert (ss + [s])[1..] == ss[1..] + [s];
      DumpAllAppend(ss[1..], s);
    }
  }

  lemma WrittenAppend(before: seq<byte>, done: seq<Source>, s: Source)
    ensures before + DumpAll(done) + Dump(s) == before + DumpAll(done + [s])
  {
    DumpAllAppend(done, s);
    Associative(before, DumpAll(done), Dump(s));
  }

  function Behind(done: seq<Source>, c: Compiled): Compiled {
    Compiled(done + c.sources, c.status)
  }

  lemma BehindTwice(done: seq<Source>, s: Source, c: Compiled)
    ensures Behind(done, Compiled([s] + c.sources, c.status)) == Behind(done + [s], c)
    ensures Behind([], c) == c && Behind(done, Compiled([], c.status)) == Compiled(done, c.status)
  {
    assert done + ([s] + c.sources) == done + [s] + c.sources;
    assert [] + c.sources == c.sources && done + [] == done;
  }

  /** fgets, and the cursor moved to the first character of the line that is
      not white space. */
  method NextLine(t: string) returns (buf: string, rest: string)
    requires t != ""
    ensures buf == FirstLine(t) && rest == t[FgetsCount(t, LINE_ROOM)..] && |rest| < |t|
  {
    var n := FgetsCount(t, LINE_ROOM);
    var line := UpToNul(t[..n]);
    var p := 0;
    assert line[0..] == line;
    while p < |line| && IsSpace(line[p])
      invariant p <= |line| && SkipSpace(line[p..]) == SkipSpace(line)
    {
      assert line[p..][1..] == line[p + 1..];
      p := p + 1;
    }
    return line[p..], t[n..];
  }

  /** What one line of a script contributes. */
  lemma CompileStep(t: string, done: seq<Source>)
    requires t != ""
    ensures var line, rest := FirstLine(t), t[FgetsCount(t, LINE_ROOM)..];
            Behind(done, Compile(t)) ==
            if line == "" || line[0] == 'W' || line[0] == '#' then Behind(done, Compile(rest))
            else if line[0] != 'S' then Compiled(done, Exit)
            else match ReadLine(line)
                 case BadLine => Compiled(done, Exit)
                 case LinePastEnd => Compiled(done, Undefined)
                 case Record(s) => Behind(done + [s], Compile(rest))
  {
    assert done + [] == done;
    var line, rest := FirstLine(t), t[FgetsCount(t, LINE_ROOM)..];
    if line != "" && line[0] == 'S' && ReadLine(line).Record? {
      BehindTwice(done, ReadLine(line).source, Compile(rest));
    }
  }

  /** The program, line by line into the output file. */
  method CompileScript(input: string, file: OutputFile) returns (status: Status)
    modifies file
    ensures status == Compile(input).status
    ensures file.contents == old(file.contents) + DumpAll(Compile(input).sources)
  {
    var text := input;
    ghost var whole, before, done := Compile(input), file.contents, [];
    BehindTwice([], Source(0, []), whole);
    while text != ""
      invariant whole == Behind(done, Compile(text))
      invariant file.contents == before + DumpAll(done)
      decreases |text|
    {
      CompileStep(text, done);
      var buf, rest := NextLine(text);
      if buf != "" && buf[0] != 'W' && buf[0] != '#' {
        if buf[0] != 'S' {
          return Exit;
        }
        ghost var line := ReadLine(buf);
        var outcome := ProcessLine(file, buf);
        if outcome == Error {
          return Exit;
        }
        if outcome == Past {
          return Undefined;
        }
        WrittenAppend(before, done, line.source);
        done := done + [line.source];
      }
      text := rest;
    }
    assert done + [] == done;
    status := Success;
  }
}
