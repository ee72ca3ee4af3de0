/** The H4 UART transport of HCI commands: packet indicator 0x01 (section 2 of
    Vol 4 Part A of the Bluetooth Core Specification 4.0), then the command
    packet of section 5.4.1 of Vol 2 Part E: a little-endian opcode, a length
    byte and that many parameter bytes. */
module H4 {
  import opened Bytes

  type Payload = p: seq<byte> | |p| <= 255

  datatype Command = Command(opcode: u16, payload: Payload)

  function Encode(c: Command): seq<byte> {
    [1, c.opcode % 256, c.opcode / 256, |c.payload|] + c.payload
  }

  function EncodeAll(cs: seq<Command>): seq<byte> {
    if cs == [] then [] else Encode(cs[0]) + EncodeAll(cs[1..])
  }

  /** The length of the frame whose four header bytes start s. */
  function FrameLength(s: seq<byte>): nat
    requires |s| >= 4
  {
    4 + s[3] as int
  }

  /** A byte string that is exactly one command frame. */
  predicate IsFrame(f: seq<byte>) {
    |f| >= 4 && f[0] == 1 && |f| == FrameLength(f)
  }

  function Decode(f: seq<byte>): Command
    requires IsFrame(f)
  {
    Command(f[1] as int + 256 * f[2] as int, f[4..])
  }

  /** Parses a byte stream as command frames; None when it is not a whole
      number of them. */
  function DecodeAll(s: seq<byte>): Option<seq<Command>>
    decreases |s|
  {
    if s == [] then Some([])
    else if |s| < 4 || s[0] != 1 || |s| < FrameLength(s) then None
    else
      var rest := DecodeAll(s[FrameLength(s)..]);
      if rest.None? then None else Some([Decode(s[..FrameLength(s)])] + rest.value)
  }

  lemma EncodeIsFrame(c: Command)
    ensures IsFrame(Encode(c)) && Decode(Encode(c)) == c
  {
    assert Encode(c)[4..] == c.payload;
  }

  lemma DecodeIsInverse(f: seq<byte>)
    requires IsFrame(f)
    ensures Encode(Decode(f)) == f
  {
    assert f == [f[0], f[1], f[2], f[3]] + f[4..];
  }

  /** One frame in front of a stream is one command in front of its parse. */
  lemma DecodeFrameFirst(f: seq<byte>, s: seq<byte>)
    requires IsFrame(f)
    ensures DecodeAll(f + s) ==
            if DecodeAll(s).None? then None else Some([Decode(f)] + DecodeAll(s).value)
  {
    var t := f + s;
    assert t[3] == f[3];
    assert t[..FrameLength(t)] == f && t[FrameLength(t)..] == s;
  }

  /** Decoding undoes encoding, for every list of commands. */
  lemma {:induction false} DecodeEncodeAll(cs: seq<Command>)
    ensures DecodeAll(EncodeAll(cs)) == Some(cs)
  {
    if cs != [] {
      DecodeEncodeAll(cs[1..]);
      EncodeIsFrame(cs[0]);
      DecodeFrameFirst(Encode(cs[0]), EncodeAll(cs[1..]));
      assert cs == [cs[0]] + cs[1..];
    }
  }

  /** Only an encoding decodes, and it decodes to what was encoded. */
  lemma {:induction false} EncodeDecodeAll(s: seq<byte>)
    requires DecodeAll(s).Some?
    ensures EncodeAll(DecodeAll(s).value) == s
    decreases |s|
  {
    if s != [] {
      var n := FrameLength(s);
      EncodeDecodeAll(s[n..]);
      DecodeIsInverse(s[..n]);
      var cs := DecodeAll(s).value;
      assert cs[0] == Decode(s[..n]) && cs[1..] == DecodeAll(s[n..]).value;
      assert s == s[..n] + s[n..];
    }
  }

  /** A stream is the encoding of at most one list of commands. */
  lemma UniquelyDecodable(cs: seq<Command>, ds: seq<Command>)
    requires EncodeAll(cs) == EncodeAll(ds)
    ensures cs == ds
  {
    DecodeEncodeAll(cs);
    DecodeEncodeAll(ds);
  }

  predicate AreFrames(fs: seq<seq<byte>>) {
    fs == [] || (IsFrame(fs[0]) && AreFrames(fs[1..]))
  }

  lemma {:induction false} FramesJoin(a: seq<seq<byte>>, b: seq<seq<byte>>)
    requires AreFrames(a) && AreFrames(b)
    ensures AreFrames(a + b)
  {
    if a == [] {
      assert a + b == b;
    } else {
      FramesJoin(a[1..], b);
      assert (a + b)[1..] == a[1..] + b;
    }
  }

  function DecodeFrames(fs: seq<seq<byte>>): (cs: seq<Command>)
    requires AreFrames(fs)
    ensures |cs| == |fs|
  {
    if fs == [] then [] else [Decode(fs[0])] + DecodeFrames(fs[1..])
  }

  /** Frames written back to back parse as the commands they carry, and as
      nothing else. */
  lemma {:induction false} FramesDecode(fs: seq<seq<byte>>)
    requires AreFrames(fs)
    ensures DecodeAll(Concat(fs)) == Some(DecodeFrames(fs))
    ensures EncodeAll(DecodeFrames(fs)) == Concat(fs)
  {
    if fs != [] {
      FramesDecode(fs[1..]);
      DecodeFrameFirst(fs[0], Concat(fs[1..]));
    }
    EncodeDecodeAll(Concat(fs));
  }

  /** The bytes of a command on the wire. */
  lemma Layout(c: Command)
    ensures var f := Encode(c);
            && f[0] == 0x01 && f[1] as int + 0x100 * f[2] as int == c.opcode
            && f[3] == |c.payload| && f[4..] == c.payload && |f| == 4 + |c.payload|
  {
  }

  /** HCI_Reset (section 7.3.2 of Vol 2 Part E), as bytes and as a command. */
  lemma ResetExample()
    ensures Encode(Command(0x0c03, [])) == [0x01, 0x03, 0x0c, 0x00]
    ensures DecodeAll([0x01, 0x03, 0x0c, 0x00]) == Some([Command(0x0c03, [])])
  {
    var c := Command(0x0c03, []);
    assert EncodeAll([c]) == Encode(c) + EncodeAll([c][1..]) == Encode(c);
    DecodeEncodeAll([c]);
  }
}
