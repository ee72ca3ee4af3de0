/** What a run writes, as bytes: an H4 command stream, and the HCD file inside
    it. */
module PatchramFrames {
  import opened Bytes
  import opened PatchramConfig
  import opened PatchramTrace
  import opened PatchramRuns
  import H4

  /** Whatever the file, each download is a whole command frame: a truncated
      record is filled up with stale bytes of the buffer. */
  lemma {:induction false} DownloadsAreFrames(h: seq<byte>, fs: seq<seq<byte>>, r: seq<byte>)
    requires Feeds(h, fs, r)
    ensures H4.AreFrames(fs)
    decreases |fs|
  {
    if fs != [] {
      if HasRecord(h) {
        DownloadsAreFrames(h[RecordSize(h)..], fs[1..], r);
      } else {
        var none: seq<seq<byte>> := [];
        assert fs[1..] == none;
      }
    }
  }

  lemma TemplateIsFrame(t: seq<byte>, low: byte, high: byte, size: nat)
    requires IsTemplate(t, low, high, size)
    ensures H4.IsFrame(t)
  {
  }

  lemma OneFrame(b: bool, f: seq<byte>)
    requires H4.IsFrame(f)
    ensures H4.AreFrames(When(b, [f]))
  {
    var none: seq<seq<byte>> := [];
    assert [f][1..] == none;
  }

  // ---------- the commands of a run, decoded ----------

  /** n times HCI_Reset. */
  function ResetCommands(n: nat): seq<H4.Command> {
    if n == 0 then [] else ResetCommands(n - 1) + [H4.Command(0x0c03, [])]
  }

  /** The commands of a run: HCI_Reset; the update of the baud rate, early;
      the minidriver, what the file carries, HCI_Reset; the update of the
      baud rate; then the address, the sleep mode, the two of PCM, and I2S. */
  function Ordered(c: Config, downloads: seq<H4.Command>, resets1: nat, resets2: nat): seq<H4.Command>
    requires WellFormed(c)
  {
    ResetCommands(resets1)
    + When(c.useBaudrate && c.speed != B0, [H4.Command(0xfc18, [0, 0] + LittleEndian(Rate(c.speed), 4))])
    + When(c.hcdFd > 0, [H4.Command(0xfc2e, [])] + downloads + ResetCommands(resets2))
    + When(c.speed != B0, [H4.Command(0xfc18, [0, 0] + LittleEndian(Rate(c.speed), 4))])
    + OrderedLate(c)
  }

  /** Those behind the last change of line speed. */
  function OrderedLate(c: Config): seq<H4.Command>
    requires WellFormed(c)
  {
    When(c.bdaddrFlag, [H4.Command(0xfc01, c.writeBdAddr[4..])])
    + When(c.enableLpm, [H4.Command(0xfc27, [1, 1, 1, 1, 1, 1, 1, 0, 0, 0, 0, 0])])
    + When(c.scopcm, [H4.Command(0xfc1c, c.scoPcmInt[4..]), H4.Command(0xfc1e, c.pcmDataFormat[4..])])
    + When(c.i2s, [H4.Command(0xfc6d, c.i2sParam[4..])])
  }

  /** The frames parse as these commands. */
  predicate Carry(frames: seq<seq<byte>>, cs: seq<H4.Command>) {
    H4.AreFrames(frames) && H4.DecodeFrames(frames) == cs
  }

  lemma {:induction false} CarryJoin(a: seq<seq<byte>>, b: seq<seq<byte>>, cs: seq<H4.Command>, ds: seq<H4.Command>)
    requires Carry(a, cs) && Carry(b, ds)
    ensures Carry(a + b, cs + ds)
  {
    H4.FramesJoin(a, b);
    if a == [] {
      assert a + b == b && cs + ds == ds;
    } else {
      assert (a + b)[1..] == a[1..] + b;
      CarryJoin(a[1..], b, cs[1..], ds);
      assert cs + ds == [cs[0]] + (cs[1..] + ds);
    }
  }

  lemma CarryOne(b: bool, t: seq<byte>, low: byte, high: byte, size: nat, c: H4.Command)
    requires IsTemplate(t, low, high, size)
    requires c.opcode == 0x100 * high + low && c.payload == t[4..]
    ensures Carry(When(b, [t]), When(b, [c]))
  {
    OneFrame(b, t);
  }

  lemma CarryWhen(b: bool, frames: seq<seq<byte>>, cs: seq<H4.Command>)
    requires Carry(frames, cs)
    ensures Carry(When(b, frames), When(b, cs))
  {
  }

  lemma {:induction false} ResetsCarry(n: nat)
    ensures Carry(Resets(n), ResetCommands(n))
  {
    if n > 0 {
      ResetsCarry(n - 1);
      CarryOne(true, HCI_RESET, 0x03, 0x0c, 0, H4.Command(0x0c03, []));
      CarryJoin(Resets(n - 1), [HCI_RESET], ResetCommands(n - 1), [H4.Command(0x0c03, [])]);
    }
  }

  lemma PairCarries(c: Config)
    requires WellFormed(c)
    ensures Carry(When(c.scopcm, [c.scoPcmInt, c.pcmDataFormat]),
                  When(c.scopcm, [H4.Command(0xfc1c, c.scoPcmInt[4..]), H4.Command(0xfc1e, c.pcmDataFormat[4..])]))
  {
    hide Carry;
    var x, y := H4.Command(0xfc1c, c.scoPcmInt[4..]), H4.Command(0xfc1e, c.pcmDataFormat[4..]);
    CarryOne(true, c.scoPcmInt, 0x1c, 0xfc, 5, x);
    CarryOne(true, c.pcmDataFormat, 0x1e, 0xfc, 5, y);
    CarryJoin([c.scoPcmInt], [c.pcmDataFormat], [x], [y]);
    assert [c.scoPcmInt] + [c.pcmDataFormat] == [c.scoPcmInt, c.pcmDataFormat] && [x] + [y] == [x, y];
    CarryWhen(c.scopcm, [c.scoPcmInt, c.pcmDataFormat], [x, y]);
  }

  lemma SleepMode(b: bool)
    ensures Carry(When(b, [HCI_WRITE_SLEEP_MODE]), When(b, [H4.Command(0xfc27, [1, 1, 1, 1, 1, 1, 1, 0, 0, 0, 0, 0])]))
  {
    CarryOne(b, HCI_WRITE_SLEEP_MODE, 0x27, 0xfc, 12, H4.Command(0xfc27, [1, 1, 1, 1, 1, 1, 1, 0, 0, 0, 0, 0]));
  }

  lemma LateCarries(c: Config)
    requires WellFormed(c)
    ensures Carry(LateWord(c), OrderedLate(c))
  {
    var a, x := When(c.bdaddrFlag, [c.writeBdAddr]), H4.Command(0xfc01, c.writeBdAddr[4..]);
    var b, y := When(c.enableLpm, [HCI_WRITE_SLEEP_MODE]), H4.Command(0xfc27, [1, 1, 1, 1, 1, 1, 1, 0, 0, 0, 0, 0]);
    var d, u := When(c.scopcm, [c.scoPcmInt, c.pcmDataFormat]),
                When(c.scopcm, [H4.Command(0xfc1c, c.scoPcmInt[4..]), H4.Command(0xfc1e, c.pcmDataFormat[4..])]);
    var e, v := When(c.i2s, [c.i2sParam]), H4.Command(0xfc6d, c.i2sParam[4..]);
    hide Carry;
    CarryOne(c.bdaddrFlag, c.writeBdAddr, 0x01, 0xfc, 6, x);
    SleepMode(c.enableLpm);
    PairCarries(c);
    CarryOne(c.i2s, c.i2sParam, 0x6d, 0xfc, 4, v);
    hide When, IsTemplate, WellFormed;
    CarryJoin(a, b, When(c.bdaddrFlag, [x]), When(c.enableLpm, [y]));
    CarryJoin(a + b, d, When(c.bdaddrFlag, [x]) + When(c.enableLpm, [y]), u);
    CarryJoin(a + b + d, e, When(c.bdaddrFlag, [x]) + When(c.enableLpm, [y]) + u, When(c.i2s, [v]));
  }

  lemma BaudCarries(b: bool, c: Config)
    requires WellFormed(c) && (b ==> c.speed != B0)
    ensures Carry(When(b, [c.updateBaudRate]),
                  When(b, [H4.Command(0xfc18, [0, 0] + LittleEndian(Rate(c.speed), 4))]))
  {
    var t := c.updateBaudRate;
    if b {
      LittleEndianOfValue(t[6..]);
      assert t[4..] == [0, 0] + t[6..];
      CarryOne(b, t, 0x18, 0xfc, 6, H4.Command(0xfc18, t[4..]));
    }
  }

  lemma PatchCarries(b: bool, downloads: seq<seq<byte>>, ds: seq<H4.Command>, m: nat)
    requires Carry(downloads, ds)
    ensures Carry(When(b, [HCI_DOWNLOAD_MINIDRIVER] + downloads + Resets(m)),
                  When(b, [H4.Command(0xfc2e, [])] + ds + ResetCommands(m)))
  {
    hide Carry;
    CarryOne(true, HCI_DOWNLOAD_MINIDRIVER, 0x2e, 0xfc, 0, H4.Command(0xfc2e, []));
    ResetsCarry(m);
    CarryJoin([HCI_DOWNLOAD_MINIDRIVER], downloads, [H4.Command(0xfc2e, [])], ds);
    CarryJoin([HCI_DOWNLOAD_MINIDRIVER] + downloads, Resets(m), [H4.Command(0xfc2e, [])] + ds, ResetCommands(m));
    CarryWhen(b, [HCI_DOWNLOAD_MINIDRIVER] + downloads + Resets(m), [H4.Command(0xfc2e, [])] + ds + ResetCommands(m));
  }

  /** Every word of the grammar parses as the commands the options ask for. */
  lemma WordCarries(c: Config, downloads: seq<seq<byte>>, ds: seq<H4.Command>, n: nat, m: nat)
    requires WellFormed(c) && Carry(downloads, ds)
    ensures Carry(Word(c, downloads, n, m), Ordered(c, ds, n, m))
  {
    hide Carry, OrderedLate, LateWord, Rate, LittleEndian;
    var baud := H4.Command(0xfc18, [0, 0] + LittleEndian(Rate(c.speed), 4));
    var early, e := When(c.useBaudrate && c.speed != B0, [c.updateBaudRate]),
                    When(c.useBaudrate && c.speed != B0, [baud]);
    var late, l := When(c.speed != B0, [c.updateBaudRate]), When(c.speed != B0, [baud]);
    var patch, p := When(c.hcdFd > 0, [HCI_DOWNLOAD_MINIDRIVER] + downloads + Resets(m)),
                    When(c.hcdFd > 0, [H4.Command(0xfc2e, [])] + ds + ResetCommands(m));
    ResetsCarry(n);
    BaudCarries(c.useBaudrate && c.speed != B0, c);
    PatchCarries(c.hcdFd > 0, downloads, ds, m);
    BaudCarries(c.speed != B0, c);
    LateCarries(c);
    CarryJoin(Resets(n), early, ResetCommands(n), e);
    CarryJoin(Resets(n) + early, patch, ResetCommands(n) + e, p);
    CarryJoin(Resets(n) + early + patch, late, ResetCommands(n) + e + p, l);
    CarryJoin(Resets(n) + early + patch + late, LateWord(c), ResetCommands(n) + e + p + l, OrderedLate(c));
  }

  lemma PossibleDownloads(c: Config, w: Answers)
    requires Possible(c, w)
    ensures H4.AreFrames(w.downloads)
  {
    if c.hcdFd > 0 {
      DownloadsAreFrames(c.hcd, w.downloads, []);
    }
  }

  lemma FramesLast(fs: seq<seq<byte>>, f: seq<byte>)
    ensures H4.AreFrames(fs) && H4.IsFrame(f) ==> H4.AreFrames(fs + [f])
  {
    if H4.IsFrame(f) {
      OneFrame(true, f);
      if H4.AreFrames(fs) {
        H4.FramesJoin(fs, [f]);
      }
    }
  }

  lemma {:induction false} FramesFirst(fs: seq<seq<byte>>, f: seq<byte>)
    requires H4.AreFrames(fs + [f])
    ensures H4.AreFrames(fs) && H4.IsFrame(f)
  {
    if fs == [] {
      assert fs + [f] == [f];
    } else {
      assert (fs + [f])[1..] == fs[1..] + [f];
      FramesFirst(fs[1..], f);
    }
  }

  /** Resets between frames are frames. */
  lemma {:induction false} ErasedFrames(t: seq<Io>)
    requires AlarmsAreResets(t) && H4.AreFrames(Commands(Erase(t)))
    ensures H4.AreFrames(Commands(t))
  {
    if t != [] {
      var n := |t| - 1;
      var io := t[n];
      assert t == t[..n] + [io];
      EraseAppend(t[..n], io);
      CommandsAppend(t[..n], io);
      hide Commands, Erase;
      TemplateIsFrame(HCI_RESET, 0x03, 0x0c, 0);
      if IsAlarm(io) {
        ErasedFrames(t[..n]);
        FramesLast(Commands(t[..n]), io.frame);
      } else {
        CommandsAppend(Erase(t[..n]), io);
        if io.Send? {
          FramesFirst(Commands(Erase(t[..n])), io.frame);
        }
        ErasedFrames(t[..n]);
        if io.Send? {
          FramesLast(Commands(t[..n]), io.frame);
        }
      }
    }
  }

  /** For every option set and every file, and wherever the alarm expires, the bytes
      on the UART parse as command frames in exactly one way: as the commands
      written. */
  lemma {:induction false} UniquelyDecodable(c: Config, w: Answers, t: seq<Io>)
    requires WellFormed(c) && Possible(c, w) && IsRun(t, c, w)
    ensures H4.AreFrames(Commands(t))
    ensures H4.DecodeAll(Concat(Commands(t))) == Some(H4.DecodeFrames(Commands(t)))
  {
    hide ExpandAll, Commands, Plan, Word, Erase;
    PossibleDownloads(c, w);
    OwnGrammar(c, w, t);
    WordCarries(c, w.downloads, H4.DecodeFrames(w.downloads), 1, 1);
    ErasedFrames(t);
    H4.FramesDecode(Commands(t));
  }

  /** The commands of the file as a reader of the UART decodes them. */
  lemma DownloadsCarry(c: Config, w: Answers)
    requires Possible(c, w)
    ensures H4.DecodeAll(Concat(w.downloads)).Some?
    ensures Carry(w.downloads, H4.DecodeAll(Concat(w.downloads)).value)
  {
    PossibleDownloads(c, w);
    H4.FramesDecode(w.downloads);
  }

  lemma CarryDecodes(frames: seq<seq<byte>>, cs: seq<H4.Command>)
    requires Carry(frames, cs)
    ensures H4.DecodeAll(Concat(frames)) == Some(cs)
  {
    H4.FramesDecode(frames);
  }

  /** What a reader of the UART decodes from the program's own commands, wherever
      the alarm expires. */
  lemma OnTheWire(c: Config, w: Answers, t: seq<Io>, ds: seq<H4.Command>)
    requires WellFormed(c) && Carry(w.downloads, ds) && IsRun(t, c, w)
    ensures H4.DecodeAll(Concat(Commands(Erase(t)))) == Some(Ordered(c, ds, 1, 1))
  {
    hide *;
    OwnGrammar(c, w, t);
    WordCarries(c, w.downloads, ds, 1, 1);
    CarryDecodes(Word(c, w.downloads, 1, 1), Ordered(c, ds, 1, 1));
  }

  /** What it decodes from all bytes, when no handler runs behind an alarm(0): the
      alarm has HCI_Reset repeated, in its place. */
  lemma AllOnTheWire(c: Config, w: Answers, ds: seq<H4.Command>)
    requires WellFormed(c) && Carry(w.downloads, ds) && |w.downloads| == |w.replies|
    ensures H4.DecodeAll(Concat(Commands(ExpandAll(Plan(c, w)))))
         == Some(Ordered(c, ds, 1 + w.early1 + w.late1, 1 + w.early2 + w.late2))
  {
    var n, m := 1 + w.early1 + w.late1, 1 + w.early2 + w.late2;
    hide *;
    Grammar(c, w);
    WordCarries(c, w.downloads, ds, n, m);
    CarryDecodes(Word(c, w.downloads, n, m), Ordered(c, ds, n, m));
  }

  /** Whatever the alarm handler writes, and wherever, is HCI_Reset. */
  lemma AlarmOnTheWire(c: Config, w: Answers, t: seq<Io>, i: nat)
    requires IsRun(t, c, w) && i < |t| && IsAlarm(t[i])
    ensures t[i].frame == [0x01, 0x03, 0x0c, 0x00]
    ensures H4.DecodeAll(t[i].frame) == Some([H4.Command(0x0c03, [])])
  {
    hide ExpandAll, Plan, Erase;
    H4.ResetExample();
  }

  lemma {:induction false} FirstCommand(t: seq<Io>)
    requires AlarmsAreResets(t) && Commands(Erase(t)) != [] && Commands(Erase(t))[0] == HCI_RESET
    ensures Commands(t) != [] && Commands(t)[0] == HCI_RESET
  {
    if t != [] {
      var n := |t| - 1;
      var io := t[n];
      assert t == t[..n] + [io];
      EraseAppend(t[..n], io);
      CommandsAppend(t[..n], io);
      CommandsAppend(Erase(t[..n]), io);
      hide Commands, Erase;
      if Commands(Erase(t[..n])) != [] {
        FirstCommand(t[..n]);
      } else if Commands(t[..n]) != [] {
        OnlyResets(t[..n]);
        assert Commands(t[..n])[0] in Commands(t[..n]);
      }
    }
  }

  /** Without commands of the program there are only those of the handler. */
  lemma {:induction false} OnlyResets(t: seq<Io>)
    requires AlarmsAreResets(t) && Commands(Erase(t)) == []
    ensures forall f | f in Commands(t) :: f == HCI_RESET
  {
    if t != [] {
      var n := |t| - 1;
      var io := t[n];
      assert t == t[..n] + [io];
      EraseAppend(t[..n], io);
      CommandsAppend(t[..n], io);
      CommandsAppend(Erase(t[..n]), io);
      hide Commands, Erase;
      OnlyResets(t[..n]);
    }
  }

  /** The first bytes of every run. */
  lemma FirstBytes(c: Config, w: Answers, t: seq<Io>)
    requires IsRun(t, c, w)
    ensures [0x01, 0x03, 0x0c, 0x00] <= Concat(Commands(t))
  {
    hide ExpandAll, Plan, Erase, Commands;
    OwnGrammar(c, w, t);
    assert Resets(1) == [HCI_RESET];
    FirstCommand(t);
  }

  // ---------- the file ----------

  /** The whole records a file starts with. */
  function Records(h: seq<byte>): seq<seq<byte>>
    decreases |h|
  {
    if HasRecord(h) then [h[..RecordSize(h)]] + Records(h[RecordSize(h)..]) else []
  }

  /** What is behind them. */
  function Leftover(h: seq<byte>): seq<byte>
    decreases |h|
  {
    if HasRecord(h) then Leftover(h[RecordSize(h)..]) else h
  }

  /** Each record behind a packet indicator. */
  function Indicated(rs: seq<seq<byte>>): seq<seq<byte>> {
    if rs == [] then [] else [[1] + rs[0]] + Indicated(rs[1..])
  }

  lemma {:induction false} FileIsRecords(h: seq<byte>)
    ensures h == Concat(Records(h)) + Leftover(h)
    decreases |h|
  {
    if HasRecord(h) {
      var r, rest := h[..RecordSize(h)], h[RecordSize(h)..];
      FileIsRecords(rest);
      RecordsStep(h);
      assert Concat([r] + Records(rest)) == r + Concat(Records(rest)) by {
        assert ([r] + Records(rest))[1..] == Records(rest);
      }
      assert h == r + rest;
    }
  }

  /** The frames for a file: its records, in order, each behind a packet
      indicator; and when bytes are left behind the last record, one more frame
      that starts with them and is longer. */
  predicate AreRecordsOf(h: seq<byte>, fs: seq<seq<byte>>) {
    if Leftover(h) == [] then fs == Indicated(Records(h))
    else
      && |fs| > 0
      && fs[..|fs| - 1] == Indicated(Records(h))
      && [1] + Leftover(h) <= fs[|fs| - 1]
      && |fs[|fs| - 1]| > 1 + |Leftover(h)|
  }

  lemma RecordsStep(h: seq<byte>)
    requires HasRecord(h)
    ensures Records(h) == [h[..RecordSize(h)]] + Records(h[RecordSize(h)..])
    ensures Leftover(h) == Leftover(h[RecordSize(h)..])
    ensures Indicated(Records(h)) == [[1] + h[..RecordSize(h)]] + Indicated(Records(h[RecordSize(h)..]))
  {
    assert Records(h)[0] == h[..RecordSize(h)] && Records(h)[1..] == Records(h[RecordSize(h)..]);
  }

  lemma Behind(f: seq<byte>, fs: seq<seq<byte>>)
    requires fs != [] && fs[0] == f
    ensures fs == [f] + fs[1..]
    ensures |fs| > 1 ==> fs[..|fs| - 1] == [f] + fs[1..][..|fs[1..]| - 1] && fs[|fs| - 1] == fs[1..][|fs[1..]| - 1]
  {
  }

  lemma OneMoreRecord(h: seq<byte>, fs: seq<seq<byte>>)
    requires HasRecord(h) && fs != [] && fs[0] == [1] + h[..RecordSize(h)]
    requires AreRecordsOf(h[RecordSize(h)..], fs[1..])
    ensures AreRecordsOf(h, fs)
  {
    RecordsStep(h);
    Behind([1] + h[..RecordSize(h)], fs);
  }

  lemma LastPart(h: seq<byte>, fs: seq<seq<byte>>)
    requires h != [] && !HasRecord(h) && |fs| == 1 && [1] + h <= fs[0] && |fs[0]| > 1 + |h|
    ensures AreRecordsOf(h, fs)
  {
    var none: seq<seq<byte>> := [];
    assert Records(h) == none && Indicated(none) == none && fs[..0] == none;
  }

  lemma {:induction false} DownloadsAreRecords(h: seq<byte>, fs: seq<seq<byte>>)
    requires Feeds(h, fs, [])
    ensures AreRecordsOf(h, fs)
    decreases |fs|
  {
    if fs == [] {
      assert h == [];
    } else if HasRecord(h) {
      DownloadsAreRecords(h[RecordSize(h)..], fs[1..]);
      OneMoreRecord(h, fs);
    } else {
      LongerThanRest(h, fs[0]);
      LastPart(h, fs);
    }
  }

  lemma LongerThanRest(h: seq<byte>, f: seq<byte>)
    requires h != [] && !HasRecord(h) && |f| >= 4 && |f| == 4 + f[3] as int && [1] + h <= f
    ensures |f| > 1 + |h|
  {
    if |h| >= 3 {
      assert f[3] == ([1] + h)[3] == h[2];
    }
  }

  lemma {:induction false} ConcatIndicated(rs: seq<seq<byte>>)
    ensures |Concat(Indicated(rs))| == |Concat(rs)| + |rs|
  {
    if rs != [] {
      ConcatIndicated(rs[1..]);
      assert Indicated(rs)[0] == [1] + rs[0] && Indicated(rs)[1..] == Indicated(rs[1..]);
    }
  }

  lemma {:induction false} IndicatedCount(rs: seq<seq<byte>>)
    ensures |Indicated(rs)| == |rs|
  {
    if rs != [] {
      IndicatedCount(rs[1..]);
    }
  }

  /** The download sends one byte more than the file has for each frame exactly
      when the file is a whole number of records; otherwise it sends more. */
  lemma {:induction false} BytesSent(h: seq<byte>, fs: seq<seq<byte>>)
    requires Feeds(h, fs, [])
    ensures |Concat(fs)| >= |h| + |fs|
    ensures |Concat(fs)| == |h| + |fs| <==> Leftover(h) == []
  {
    DownloadsAreRecords(h, fs);
    FileIsRecords(h);
    ConcatIndicated(Records(h));
    IndicatedCount(Records(h));
    if Leftover(h) != [] {
      var n := |fs| - 1;
      ConcatAppend(fs[..n], [fs[n]]);
      assert fs == fs[..n] + [fs[n]];
      assert Concat([fs[n]]) == fs[n] + Concat([]) == fs[n];
    }
  }

  /** A truncated file, for which more is sent. */
  lemma TruncatedSendsMore()
    ensures exists h: seq<byte>, fs: seq<seq<byte>> :: Feeds(h, fs, []) && |Concat(fs)| > |h| + |fs|
  {
    var h: seq<byte>, f: seq<byte> := [0], [1, 0, 0, 0];
    var none: seq<seq<byte>> := [];
    assert [f][1..] == none && Concat([f]) == f + Concat(none) == f;
    assert Feeds(h, [f], []) && |Concat([f])| > |h| + |[f]|;
  }

  /** A file made of commands is sent as exactly these commands. */
  lemma {:induction false} CommandsFromFile(cs: seq<H4.Command>, fs: seq<seq<byte>>)
    requires Feeds(HcdFile(cs), fs, [])
    ensures H4.AreFrames(fs) && H4.DecodeFrames(fs) == cs
    decreases |cs|
  {
    DownloadsAreFrames(HcdFile(cs), fs, []);
    if cs != [] {
      var e, rest := H4.Encode(cs[0]), HcdFile(cs[1..]);
      var h := HcdFile(cs);
      assert h == e[1..] + rest;
      assert h[2] == e[3];
      assert h[..RecordSize(h)] == e[1..] && h[RecordSize(h)..] == rest;
      assert [1] + e[1..] == e;
      CommandsFromFile(cs[1..], fs[1..]);
      H4.EncodeIsFrame(cs[0]);
    }
  }

  /** The records of an HCD file: commands without their packet indicators. */
  function HcdFile(cs: seq<H4.Command>): seq<byte> {
    if cs == [] then [] else H4.Encode(cs[0])[1..] + HcdFile(cs[1..])
  }
}
