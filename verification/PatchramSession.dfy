/** The protocol engine of brcm_patchram_plus: stop-and-wait commands and
    events through one shared buffer, with an alarm that may expire at any
    time while it is armed. */
module PatchramSession {
  import opened Bytes
  import opened PatchramConfig
  import opened PatchramTrace

  const BUFFER_SIZE: nat := 1024

  /** n bytes of a stream from place p on. */
  function Stream(rx: nat -> byte, p: nat, n: nat): (s: seq<byte>)
    ensures |s| == n
  {
    if n == 0 then [] else Stream(rx, p, n - 1) + [rx(p + n - 1)]
  }

  lemma {:induction false} StreamAt(rx: nat -> byte, p: nat, n: nat, k: nat)
    requires k < n
    ensures Stream(rx, p, n)[k] == rx(p + k)
  {
    if k < n - 1 {
      StreamAt(rx, p, n - 1, k);
    }
  }

  lemma {:induction false} StreamAppend(rx: nat -> byte, p: nat, n: nat, m: nat)
    ensures Stream(rx, p, n) + Stream(rx, p + n, m) == Stream(rx, p, n + m)
  {
    if m == 0 {
      assert Stream(rx, p, n) + [] == Stream(rx, p, n);
    } else {
      StreamAppend(rx, p, n, m - 1);
      assert Stream(rx, p, n) + Stream(rx, p + n, m)
          == Stream(rx, p, n) + Stream(rx, p + n, m - 1) + [rx(p + n + m - 1)];
    }
  }

  lemma OverwriteTwice(b: seq<byte>, at: nat, x: seq<byte>, y: seq<byte>)
    requires at + |x| + |y| <= |b|
    ensures Overwrite(Overwrite(b, at, x), at + |x|, y) == Overwrite(b, at, x + y)
  {
  }

  class Session {
    const config: Config
    const buffer: array<byte>
    /** The bytes that will arrive on the UART, one after the other. */
    const rx: nat -> byte
    var rxPos: nat
    var hcdPos: nat
    var line: Speed
    var armed: bool
    ghost var trace: seq<Io>
    ghost var phases: seq<Phase>
    /** The handler has run behind an alarm(0), for a signal that became pending
        while it was entered, and has armed the alarm outside of proc_reset. */
    ghost var rearmed: bool

    /** Holds at every step. */
    ghost predicate Shaped()
      reads this`hcdPos
    {
      buffer.Length == BUFFER_SIZE && hcdPos <= |config.hcd|
    }

    /** Holds whenever no event has been read in part: the trace accounts for
        all bytes taken. */
    ghost predicate Complete()
      reads this
    {
      Shaped() && Received(trace) == Stream(rx, 0, rxPos)
    }

    /** Holds between the pieces of the program: its steps are those of its phases,
        and unless the alarm was armed outside of proc_reset it expires only where
        they say so. */
    ghost predicate Valid()
      reads this
    {
      && Complete() && line == LineOf(phases)
      && Follows(trace, ExpandAll(phases))
      && (rearmed || (!armed && trace == ExpandAll(phases)))
    }

    constructor (config: Config, rx: nat -> byte)
      ensures Valid() && fresh(buffer) && this.config == config && this.rx == rx
      ensures phases == [] && rxPos == 0 && hcdPos == 0
    {
      this.config := config;
      this.rx := rx;
      buffer := new byte[BUFFER_SIZE];
      rxPos, hcdPos, line, armed := 0, 0, B0, false;
      trace, phases, rearmed := [], [], false;
    }

    /** hci_send_cmd. */
    method HciSendCmd(frame: seq<byte>, ghost byTimer: bool)
      modifies this`trace
      ensures trace == old(trace) + [Send(frame, byTimer)]
    {
      trace := trace + [Send(frame, byTimer)];
    }

    /** The alarm handler: it writes a reset and arms the alarm again. */
    method Expired()
      modifies this`trace, this`armed
      ensures armed && trace == old(trace) + [Send(HCI_RESET, true)]
    {
      HciSendCmd(HCI_RESET, true);
      armed := true;
    }

    /** The alarm may expire any number of times while it is armed. */
    method Interrupts() returns (ghost expiries: nat)
      modifies this`trace, this`armed
      ensures armed == old(armed) && trace == old(trace) + Alarms(expiries)
      ensures !armed ==> expiries == 0
    {
      expiries := 0;
      assert trace + [] == trace;
      if armed {
        var times: nat :| true;
        for i := 0 to times
          invariant armed && expiries == i
          invariant trace == old(trace) + Alarms(i)
        {
          Expired();
          expiries := expiries + 1;
          assert old(trace) + Alarms(i) + [Send(HCI_RESET, true)] == old(trace) + Alarms(i + 1);
        }
      }
    }

    /** A blocking read: it stores between one and len of the bytes that arrive,
        as the outside chooses. */
    method UartRead(at: nat, len: nat) returns (count: nat, ghost expiries: nat)
      requires at + len <= buffer.Length
      modifies this`rxPos, this`trace, this`armed, buffer
      ensures if len == 0 then count == 0 else 1 <= count <= len
      ensures rxPos == old(rxPos) + count
      ensures buffer[..] == Overwrite(old(buffer[..]), at, Stream(rx, old(rxPos), count))
      ensures armed == old(armed) && trace == old(trace) + Alarms(expiries)
      ensures !armed ==> expiries == 0
    {
      expiries := Interrupts();
      count := 0;
      if len > 0 {
        count :| 1 <= count <= len;
      }
      ghost var before := buffer[..];
      forall k | 0 <= k < count {
        buffer[at + k] := rx(rxPos + k);
      }
      forall k | 0 <= k < count
        ensures buffer[at + k] == Stream(rx, rxPos, count)[k]
      {
        StreamAt(rx, rxPos, count, k);
      }
      assert buffer[..] == Overwrite(before, at, Stream(rx, rxPos, count));
      rxPos := rxPos + count;
    }

    /** One more read of the loop below: what has been stored since the loop
        began grows by the bytes it takes. */
    method ReadOn(i: nat, len: nat, ghost start: nat, ghost from: nat, ghost before: seq<byte>,
                  ghost earlier: seq<Io>, ghost expired: nat)
      returns (count: nat, ghost expiries: nat)
      requires start <= i && i + len <= buffer.Length == |before|
      requires rxPos == from + (i - start)
      requires buffer[..] == Overwrite(before, start, Stream(rx, from, i - start))
      requires trace == earlier + Alarms(expired) && (!armed ==> expired == 0)
      modifies this`rxPos, this`trace, this`armed, buffer
      ensures if len == 0 then count == 0 else 1 <= count <= len
      ensures rxPos == from + (i - start) + count
      ensures buffer[..] == Overwrite(before, start, Stream(rx, from, i - start + count))
      ensures armed == old(armed) && trace == earlier + Alarms(expiries) && (!armed ==> expiries == 0)
    {
      hide Stream, Overwrite, Alarms;
      ghost var more;
      ghost var half := buffer[..];
      count, more := UartRead(i, len);
      MoreStored(rx, from, i - start, count, start, before, half, buffer[..]);
      AlarmsJoin(earlier, expired, more);
      expiries := expired + more;
    }

    /** The loop of read_event that goes on reading until total bytes are there;
        i is where the last read stored, count how much it stored. */
    method ReadAll(start: nat, total: nat) returns (i: nat, count: nat, ghost expiries: nat)
      requires start + total <= buffer.Length
      modifies this`rxPos, this`trace, this`armed, buffer
      ensures i + count == start + total
      ensures rxPos == old(rxPos) + total
      ensures buffer[..] == Overwrite(old(buffer[..]), start, Stream(rx, old(rxPos), total))
      ensures armed == old(armed) && trace == old(trace) + Alarms(expiries)
      ensures !armed ==> expiries == 0
    {
      hide Stream, Overwrite, Alarms;
      ghost var from, before, earlier := rxPos, buffer[..], trace;
      i := start;
      var len := total;
      NothingRead(rx, from, start, before, earlier);
      count, expiries := ReadOn(i, len, start, from, before, earlier, 0);
      while count < len
        invariant start <= i && i + len == start + total && count <= len && (count > 0 || len == 0)
        invariant rxPos == from + (i - start) + count
        invariant buffer[..] == Overwrite(before, start, Stream(rx, from, i - start + count))
        invariant armed == old(armed) && trace == earlier + Alarms(expiries) && (!armed ==> expiries == 0)
        decreases len - count
      {
        i := i + count;
        len := len - count;
        count, expiries := ReadOn(i, len, start, from, before, earlier, expiries);
      }
    }

    /** Enters a complete event in the trace. */
    ghost method Record(from: nat, len: nat, earlier: seq<Io>, expiries: nat) returns (event: seq<byte>)
      requires Shaped() && Received(earlier) == Stream(rx, 0, from) && rxPos == from + 3 + len
      requires trace == earlier + Alarms(expiries)
      modifies this`trace
      ensures Complete() && trace == earlier + Alarms(expiries) + [Recv(event)]
      ensures event == Stream(rx, from, 3 + len)
    {
      hide Stream, Received, Alarms;
      event := Stream(rx, from, 3 + len);
      ReceivedEvent(rx, from, earlier, expiries, 3 + len);
      trace := trace + [Recv(event)];
    }

    /** read_event: however the reads split the stream, the buffer starts with
        the next event, and exactly its bytes have been taken. The result is the
        count that is reported in debug mode. */
    method ReadEvent() returns (count: nat, ghost event: seq<byte>, ghost expiries: nat)
      requires Complete()
      modifies this`rxPos, this`trace, this`armed, buffer
      ensures Complete()
      ensures IsEvent(event) && event == Stream(rx, old(rxPos), |event|) && |event| <= 258
      ensures rxPos == old(rxPos) + |event| && count == |event|
      ensures buffer[..] == Overwrite(old(buffer[..]), 0, event)
      ensures armed == old(armed) && trace == old(trace) + Alarms(expiries) + [Recv(event)]
      ensures !armed ==> expiries == 0
    {
      hide Stream, Received, Alarms;
      ghost var from, before, earlier := rxPos, buffer[..], trace;
      ghost var first, second;
      var i;
      i, count, first := ReadAll(0, 3);
      i := i + count;
      var len := buffer[2] as int;
      ghost var half := buffer[..];
      i, count, second := ReadAll(i, len);
      count := count + i;
      expiries := first + second;
      EventAssembled(rx, from, len, before, half, buffer[..]);
      AlarmsJoin(earlier, first, second);
      event := Record(from, len, earlier, expiries);
    }

    /** Ends a piece of the program. */
    ghost method Enter(p: Phase)
      requires Complete() && Follows(trace, ExpandAll(phases) + Expand(p))
      requires rearmed || (!armed && trace == ExpandAll(phases) + Expand(p))
      requires line == if p.Line? then p.speed else LineOf(phases)
      modifies this`phases
      ensures Valid() && phases == old(phases) + [p]
    {
      hide Follows;
      LineAppend(phases, p);
      ExpandAppend(phases, p);
      phases := phases + [p];
    }

    /** Between two pieces of the program the alarm expires if it is armed there. */
    method Pause() returns (ghost expiries: nat)
      requires Complete()
      modifies this`trace, this`armed
      ensures Complete() && armed == old(armed) && trace == old(trace) + Alarms(expiries)
      ensures !armed ==> expiries == 0
    {
      hide Alarms;
      expiries := Interrupts();
      ReceivedAlarms(old(trace), expiries);
    }

    /** Ends a piece of the program that is one step. */
    method OneStep(ghost io: Io, ghost p: Phase, ghost earlier: seq<Io>, ghost before: nat)
      requires Shaped() && trace == earlier + Alarms(before) && !IsAlarm(io) && Expand(p) == [io]
      requires Received(earlier) + ReceivedBy(io) == Stream(rx, 0, rxPos)
      requires Follows(earlier, ExpandAll(phases)) && (!armed ==> before == 0)
      requires rearmed || (!armed && earlier == ExpandAll(phases))
      requires line == if p.Line? then p.speed else LineOf(phases)
      modifies this`trace, this`armed, this`phases
      ensures Valid() && phases == old(phases) + [p]
    {
      hide Follows, Alarms, ExpandAll, Received, Stream;
      ReceivedAlarms(earlier, before);
      ReceivedAppend(earlier + Alarms(before), io);
      trace := trace + [io];
      ghost var after := Pause();
      FollowsStep(earlier, ExpandAll(phases), before, io, after);
      Enter(p);
    }

    /** cfsetospeed, cfsetispeed and tcsetattr. */
    method SetLine(speed: Speed)
      requires Valid()
      modifies this`line, this`trace, this`armed, this`phases
      ensures Valid() && phases == old(phases) + [Line(speed)] && line == speed
    {
      hide Follows, ExpandAll, Received, Stream;
      line := speed;
      NoBytes(trace);
      OneStep(SetSpeed(speed), Line(speed), trace, 0);
    }

    /** A command and its event, outside of proc_reset. */
    method SendAndRead(frame: seq<byte>) returns (ghost event: seq<byte>)
      requires Valid()
      modifies this`rxPos, this`trace, this`armed, this`phases, buffer
      ensures Valid() && phases == old(phases) + [Exchange(frame, event)] && IsEvent(event)
    {
      hide Follows, ExpandAll, Received, Stream, Alarms, Expand;
      ghost var earlier := trace;
      HciSendCmd(frame, false);
      ReceivedNothing(earlier, Send(frame, false));
      ghost var during;
      var count;
      count, event, during := ReadEvent();
      ghost var after := Pause();
      FollowsExchange(earlier, ExpandAll(phases), frame, during, event, after);
      Enter(Exchange(frame, event));
    }

    /** proc_reset: the only piece during which the program arms the alarm. */
    method ProcReset() returns (ghost early: nat, ghost event: seq<byte>, ghost late: nat)
      requires Valid()
      modifies this`rxPos, this`trace, this`armed, this`phases, this`rearmed, buffer
      ensures Valid() && phases == old(phases) + [Reset(early, event, late)] && IsEvent(event)
      ensures old(rearmed) ==> rearmed
    {
      hide Follows, ExpandAll, Received, Stream, Alarms, Expand;
      ghost var earlier := trace;
      HciSendCmd(HCI_RESET, false);
      ReceivedNothing(earlier, Send(HCI_RESET, false));
      armed := true;
      var count;
      count, event, early := ReadEvent();
      late := CancelAlarm();
      FollowsReset(earlier, ExpandAll(phases), early, event, late);
      Enter(Reset(early, event, late));
    }

    /** alarm(0). Before it the alarm may expire; and a signal that becomes pending
        while it is entered runs the handler behind it, which arms the alarm
        again. */
    method CancelAlarm() returns (ghost late: nat)
      requires Complete()
      modifies this`trace, this`armed, this`rearmed
      ensures Complete() && trace == old(trace) + Alarms(late)
      ensures (old(rearmed) ==> rearmed) && (armed ==> rearmed)
    {
      hide Alarms, Received, Stream;
      ghost var earlier := trace;
      late := Pause();
      armed := false;
      var pending: bool :| true;
      if pending {
        Expired();
        rearmed := true;
        AlarmsLast(earlier, late + 1);
        late := late + 1;
        ghost var more := Interrupts();
        AlarmsJoin(earlier, late, more);
        late := late + more;
        ReceivedAlarms(earlier, late);
      }
    }

    /** proc_baudrate. */
    method ProcBaudrate() returns (ghost event: seq<byte>)
      requires Valid()
      modifies this`rxPos, this`trace, this`armed, this`phases, this`line, buffer
      ensures Valid() && phases == old(phases) + BaudPlan(config, event) && IsEvent(event)
    {
      ghost var earlier := phases;
      event := SendAndRead(config.updateBaudRate);
      SetLine(config.speed);
      TwoPhases(earlier, Exchange(config.updateBaudRate, event), Line(config.speed));
    }

    /** read on the HCD file: as many bytes as there are, up to len. */
    method HcdRead(at: nat, len: nat) returns (count: nat)
      requires Shaped() && at + len <= buffer.Length
      modifies this`hcdPos, buffer
      ensures Shaped() && hcdPos == old(hcdPos) + count
      ensures count == if len <= |config.hcd| - old(hcdPos) then len else |config.hcd| - old(hcdPos)
      ensures buffer[..] == Overwrite(old(buffer[..]), at, config.hcd[old(hcdPos)..hcdPos])
    {
      count := if len <= |config.hcd| - hcdPos then len else |config.hcd| - hcdPos;
      forall k | 0 <= k < count {
        buffer[at + k] := config.hcd[hcdPos + k];
      }
      hcdPos := hcdPos + count;
    }

    /** The condition of the download loop, and the packet indicator. */
    method LoadHeader() returns (count: nat)
      requires Shaped()
      modifies this`hcdPos, buffer
      ensures Shaped() && hcdPos == old(hcdPos) + count
      ensures count == if 3 <= |config.hcd| - old(hcdPos) then 3 else |config.hcd| - old(hcdPos)
      ensures count > 0 ==>
                buffer[..] == Overwrite(old(buffer[..]), 1, config.hcd[old(hcdPos)..hcdPos])[0 := 1]
    {
      count := HcdRead(1, 3);
      if count > 0 {
        buffer[0] := 1;
      }
    }

    /** The reads of one round of the download loop: the next record of the file
        goes into the shared buffer behind the packet indicator, and what the file
        lacks of it is what the buffer held. */
    method LoadRecord() returns (more: bool, frame: seq<byte>)
      requires Shaped()
      modifies this`hcdPos, buffer
      ensures Shaped() && hcdPos >= old(hcdPos)
      ensures more == (old(hcdPos) < |config.hcd|)
      ensures !more ==> hcdPos == old(hcdPos)
      ensures more ==> hcdPos > old(hcdPos) && Feeds(config.hcd[old(hcdPos)..], [frame], config.hcd[hcdPos..])
      ensures more ==> frame == NextFrame(config.hcd[old(hcdPos)..], old(buffer[..]))
    {
      ghost var start, before := hcdPos, buffer[..];
      var count := LoadHeader();
      if count == 0 {
        return false, [];
      }
      var len := buffer[3] as int;
      ghost var head := buffer[..];
      var filled := HcdRead(4, len);
      RecordLoaded(config.hcd, start, before, head, buffer[..], count, filled, len);
      return true, buffer[..len + 4];
    }

    /** One round of the download loop: the next record of the file goes into
        the shared buffer behind the packet indicator and is sent. */
    method DownloadRecord() returns (more: bool, ghost frame: seq<byte>, ghost event: seq<byte>)
      requires Valid()
      modifies this`rxPos, this`trace, this`armed, this`phases, this`hcdPos, buffer
      ensures Valid() && hcdPos >= old(hcdPos)
      ensures more == (old(hcdPos) < |config.hcd|)
      ensures !more ==> hcdPos == old(hcdPos) && phases == old(phases)
      ensures more ==> hcdPos > old(hcdPos) && phases == old(phases) + [Exchange(frame, event)] && IsEvent(event)
      ensures more ==> Feeds(config.hcd[old(hcdPos)..], [frame], config.hcd[hcdPos..])
    {
      event := NO_EVENT;
      var command;
      more, command := LoadRecord();
      frame := command;
      if more {
        event := SendAndRead(command);
      }
    }

    /** The read of two more bytes behind the event of the minidriver command;
        it is not repeated when it returns only one. */
    method SkipTwo() returns (ghost extra: seq<byte>)
      requires Valid()
      modifies this`rxPos, this`trace, this`armed, this`phases, buffer
      ensures Valid() && phases == old(phases) + [Gap(extra)] && 1 <= |extra| <= 2
    {
      hide Received, ExpandAll, Stream, Follows, Alarms;
      ghost var from, earlier := rxPos, trace;
      var count;
      ghost var none;
      count, none := UartRead(0, 2);
      extra := Stream(rx, from, count);
      StreamAppend(rx, 0, from, count);
      OneStep(Skip(extra), Gap(extra), earlier, none);
    }

    /** The download loop. */
    method Download() returns (ghost downloads: seq<seq<byte>>, ghost replies: seq<seq<byte>>)
      requires Valid()
      modifies this`rxPos, this`trace, this`armed, this`phases, this`hcdPos, buffer
      ensures Valid() && hcdPos == |config.hcd|
      ensures |downloads| == |replies| && phases == old(phases) + Exchanges(downloads, replies) + [Patched]
      ensures Feeds(config.hcd[old(hcdPos)..], downloads, [])
      ensures forall e | e in replies :: IsEvent(e)
    {
      ghost var start, earlier := hcdPos, phases;
      downloads, replies := [], [];
      assert earlier + Exchanges([], []) == earlier;
      while true
        invariant Valid() && start <= hcdPos
        invariant |downloads| == |replies| && phases == earlier + Exchanges(downloads, replies)
        invariant Feeds(config.hcd[start..], downloads, config.hcd[hcdPos..])
        invariant forall e | e in replies :: IsEvent(e)
        decreases |config.hcd| - hcdPos
      {
        ghost var rest := config.hcd[hcdPos..];
        var more;
        ghost var frame, event;
        more, frame, event := DownloadRecord();
        if !more {
          break;
        }
        FeedsAppend(config.hcd[start..], downloads, rest, frame, config.hcd[hcdPos..]);
        ExchangesAppend(earlier, downloads, replies, frame, event);
        downloads, replies := downloads + [frame], replies + [event];
      }
      EndDownload();
    }

    /** The end of the download loop. */
    method EndDownload()
      requires Valid()
      modifies this`trace, this`armed, this`phases
      ensures Valid() && phases == old(phases) + [Patched]
    {
      hide Follows, ExpandAll, Received, Stream;
      NoBytes(trace);
      OneStep(EndOfFile, Patched, trace, 0);
    }

    /** proc_patchram. */
    method ProcPatchram() returns (ghost minidriver: seq<byte>, ghost extra: seq<byte>,
                                   ghost downloads: seq<seq<byte>>, ghost replies: seq<seq<byte>>,
                                   ghost early: nat, ghost reset: seq<byte>, ghost late: nat)
      requires Valid()
      modifies this`rxPos, this`trace, this`armed, this`phases, this`rearmed, this`line, this`hcdPos, buffer
      ensures Valid() && |downloads| == |replies|
      ensures phases == old(phases)
                        + PatchPlan(config, minidriver, extra, downloads, replies, early, reset, late)
      ensures Feeds(config.hcd[old(hcdPos)..], downloads, [])
      ensures IsEvent(minidriver) && IsEvent(reset) && (!config.no2bytes ==> 1 <= |extra| <= 2)
      ensures forall e | e in replies :: IsEvent(e)
    {
      hide ExpandAll, Received, Stream, Feeds, Exchanges;
      ghost var earlier := phases;
      minidriver := SendAndRead(HCI_DOWNLOAD_MINIDRIVER);
      extra := [];
      if !config.no2bytes {
        extra := SkipTwo();
      }
      ghost var first := [Exchange(HCI_DOWNLOAD_MINIDRIVER, minidriver)] + When(!config.no2bytes, [Gap(extra)]);
      assert phases == earlier + first;
      downloads, replies := Download();
      if config.useBaudrate {
        SetLine(B115200);
      }
      ghost var change := When(config.useBaudrate, [Line(B115200)]);
      assert phases == earlier + first + Exchanges(downloads, replies) + [Patched] + change;
      early, reset, late := ProcReset();
      PatchPieces(earlier, first, Exchanges(downloads, replies), change, Reset(early, reset, late));
    }

    /** The part of main before the patch: init_uart's line speed, the first
        reset, and the early change of speed. */
    method Begin() returns (ghost early: nat, ghost reset: seq<byte>, ghost late: nat, ghost baud: seq<byte>)
      requires Valid() && phases == []
      modifies this`rxPos, this`trace, this`armed, this`phases, this`rearmed, this`line, buffer
      ensures Valid() && IsEvent(reset) && IsEvent(baud)
      ensures phases == [Line(B115200), Reset(early, reset, late)]
                        + When(config.useBaudrate && config.speed != B0, BaudPlan(config, baud))
    {
      hide ExpandAll, Received, Stream;
      baud := NO_EVENT;
      SetLine(B115200);
      early, reset, late := ProcReset();
      if config.useBaudrate {
        if config.speed != B0 {
          baud := ProcBaudrate();
        }
      }
    }

    /** proc_bdaddr, proc_enable_lpm and proc_i2s, each behind its flag. */
    method SendIf(flag: bool, frame: seq<byte>) returns (ghost event: seq<byte>)
      requires Valid()
      modifies this`rxPos, this`trace, this`armed, this`phases, buffer
      ensures Valid() && phases == old(phases) + When(flag, [Exchange(frame, event)]) && IsEvent(event)
    {
      event := NO_EVENT;
      if flag {
        event := SendAndRead(frame);
      }
    }

    /** proc_scopcm. */
    method ProcScopcm() returns (ghost sco: seq<byte>, ghost pcm: seq<byte>)
      requires Valid()
      modifies this`rxPos, this`trace, this`armed, this`phases, buffer
      ensures Valid() && IsEvent(sco) && IsEvent(pcm)
      ensures phases == old(phases) + [Exchange(config.scoPcmInt, sco), Exchange(config.pcmDataFormat, pcm)]
    {
      ghost var earlier := phases;
      sco := SendAndRead(config.scoPcmInt);
      pcm := SendAndRead(config.pcmDataFormat);
      TwoPhases(earlier, Exchange(config.scoPcmInt, sco), Exchange(config.pcmDataFormat, pcm));
    }

    /** The part of main behind the last change of speed. */
    method Finish() returns (ghost bdaddr: seq<byte>, ghost sleep: seq<byte>,
                             ghost sco: seq<byte>, ghost pcm: seq<byte>, ghost i2s: seq<byte>)
      requires Valid()
      modifies this`rxPos, this`trace, this`armed, this`phases, buffer
      ensures Valid() && phases == old(phases) + LatePlan(config, bdaddr, sleep, sco, pcm, i2s)
      ensures IsEvent(bdaddr) && IsEvent(sleep) && IsEvent(sco) && IsEvent(pcm) && IsEvent(i2s)
    {
      ghost var earlier := phases;
      sco, pcm := NO_EVENT, NO_EVENT;
      bdaddr := SendIf(config.bdaddrFlag, config.writeBdAddr);
      ghost var a := When(config.bdaddrFlag, [Exchange(config.writeBdAddr, bdaddr)]);
      assert phases == earlier + a;
      sleep := SendIf(config.enableLpm, HCI_WRITE_SLEEP_MODE);
      ghost var b := When(config.enableLpm, [Exchange(HCI_WRITE_SLEEP_MODE, sleep)]);
      assert phases == earlier + a + b;
      if config.scopcm {
        sco, pcm := ProcScopcm();
      }
      ghost var c := When(config.scopcm, [Exchange(config.scoPcmInt, sco), Exchange(config.pcmDataFormat, pcm)]);
      assert phases == earlier + a + b + c;
      i2s := SendIf(config.i2s, config.i2sParam);
      FiveParts(earlier, a, b, c, When(config.i2s, [Exchange(config.i2sParam, i2s)]));
    }

    /** main, once the options are parsed and the UART is open: everything it
        does on the UART is its plan, for some answers of the outside. */
    method Run() returns (ghost w: Answers)
      requires Valid() && phases == [] && hcdPos == 0
      modifies this`rxPos, this`trace, this`armed, this`phases, this`rearmed, this`line, this`hcdPos, buffer
      ensures Valid() && Possible(config, w) && phases == Plan(config, w)
      ensures IsRun(trace, config, w) && (!rearmed ==> trace == ExpandAll(Plan(config, w)))
    {
      hide ExpandAll, Received, Stream, LatePlan, BaudPlan, Exchanges, Feeds;
      ghost var early1, reset1, late1, baud1 := Begin();
      ghost var minidriver, extra, downloads, replies := NO_EVENT, [0, 0], [], [];
      ghost var early2, reset2, late2, baud2 := 0, NO_EVENT, 0, NO_EVENT;
      ghost var first := phases;
      if config.hcdFd > 0 {
        assert config.hcd[0..] == config.hcd;
        ghost var read;
        minidriver, read, downloads, replies, early2, reset2, late2 := ProcPatchram();
        if !config.no2bytes {
          extra := read;
        }
      }
      ghost var patch := When(config.hcdFd > 0,
                              PatchPlan(config, minidriver, extra, downloads, replies, early2, reset2, late2));
      assert phases == first + patch;
      if config.speed != B0 {
        baud2 := ProcBaudrate();
      }
      assert phases == first + patch + When(config.speed != B0, BaudPlan(config, baud2));
      ghost var bdaddr, sleep, sco, pcm, i2s := Finish();
      w := Answers(early1, reset1, late1, baud1, minidriver, extra, downloads, replies,
                   early2, reset2, late2, baud2, bdaddr, sleep, sco, pcm, i2s);
    }
  }

  lemma NothingRead(rx: nat -> byte, from: nat, start: nat, before: seq<byte>, t: seq<Io>)
    requires start <= |before|
    ensures Overwrite(before, start, Stream(rx, from, 0)) == before
    ensures t + Alarms(0) == t
  {
  }

  lemma NoBytes(t: seq<Io>)
    ensures Received(t) + [] == Received(t) && t + Alarms(0) == t
  {
  }

  lemma PatchPieces(p: seq<Phase>, a: seq<Phase>, b: seq<Phase>, c: seq<Phase>, d: Phase)
    ensures p + a + b + [Patched] + c + [d] == p + (a + b + [Patched] + c + [d])
  {
  }

  lemma ExchangesAppend(p: seq<Phase>, fs: seq<seq<byte>>, es: seq<seq<byte>>, f: seq<byte>, e: seq<byte>)
    requires |fs| == |es|
    ensures p + Exchanges(fs, es) + [Exchange(f, e)] == p + Exchanges(fs + [f], es + [e])
  {
    assert (fs + [f])[..|fs|] == fs && (es + [e])[..|es|] == es;
  }

  /** What one round of the download loop sends, given the rest h of the file and
      what the buffer holds: the next record behind a packet indicator, and from
      the buffer what the file lacks of it, its length byte included. */
  function NextFrame(h: seq<byte>, buffer: seq<byte>): (f: seq<byte>)
    requires h != [] && |buffer| == BUFFER_SIZE
    ensures |f| >= 4 && |f| <= 259
  {
    var len := if |h| >= 3 then h[2] as int else buffer[3] as int;
    if |h| >= 3 + len then [1] + h[..3 + len] else [1] + h + buffer[1 + |h|..4 + len]
  }

  /** What of the file is left behind it. */
  function NextRest(h: seq<byte>): seq<byte> {
    if HasRecord(h) then h[RecordSize(h)..] else []
  }

  lemma NextFeeds(h: seq<byte>, buffer: seq<byte>)
    requires h != [] && |buffer| == BUFFER_SIZE
    ensures Feeds(h, [NextFrame(h, buffer)], NextRest(h))
  {
    var f := NextFrame(h, buffer);
    var none: seq<seq<byte>> := [];
    assert [f][1..] == none && Feeds(NextRest(h), none, NextRest(h));
  }

  /** The frame that the two reads of the file leave in the buffer: head is the
      buffer behind the first read, after behind the second. */
  lemma RecordSent(h: seq<byte>, before: seq<byte>, head: seq<byte>, after: seq<byte>,
                   count: nat, filled: nat, len: nat)
    requires |before| == |head| == |after| == BUFFER_SIZE && head[3] == len < 256
    requires 0 < count <= |h| && count == (if 3 <= |h| then 3 else |h|)
    requires head == Overwrite(before, 1, h[..count])[0 := 1]
    requires filled == (if len <= |h| - count then len else |h| - count)
    requires after == Overwrite(head, 4, h[count..count + filled])
    ensures after[..len + 4] == NextFrame(h, before) && h[count + filled..] == NextRest(h)
  {
    if |h| >= 3 {
      assert head[3] == h[..3][2];
      assert head[..4] == [1] + h[..3];
      FrontOf(h, before, head, after, filled, len);
    } else {
      assert after == head;
      assert head[..len + 4] == [1] + h + before[1 + |h|..4 + len];
    }
  }

  lemma FrontOf(h: seq<byte>, before: seq<byte>, head: seq<byte>, after: seq<byte>, filled: nat, len: nat)
    requires |before| == |head| == |after| == BUFFER_SIZE && len < 256 && 3 + filled <= |h|
    requires head[..4] == [1] + h[..3] && head[4..] == before[4..]
    requires filled == (if len <= |h| - 3 then len else |h| - 3)
    requires after == Overwrite(head, 4, h[3..3 + filled])
    ensures after[..len + 4] ==
            if |h| >= 3 + len then [1] + h[..3 + len] else [1] + h + before[1 + |h|..4 + len]
  {
    assert h[..3] + h[3..3 + filled] == h[..3 + filled];
    assert after[..4 + filled] == head[..4] + h[3..3 + filled];
    if |h| < 3 + len {
      assert h[..3 + filled] == h;
      assert after[4 + filled..] == head[4 + filled..] == before[4 + filled..] by {
        assert head[4 + filled..] == head[4..][filled..] && before[4 + filled..] == before[4..][filled..];
      }
      assert after[4 + filled..4 + len] == after[4 + filled..][..len - filled];
      assert before[4 + filled..4 + len] == before[4 + filled..][..len - filled];
      assert after[..len + 4] == after[..4 + filled] + after[4 + filled..4 + len];
    }
  }

  lemma RecordLoaded(hcd: seq<byte>, start: nat, before: seq<byte>, head: seq<byte>, after: seq<byte>,
                     count: nat, filled: nat, len: nat)
    requires |before| == |head| == |after| == BUFFER_SIZE && start + count + filled <= |hcd|
    requires 0 < count == (if 3 <= |hcd| - start then 3 else |hcd| - start)
    requires head == Overwrite(before, 1, hcd[start..start + count])[0 := 1] && head[3] == len < 256
    requires filled == (if len <= |hcd| - start - count then len else |hcd| - start - count)
    requires after == Overwrite(head, 4, hcd[start + count..start + count + filled])
    ensures after[..len + 4] == NextFrame(hcd[start..], before)
    ensures Feeds(hcd[start..], [after[..len + 4]], hcd[start + count + filled..])
  {
    hide Overwrite, NextFrame, Feeds;
    var h := hcd[start..];
    assert h[..count] == hcd[start..start + count];
    assert h[count..count + filled] == hcd[start + count..start + count + filled];
    assert h[count + filled..] == hcd[start + count + filled..];
    RecordSent(h, before, head, after, count, filled, len);
    NextFeeds(h, before);
  }

  lemma MoreStored(rx: nat -> byte, from: nat, n: nat, m: nat, start: nat,
                   before: seq<byte>, half: seq<byte>, after: seq<byte>)
    requires start + n + m <= |before| == |half| == |after|
    requires half == Overwrite(before, start, Stream(rx, from, n))
    requires after == Overwrite(half, start + n, Stream(rx, from + n, m))
    ensures after == Overwrite(before, start, Stream(rx, from, n + m))
  {
    OverwriteTwice(before, start, Stream(rx, from, n), Stream(rx, from + n, m));
    StreamAppend(rx, from, n, m);
  }

  lemma EventAssembled(rx: nat -> byte, from: nat, len: nat, before: seq<byte>, half: seq<byte>, after: seq<byte>)
    requires |before| == |half| == |after| == BUFFER_SIZE && len < 256
    requires half == Overwrite(before, 0, Stream(rx, from, 3)) && half[2] == len
    requires after == Overwrite(half, 3, Stream(rx, from + 3, len))
    ensures after == Overwrite(before, 0, Stream(rx, from, 3 + len))
    ensures IsEvent(Stream(rx, from, 3 + len))
  {
    OverwriteTwice(before, 0, Stream(rx, from, 3), Stream(rx, from + 3, len));
    StreamAppend(rx, from, 3, len);
    assert Stream(rx, from, 3 + len)[2] == Stream(rx, from, 3)[2] == half[2];
  }

  lemma ReceivedEvent(rx: nat -> byte, from: nat, t: seq<Io>, n: nat, m: nat)
    requires Received(t) == Stream(rx, 0, from)
    ensures Received(t + Alarms(n) + [Recv(Stream(rx, from, m))]) == Stream(rx, 0, from + m)
  {
    ReceivedAlarms(t, n);
    ReceivedAppend(t + Alarms(n), Recv(Stream(rx, from, m)));
    StreamAppend(rx, 0, from, m);
  }

  lemma AlarmsJoin(t: seq<Io>, n: nat, m: nat)
    ensures t + Alarms(n) + Alarms(m) == t + Alarms(n + m)
  {
    AlarmsAdd(n, m);
    assert t + Alarms(n) + Alarms(m) == t + (Alarms(n) + Alarms(m));
  }
}
