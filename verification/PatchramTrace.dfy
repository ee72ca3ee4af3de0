/** What happens on the UART during one run of brcm_patchram_plus. */
module PatchramTrace {
  import opened Bytes
  import opened PatchramConfig

  /** One step: a command written, by the program or by the alarm handler; an
      event read completely; the bytes of the two-byte read; a line speed set;
      the end of the HCD file found. */
  datatype Io =
    | Send(frame: seq<byte>, byTimer: bool)
    | Recv(event: seq<byte>)
    | Skip(bytes: seq<byte>)
    | SetSpeed(speed: Speed)
    | EndOfFile

  /** What one piece of the program does: proc_reset, with the alarms that
      expire before and after its event is complete; a command and its event;
      the two-byte read; tcsetattr; the end of the download loop. */
  datatype Phase =
    | Reset(early: nat, event: seq<byte>, late: nat)
    | Exchange(frame: seq<byte>, event: seq<byte>)
    | Gap(bytes: seq<byte>)
    | Line(speed: Speed)
    | Patched

  /** n runs of the alarm handler. */
  function Alarms(n: nat): (t: seq<Io>)
    ensures |t| == n
  {
    if n == 0 then [] else Alarms(n - 1) + [Send(HCI_RESET, true)]
  }

  lemma {:induction false} AlarmsAdd(n: nat, m: nat)
    ensures Alarms(n) + Alarms(m) == Alarms(n + m)
  {
    if m == 0 {
      assert Alarms(n) + [] == Alarms(n);
    } else {
      AlarmsAdd(n, m - 1);
      assert Alarms(n) + Alarms(m) == Alarms(n) + Alarms(m - 1) + [Send(HCI_RESET, true)];
    }
  }

  lemma AlarmsLast(t: seq<Io>, n: nat)
    ensures n == 0 ==> t + Alarms(n) == t
    ensures n > 0 ==> t + Alarms(n) == t + Alarms(n - 1) + [Send(HCI_RESET, true)]
  {
  }

  function Expand(p: Phase): seq<Io> {
    match p
    case Reset(early, event, late) => [Send(HCI_RESET, false)] + Alarms(early) + [Recv(event)] + Alarms(late)
    case Exchange(frame, event) => [Send(frame, false), Recv(event)]
    case Gap(bytes) => [Skip(bytes)]
    case Line(speed) => [SetSpeed(speed)]
    case Patched => [EndOfFile]
  }

  function ExpandAll(ps: seq<Phase>): seq<Io> {
    if ps == [] then [] else ExpandAll(ps[..|ps| - 1]) + Expand(ps[|ps| - 1])
  }

  lemma ResetSteps(t: seq<Io>, early: nat, event: seq<byte>, late: nat)
    ensures t + [Send(HCI_RESET, false)] + Alarms(early) + [Recv(event)] + Alarms(late)
         == t + Expand(Reset(early, event, late))
  {
    FiveParts(t, [Send(HCI_RESET, false)], Alarms(early), [Recv(event)], Alarms(late));
  }

  lemma TwoPhases(ps: seq<Phase>, p: Phase, q: Phase)
    ensures ps + [p] + [q] == ps + [p, q]
  {
  }

  lemma ExpandAppend(ps: seq<Phase>, p: Phase)
    ensures ExpandAll(ps + [p]) == ExpandAll(ps) + Expand(p)
  {
    assert (ps + [p])[..|ps|] == ps;
  }

  /** The host's line speed after phases. */
  function LineOf(ps: seq<Phase>): Speed {
    if ps == [] then B0
    else if ps[|ps| - 1].Line? then ps[|ps| - 1].speed
    else LineOf(ps[..|ps| - 1])
  }

  lemma LineAppend(ps: seq<Phase>, p: Phase)
    ensures LineOf(ps + [p]) == if p.Line? then p.speed else LineOf(ps)
  {
    assert (ps + [p])[..|ps|] == ps;
  }

  /** An HCI event packet as read_event takes it: three bytes, the last of
      which counts those that follow. */
  predicate IsEvent(e: seq<byte>) {
    |e| >= 3 && |e| == 3 + e[2] as int
  }

  /** The event packets of section 5.4.4 of Vol 2 Part E, behind their packet
      indicator: a code, a length and that many bytes. */
  lemma EventPackets(code: byte, params: seq<byte>, e: seq<byte>)
    requires |params| <= 255
    ensures IsEvent([0x04, code, |params|] + params)
    ensures IsEvent(e) && e[..2] == [0x04, code] ==> e == [0x04, code, |e[3..]|] + e[3..]
  {
    if IsEvent(e) && e[..2] == [0x04, code] {
      assert e == e[..2] + [e[2]] + e[3..];
    }
  }

  function ReceivedBy(io: Io): seq<byte> {
    match io
    case Recv(event) => event
    case Skip(bytes) => bytes
    case _ => []
  }

  /** The bytes taken from the UART. */
  function Received(t: seq<Io>): seq<byte> {
    if t == [] then [] else Received(t[..|t| - 1]) + ReceivedBy(t[|t| - 1])
  }

  lemma ReceivedAppend(t: seq<Io>, io: Io)
    ensures Received(t + [io]) == Received(t) + ReceivedBy(io)
  {
    assert (t + [io])[..|t|] == t;
  }

  /** Steps that take no bytes. */
  lemma ReceivedNothing(t: seq<Io>, io: Io)
    requires ReceivedBy(io) == []
    ensures Received(t + [io]) == Received(t)
  {
    ReceivedAppend(t, io);
    assert Received(t) + [] == Received(t);
  }

  lemma {:induction false} ReceivedAlarms(t: seq<Io>, n: nat)
    ensures Received(t + Alarms(n)) == Received(t)
  {
    hide Alarms;
    AlarmsLast(t, n);
    if n > 0 {
      ReceivedAlarms(t, n - 1);
      ReceivedNothing(t + Alarms(n - 1), Send(HCI_RESET, true));
    }
  }

  // ---------- alarms that expire anywhere ----------

  predicate IsAlarm(io: Io) {
    io.Send? && io.byTimer
  }

  /** The steps that are not the alarm handler's. */
  function Erase(t: seq<Io>): seq<Io> {
    if t == [] then []
    else if IsAlarm(t[|t| - 1]) then Erase(t[..|t| - 1])
    else Erase(t[..|t| - 1]) + [t[|t| - 1]]
  }

  predicate AlarmsAreResets(t: seq<Io>) {
    forall i | 0 <= i < |t| && IsAlarm(t[i]) :: t[i].frame == HCI_RESET
  }

  /** The program's steps are those of u, and the handler's, wherever they are, are
      resets. */
  predicate Follows(t: seq<Io>, u: seq<Io>) {
    Erase(t) == Erase(u) && AlarmsAreResets(t)
  }

  lemma EraseAppend(t: seq<Io>, io: Io)
    ensures Erase(t + [io]) == if IsAlarm(io) then Erase(t) else Erase(t) + [io]
    ensures AlarmsAreResets(t) && (IsAlarm(io) ==> io.frame == HCI_RESET) ==> AlarmsAreResets(t + [io])
  {
    assert (t + [io])[..|t|] == t;
  }

  lemma {:induction false} EraseAlarms(t: seq<Io>, n: nat)
    ensures Erase(t + Alarms(n)) == Erase(t)
    ensures AlarmsAreResets(t) ==> AlarmsAreResets(t + Alarms(n))
  {
    hide Alarms;
    AlarmsLast(t, n);
    if n > 0 {
      EraseAlarms(t, n - 1);
      EraseAppend(t + Alarms(n - 1), Send(HCI_RESET, true));
    }
  }

  /** A step of the program, with the handler running before and after it. */
  lemma FollowsStep(t: seq<Io>, u: seq<Io>, n: nat, io: Io, m: nat)
    requires Follows(t, u) && !IsAlarm(io)
    ensures Follows(t + Alarms(n) + [io] + Alarms(m), u + [io])
    ensures n == m == 0 ==> t + Alarms(n) + [io] + Alarms(m) == t + [io]
  {
    hide Alarms, Erase, AlarmsAreResets;
    EraseAlarms(t, n);
    EraseAppend(t + Alarms(n), io);
    EraseAlarms(t + Alarms(n) + [io], m);
    EraseAppend(u, io);
    AlarmsLast(t, 0);
    AlarmsLast(t + [io], 0);
  }

  lemma FollowsExchange(t: seq<Io>, u: seq<Io>, frame: seq<byte>, n: nat, event: seq<byte>, m: nat)
    requires Follows(t, u)
    ensures var s := t + [Send(frame, false)] + Alarms(n) + [Recv(event)] + Alarms(m);
            && Follows(s, u + Expand(Exchange(frame, event)))
            && (n == m == 0 ==> s == t + Expand(Exchange(frame, event)))
  {
    hide Follows, Alarms;
    var send := Send(frame, false);
    FollowsStep(t, u, 0, send, 0);
    FollowsStep(t + [send], u + [send], n, Recv(event), m);
    assert u + [send] + [Recv(event)] == u + Expand(Exchange(frame, event));
    assert t + [send] + [Recv(event)] == t + Expand(Exchange(frame, event));
  }

  lemma FollowsReset(t: seq<Io>, u: seq<Io>, n: nat, event: seq<byte>, m: nat)
    requires Follows(t, u)
    ensures var s := t + [Send(HCI_RESET, false)] + Alarms(n) + [Recv(event)] + Alarms(m);
            Follows(s, u + Expand(Reset(n, event, m))) && s == t + Expand(Reset(n, event, m))
  {
    hide Follows, Alarms;
    var reset := Send(HCI_RESET, false);
    FollowsExchange(t, u, HCI_RESET, n, event, m);
    FollowsSame(t + [reset] + Alarms(n) + [Recv(event)] + Alarms(m), u + Expand(Exchange(HCI_RESET, event)),
                u + Expand(Reset(n, event, m)));
    ResetSteps(t, n, event, m);
    ResetSteps(u, n, event, m);
    EraseReset(u, n, event, m);
  }

  lemma FollowsSame(t: seq<Io>, u: seq<Io>, v: seq<Io>)
    requires Follows(t, u)
    ensures Erase(u) == Erase(v) ==> Follows(t, v)
  {
  }

  lemma EraseReset(u: seq<Io>, n: nat, event: seq<byte>, m: nat)
    ensures Erase(u + Expand(Reset(n, event, m))) == Erase(u + Expand(Exchange(HCI_RESET, event)))
  {
    hide Erase, Alarms;
    var a := u + [Send(HCI_RESET, false)];
    ResetSteps(u, n, event, m);
    EraseAlarms(a + Alarms(n) + [Recv(event)], m);
    EraseAppend(a + Alarms(n), Recv(event));
    EraseAlarms(a, n);
    EraseAppend(a, Recv(event));
    assert a + [Recv(event)] == u + Expand(Exchange(HCI_RESET, event));
  }

  // ---------- the file ----------

  /** The bytes h of the file start with a whole record. */
  predicate HasRecord(h: seq<byte>) {
    |h| >= 3 && |h| >= 3 + h[2] as int
  }

  function RecordSize(h: seq<byte>): nat
    requires HasRecord(h)
  {
    3 + h[2] as int
  }

  /** Frames that the download loop makes of the bytes h of the file, with r
      left: a complete record is sent behind 0x01, and a truncated one, which
      can only be the last, has stale bytes of the shared buffer behind it. */
  ghost predicate Feeds(h: seq<byte>, frames: seq<seq<byte>>, r: seq<byte>)
    decreases |frames|
  {
    if frames == [] then h == r
    else
      && h != []
      && |frames[0]| >= 4 && frames[0][0] == 1 && |frames[0]| == 4 + frames[0][3] as int
      && (if HasRecord(h) then
            frames[0] == [1] + h[..RecordSize(h)] && Feeds(h[RecordSize(h)..], frames[1..], r)
          else
            [1] + h <= frames[0] && |frames| == 1 && r == [])
  }

  lemma {:induction false} FeedsAppend(h: seq<byte>, frames: seq<seq<byte>>, r: seq<byte>, f: seq<byte>, r': seq<byte>)
    requires Feeds(h, frames, r) && Feeds(r, [f], r') && r != []
    ensures Feeds(h, frames + [f], r')
    decreases |frames|
  {
    if frames == [] {
      assert frames + [f] == [f];
    } else {
      var n := RecordSize(h);
      FeedsAppend(h[n..], frames[1..], r, f, r');
      assert (frames + [f])[1..] == frames[1..] + [f];
    }
  }

  // ---------- the plan of a run ----------

  /** Everything the outside decides: how often the alarm expires, what is
      read, and which frames the file gives. */
  datatype Answers = Answers(
    early1: nat, reset1: seq<byte>, late1: nat,
    baud1: seq<byte>,
    minidriver: seq<byte>, extra: seq<byte>,
    downloads: seq<seq<byte>>, replies: seq<seq<byte>>,
    early2: nat, reset2: seq<byte>, late2: nat,
    baud2: seq<byte>, bdaddr: seq<byte>, sleep: seq<byte>,
    sco: seq<byte>, pcm: seq<byte>, i2s: seq<byte>)

  /** proc_baudrate. */
  function BaudPlan(c: Config, event: seq<byte>): seq<Phase> {
    [Exchange(c.updateBaudRate, event), Line(c.speed)]
  }

  function Exchanges(frames: seq<seq<byte>>, events: seq<seq<byte>>): seq<Phase>
    requires |frames| == |events|
  {
    if frames == [] then []
    else
      var n := |frames| - 1;
      Exchanges(frames[..n], events[..n]) + [Exchange(frames[n], events[n])]
  }

  /** proc_patchram. */
  function PatchPlan(c: Config, minidriver: seq<byte>, extra: seq<byte>, downloads: seq<seq<byte>>,
                     replies: seq<seq<byte>>, early: nat, reset: seq<byte>, late: nat): seq<Phase>
    requires |downloads| == |replies|
  {
    [Exchange(HCI_DOWNLOAD_MINIDRIVER, minidriver)] + When(!c.no2bytes, [Gap(extra)])
    + Exchanges(downloads, replies) + [Patched] + When(c.useBaudrate, [Line(B115200)])
    + [Reset(early, reset, late)]
  }

  /** The commands after the last change of line speed. */
  function LatePlan(c: Config, bdaddr: seq<byte>, sleep: seq<byte>,
                    sco: seq<byte>, pcm: seq<byte>, i2s: seq<byte>): seq<Phase>
  {
    When(c.bdaddrFlag, [Exchange(c.writeBdAddr, bdaddr)])
    + When(c.enableLpm, [Exchange(HCI_WRITE_SLEEP_MODE, sleep)])
    + When(c.scopcm, [Exchange(c.scoPcmInt, sco), Exchange(c.pcmDataFormat, pcm)])
    + When(c.i2s, [Exchange(c.i2sParam, i2s)])
  }

  function Plan(c: Config, w: Answers): seq<Phase>
    requires |w.downloads| == |w.replies|
  {
    [Line(B115200), Reset(w.early1, w.reset1, w.late1)]
    + When(c.useBaudrate && c.speed != B0, BaudPlan(c, w.baud1))
    + When(c.hcdFd > 0, PatchPlan(c, w.minidriver, w.extra, w.downloads, w.replies, w.early2, w.reset2, w.late2))
    + When(c.speed != B0, BaudPlan(c, w.baud2))
    + LatePlan(c, w.bdaddr, w.sleep, w.sco, w.pcm, w.i2s)
  }

  /** An event that stands for none having been read. */
  const NO_EVENT: seq<byte> := [0, 0, 0]

  /** Answers in which no event has parameters and no alarm expires but early ones
      in the first reset. */
  function BlankAnswers(early1: nat, extra: seq<byte>): (w: Answers)
    ensures |w.downloads| == |w.replies|
  {
    Answers(early1, NO_EVENT, 0, NO_EVENT, NO_EVENT, extra, [], [], 0, NO_EVENT, 0,
            NO_EVENT, NO_EVENT, NO_EVENT, NO_EVENT, NO_EVENT, NO_EVENT)
  }

  /** Answers that a run of the program with configuration c can have had. */
  ghost predicate Possible(c: Config, w: Answers) {
    && |w.downloads| == |w.replies|
    && (if c.hcdFd > 0 then Feeds(c.hcd, w.downloads, []) else w.downloads == [])
    && 1 <= |w.extra| <= 2
    && IsEvent(w.reset1) && IsEvent(w.baud1) && IsEvent(w.minidriver) && IsEvent(w.reset2)
    && IsEvent(w.baud2) && IsEvent(w.bdaddr) && IsEvent(w.sleep) && IsEvent(w.sco) && IsEvent(w.pcm) && IsEvent(w.i2s)
    && (forall e | e in w.replies :: IsEvent(e))
  }

  /** A trace of a run with configuration c, for answers w of the outside, and with
      the alarm expiring anywhere. */
  ghost predicate IsRun(t: seq<Io>, c: Config, w: Answers) {
    |w.downloads| == |w.replies| && Follows(t, ExpandAll(Plan(c, w)))
  }

  // ---------- what phases contribute ----------

  /** The contributions of phases, one after the other. */
  function Collect<T>(f: Phase -> seq<T>, ps: seq<Phase>): seq<T> {
    if ps == [] then [] else Collect(f, ps[..|ps| - 1]) + f(ps[|ps| - 1])
  }

  lemma {:induction false} CollectJoin<T>(f: Phase -> seq<T>, a: seq<Phase>, b: seq<Phase>)
    ensures Collect(f, a + b) == Collect(f, a) + Collect(f, b)
  {
    if b == [] {
      assert a + b == a && Collect(f, a) + [] == Collect(f, a);
    } else {
      var n := |b| - 1;
      CollectJoin(f, a, b[..n]);
      assert (a + b)[..|a + b| - 1] == a + b[..n] && (a + b)[|a + b| - 1] == b[n];
      Associative(Collect(f, a), Collect(f, b[..n]), f(b[n]));
    }
  }

  lemma CollectOne<T>(f: Phase -> seq<T>, p: Phase)
    ensures Collect(f, [p]) == f(p)
  {
    assert [p][..0] == [];
    assert Collect(f, [p][..0]) + f(p) == f(p);
  }

  lemma CollectTwo<T>(f: Phase -> seq<T>, p: Phase, q: Phase)
    ensures Collect(f, [p, q]) == f(p) + f(q)
  {
    CollectOne(f, p);
    CollectOne(f, q);
    CollectJoin(f, [p], [q]);
    assert [p] + [q] == [p, q];
  }

  lemma TwoAre<T>(f: Phase -> seq<T>, a: seq<Phase>, b: seq<Phase>, u: seq<T>, v: seq<T>)
    requires Collect(f, a) == u && Collect(f, b) == v
    ensures Collect(f, a + b) == u + v
  {
    CollectJoin(f, a, b);
  }

  lemma FourAre<T>(f: Phase -> seq<T>, a: seq<Phase>, b: seq<Phase>, c: seq<Phase>, d: seq<Phase>,
                   u: seq<T>, v: seq<T>, x: seq<T>, y: seq<T>)
    requires Collect(f, a) == u && Collect(f, b) == v && Collect(f, c) == x && Collect(f, d) == y
    ensures Collect(f, a + b + c + d) == u + v + x + y
  {
    TwoAre(f, a, b, u, v);
    TwoAre(f, a + b, c, u + v, x);
    TwoAre(f, a + b + c, d, u + v + x, y);
  }

  lemma FiveAre<T>(f: Phase -> seq<T>, a: seq<Phase>, b: seq<Phase>, c: seq<Phase>, d: seq<Phase>, e: seq<Phase>,
                   u: seq<T>, v: seq<T>, x: seq<T>, y: seq<T>, z: seq<T>)
    requires Collect(f, a) == u && Collect(f, b) == v && Collect(f, c) == x
    requires Collect(f, d) == y && Collect(f, e) == z
    ensures Collect(f, a + b + c + d + e) == u + v + x + y + z
  {
    FourAre(f, a, b, c, d, u, v, x, y);
    TwoAre(f, a + b + c + d, e, u + v + x + y, z);
  }

  lemma SixAre<T>(f: Phase -> seq<T>, a: seq<Phase>, b: seq<Phase>, c: seq<Phase>, d: seq<Phase>, e: seq<Phase>,
                  g: seq<Phase>, u: seq<T>, v: seq<T>, x: seq<T>, y: seq<T>, z: seq<T>, t: seq<T>)
    requires Collect(f, a) == u && Collect(f, b) == v && Collect(f, c) == x
    requires Collect(f, d) == y && Collect(f, e) == z && Collect(f, g) == t
    ensures Collect(f, a + b + c + d + e + g) == u + v + x + y + z + t
  {
    FiveAre(f, a, b, c, d, e, u, v, x, y, z);
    TwoAre(f, a + b + c + d + e, g, u + v + x + y + z, t);
  }
}
