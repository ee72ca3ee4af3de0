/** The bytes a run reads against the events the controller sends: whether
    every read_event starts and ends where an event does. */
module PatchramStream {
  import opened Bytes
  import opened PatchramConfig
  import opened PatchramTrace
  import opened PatchramRuns

  /** Something read, or sent, as one: an event, or the two bytes that older
      controllers send behind the answer to the minidriver command. */
  datatype Item = Event(bytes: seq<byte>) | Two(bytes: seq<byte>)

  function PhaseReads(p: Phase): seq<Item> {
    match p
    case Reset(_, event, _) => [Event(event)]
    case Exchange(_, event) => [Event(event)]
    case Gap(bytes) => [Two(bytes)]
    case _ => []
  }

  function Flat(items: seq<Item>): seq<byte> {
    if items == [] then [] else items[0].bytes + Flat(items[1..])
  }

  lemma {:induction false} FlatJoin(a: seq<Item>, b: seq<Item>)
    ensures Flat(a + b) == Flat(a) + Flat(b)
  {
    if a == [] {
      assert a + b == b;
    } else {
      FlatJoin(a[1..], b);
      assert (a + b)[1..] == a[1..] + b;
      Associative(a[0].bytes, Flat(a[1..]), Flat(b));
    }
  }

  lemma FlatOne(i: Item)
    ensures Flat([i]) == i.bytes
  {
    assert [i][1..] == [];
    assert i.bytes + Flat([i][1..]) == i.bytes;
  }

  lemma LastIo(t: seq<Io>, u: seq<Io>)
    requires u != []
    ensures t + u == t + u[..|u| - 1] + [u[|u| - 1]]
  {
  }

  lemma {:induction false} ReceivedJoin(t: seq<Io>, u: seq<Io>)
    ensures Received(t + u) == Received(t) + Received(u)
  {
    if u == [] {
      assert t + u == t && Received(t) + [] == Received(t);
    } else {
      hide ReceivedBy;
      var n := |u| - 1;
      ReceivedJoin(t, u[..n]);
      LastIo(t, u);
      ReceivedAppend(t + u[..n], u[n]);
      Associative(Received(t), Received(u[..n]), ReceivedBy(u[n]));
    }
  }

  lemma ReceivedPhase(p: Phase)
    ensures Received(Expand(p)) == Flat(PhaseReads(p))
  {
    match p {
      case Reset(early, event, late) =>
        var a := [Send(HCI_RESET, false)];
        var none: seq<Io> := [];
        FlatOne(Event(event));
        ReceivedNothing(none, Send(HCI_RESET, false));
        assert none + a == a;
        ReceivedAlarms(a, early);
        ReceivedAppend(a + Alarms(early), Recv(event));
        ReceivedAlarms(a + Alarms(early) + [Recv(event)], late);
        assert [] + event == event;
      case Exchange(frame, event) =>
        var none: seq<Io> := [];
        FlatOne(Event(event));
        ReceivedNothing(none, Send(frame, false));
        assert none + [Send(frame, false)] == [Send(frame, false)];
        ReceivedAppend([Send(frame, false)], Recv(event));
        assert Expand(p) == [Send(frame, false)] + [Recv(event)];
        assert [] + event == event;
      case Gap(bytes) =>
        OneReceived(Skip(bytes));
        FlatOne(Two(bytes));
      case Line(speed) => OneReceived(SetSpeed(speed));
      case Patched => OneReceived(EndOfFile);
    }
  }

  lemma OneReceived(io: Io)
    ensures Received([io]) == ReceivedBy(io)
  {
    var none: seq<Io> := [];
    ReceivedAppend(none, io);
    assert none + [io] == [io] && Received(none) + ReceivedBy(io) == ReceivedBy(io);
  }

  /** The bytes taken during a run are those of what it reads, in order. */
  lemma {:induction false} ReceivedItems(ps: seq<Phase>)
    ensures Received(ExpandAll(ps)) == Flat(Collect(PhaseReads, ps))
  {
    if ps != [] {
      var n := |ps| - 1;
      ReceivedItems(ps[..n]);
      ReceivedJoin(ExpandAll(ps[..n]), Expand(ps[n]));
      ReceivedPhase(ps[n]);
      FlatJoin(Collect(PhaseReads, ps[..n]), PhaseReads(ps[n]));
    }
  }

  // ---------- host and controller ----------

  /** What read_event and the two-byte read return. */
  predicate IsRead(i: Item) {
    if i.Event? then IsEvent(i.bytes) else 1 <= |i.bytes| <= 2
  }

  /** What a controller sends. */
  predicate IsSent(i: Item) {
    if i.Event? then IsEvent(i.bytes) else |i.bytes| == 2
  }

  predicate AllRead(hs: seq<Item>) {
    forall i | 0 <= i < |hs| :: IsRead(hs[i])
  }

  predicate AllSent(cs: seq<Item>) {
    forall i | 0 <= i < |cs| :: IsSent(cs[i])
  }

  function Kinds(items: seq<Item>): (ks: seq<bool>)
    ensures |ks| == |items|
    ensures forall i | 0 <= i < |items| :: ks[i] == items[i].Event?
  {
    if items == [] then [] else [items[0].Event?] + Kinds(items[1..])
  }

  /** Every event read is an event sent, read from where it starts. */
  ghost predicate Aligned(hs: seq<Item>, cs: seq<Item>) {
    forall i | 0 <= i < |hs| && hs[i].Event? :: exists j | 0 <= j < |cs| :: StartsAt(hs, i, cs, j) && hs[i] == cs[j]
  }

  predicate StartsAt(hs: seq<Item>, i: nat, cs: seq<Item>, j: nat)
    requires i <= |hs| && j <= |cs|
  {
    |Flat(hs[..i])| == |Flat(cs[..j])|
  }

  predicate FullReads(hs: seq<Item>) {
    forall i | 0 <= i < |hs| && hs[i].Two? :: |hs[i].bytes| == 2
  }

  lemma FirstSame(h: Item, c: Item, a: seq<byte>, b: seq<byte>)
    requires IsRead(h) && IsSent(c) && h.Event? == c.Event? && (h.Two? ==> |h.bytes| == 2)
    requires h.bytes + a <= c.bytes + b
    ensures h == c && a <= b
  {
    var s := c.bytes + b;
    assert h.bytes == s[..|h.bytes|] && c.bytes == s[..|c.bytes|];
    if h.Event? {
      assert h.bytes[2] == s[2] == c.bytes[2];
    }
    assert (h.bytes + a)[|h.bytes|..] == a && s[|c.bytes|..] == b;
  }

  /** With full two-byte reads in the right places, what is read is what was
      sent. */
  lemma {:induction false} ReadsAreSent(hs: seq<Item>, cs: seq<Item>)
    requires AllRead(hs) && AllSent(cs) && FullReads(hs)
    requires Kinds(hs) <= Kinds(cs) && Flat(hs) <= Flat(cs)
    ensures hs <= cs
    decreases |hs|
  {
    if hs != [] {
      assert Kinds(hs)[0] == Kinds(cs)[0];
      FirstSame(hs[0], cs[0], Flat(hs[1..]), Flat(cs[1..]));
      assert Kinds(hs[1..]) == Kinds(hs)[1..] && Kinds(cs[1..]) == Kinds(cs)[1..];
      ReadsAreSent(hs[1..], cs[1..]);
      assert hs == [hs[0]] + hs[1..] && cs == [cs[0]] + cs[1..];
    }
  }

  lemma SentAligned(hs: seq<Item>, cs: seq<Item>)
    requires hs <= cs
    ensures Aligned(hs, cs)
  {
    forall i | 0 <= i < |hs| && hs[i].Event?
      ensures exists j | 0 <= j < |cs| :: StartsAt(hs, i, cs, j) && hs[i] == cs[j]
    {
      assert hs[..i] == cs[..i];
      assert StartsAt(hs, i, cs, i) && hs[i] == cs[i];
    }
  }

  lemma FlatLonger(cs: seq<Item>, i: nat, j: nat)
    requires i <= j <= |cs|
    ensures |Flat(cs[..i])| <= |Flat(cs[..j])|
  {
    assert cs[..j] == cs[..i] + cs[i..j];
    FlatJoin(cs[..i], cs[i..j]);
  }

  lemma FlatNext(cs: seq<Item>, i: nat)
    requires i < |cs|
    ensures Flat(cs[..i + 1]) == Flat(cs[..i]) + cs[i].bytes
  {
    assert cs[..i + 1] == cs[..i] + [cs[i]];
    FlatJoin(cs[..i], [cs[i]]);
    FlatOne(cs[i]);
  }

  /** Items are not empty, so places in front of different ones are different. */
  lemma FlatDistinct(cs: seq<Item>, i: nat, j: nat)
    requires AllSent(cs) && i < j <= |cs|
    ensures |Flat(cs[..i])| + |cs[i].bytes| <= |Flat(cs[..j])|
    ensures |Flat(cs[..i])| < |Flat(cs[..j])|
  {
    FlatNext(cs, i);
    FlatLonger(cs, i + 1, j);
  }

  /** A two-byte read that takes less than what is sent at its place puts the next
      event between two boundaries. */
  lemma {:induction false} ShortReadMisaligns(hs: seq<Item>, cs: seq<Item>, m: nat)
    requires AllSent(cs) && m + 1 < |hs| && m < |cs| && hs[..m] <= cs
    requires 0 < |hs[m].bytes| < |cs[m].bytes| && hs[m + 1].Event?
    ensures !Aligned(hs, cs)
  {
    assert hs[..m] == cs[..m];
    FlatNext(hs, m);
    var next := m + 1;
    forall j | 0 <= j < |cs|
      ensures !StartsAt(hs, next, cs, j)
    {
      if j <= m {
        FlatLonger(cs, j, m);
      } else {
        FlatDistinct(cs, m, j);
      }
    }
  }

  /** Two bytes read as the start of an event. */
  lemma {:induction false} TwoReadAsEvent(hs: seq<Item>, cs: seq<Item>, m: nat)
    requires AllSent(cs) && m < |hs| && m < |cs| && hs[..m] <= cs
    requires hs[m].Event? && cs[m].Two?
    ensures !Aligned(hs, cs)
  {
    assert hs[..m] == cs[..m];
    forall j | 0 <= j < |cs|
      ensures !(StartsAt(hs, m, cs, j) && hs[m] == cs[j])
    {
      if j < m {
        FlatDistinct(cs, j, m);
      } else if m < j {
        FlatDistinct(cs, m, j);
      }
    }
  }

  predicate Misread(h: Item, c: Item) {
    h.Event? != c.Event? || (h.Two? && |h.bytes| != 2)
  }

  /** Reads of the kinds sent at their places, and full. */
  predicate InPlace(hs: seq<Item>, cs: seq<Item>) {
    |hs| <= |cs| && forall i | 0 <= i < |hs| :: !Misread(hs[i], cs[i])
  }

  lemma InPlaceMeans(hs: seq<Item>, cs: seq<Item>)
    requires |hs| <= |cs|
    ensures InPlace(hs, cs) <==> Kinds(hs) <= Kinds(cs) && FullReads(hs)
  {
    if Kinds(hs) <= Kinds(cs) {
      assert forall i | 0 <= i < |hs| :: Kinds(hs)[i] == Kinds(cs)[i];
    }
    if InPlace(hs, cs) {
      assert forall i | 0 <= i < |hs| :: hs[i].Event? == cs[i].Event?;
    }
    hide Kinds;
  }

  /** The first read that is not of the kind sent at its place, or not full. */
  lemma {:induction false} FirstMisread(hs: seq<Item>, cs: seq<Item>) returns (m: nat)
    requires |hs| <= |cs| && !InPlace(hs, cs)
    ensures m < |hs| && InPlace(hs[..m], cs) && Misread(hs[m], cs[m])
    decreases |hs|
  {
    hide Misread;
    m := |hs| - 1;
    if !InPlace(hs[..m], cs) {
      var n := m;
      m := FirstMisread(hs[..n], cs);
      assert hs[..n][..m] == hs[..m];
    }
  }

  /** A two-byte read is followed by an event. */
  predicate TwosFollowed(hs: seq<Item>) {
    forall i | 0 <= i < |hs| && hs[i].Two? :: i + 1 < |hs| && hs[i + 1].Event?
  }

  /** Whatever is sent: every event read is an event sent, from its start, exactly
      when events and two-byte reads are where they are sent, and full. */
  lemma {:induction false} AlignedExactly(hs: seq<Item>, cs: seq<Item>)
    requires AllRead(hs) && AllSent(cs) && TwosFollowed(hs)
    requires |hs| <= |cs| && Flat(hs) <= Flat(cs)
    ensures Aligned(hs, cs) <==> Kinds(hs) <= Kinds(cs) && FullReads(hs)
  {
    hide Aligned, Kinds, FullReads, Flat;
    InPlaceMeans(hs, cs);
    if InPlace(hs, cs) {
      ReadsAreSent(hs, cs);
      SentAligned(hs, cs);
    } else {
      var m := FirstMisread(hs, cs);
      assert hs == hs[..m] + hs[m..];
      FlatJoin(hs[..m], hs[m..]);
      InPlaceMeans(hs[..m], cs);
      ReadsAreSent(hs[..m], cs);
      if hs[m].Event? {
        TwoReadAsEvent(hs, cs, m);
      } else {
        ShortReadMisaligns(hs, cs, m);
      }
    }
  }

  // ---------- runs ----------

  function Events(es: seq<seq<byte>>): (r: seq<Item>)
    ensures |r| == |es|
    ensures forall i | 0 <= i < |es| :: r[i] == Event(es[i])
  {
    if es == [] then [] else Events(es[..|es| - 1]) + [Event(es[|es| - 1])]
  }

  /** What is read up to the answer to the minidriver command. */
  function ReadsBefore(c: Config, w: Answers): seq<seq<byte>> {
    [w.reset1] + When(c.useBaudrate && c.speed != B0, [w.baud1]) + When(c.hcdFd > 0, [w.minidriver])
  }

  /** What is read behind the two bytes. */
  function ReadsBehind(c: Config, w: Answers): seq<seq<byte>> {
    When(c.hcdFd > 0, w.replies + [w.reset2]) + When(c.speed != B0, [w.baud2]) + LateReads(c, w)
  }

  /** The run reads two bytes that are not an event. */
  predicate SkipsTwo(c: Config) {
    c.hcdFd > 0 && !c.no2bytes
  }

  function HostReads(c: Config, w: Answers): seq<Item> {
    Events(ReadsBefore(c, w)) + When(SkipsTwo(c), [Two(w.extra)]) + Events(ReadsBehind(c, w))
  }

  lemma EventsJoin(a: seq<seq<byte>>, b: seq<seq<byte>>)
    ensures Events(a + b) == Events(a) + Events(b)
  {
  }

  lemma EventsOne(e: seq<byte>)
    ensures Events([e]) == [Event(e)]
  {
  }

  lemma {:induction false} ExchangeReads(fs: seq<seq<byte>>, es: seq<seq<byte>>)
    requires |fs| == |es|
    ensures Collect(PhaseReads, Exchanges(fs, es)) == Events(es)
    decreases |fs|
  {
    if fs != [] {
      var n := |fs| - 1;
      ExchangeReads(fs[..n], es[..n]);
      CollectOne(PhaseReads, Exchange(fs[n], es[n]));
      CollectJoin(PhaseReads, Exchanges(fs[..n], es[..n]), [Exchange(fs[n], es[n])]);
    }
  }

  lemma MaybeReads(b: bool, p: Phase)
    ensures Collect(PhaseReads, When(b, [p])) == When(b, PhaseReads(p))
  {
    CollectOne(PhaseReads, p);
  }

  lemma BaudReads(b: bool, c: Config, event: seq<byte>)
    ensures Collect(PhaseReads, When(b, BaudPlan(c, event))) == Events(When(b, [event]))
  {
    CollectTwo(PhaseReads, Exchange(c.updateBaudRate, event), Line(c.speed));
    EventsOne(event);
  }

  lemma DropTwo(a: seq<Item>, b: seq<Item>, c: seq<Item>, d: seq<Item>)
    ensures a + b + c + [] + [] + d == a + b + c + d
  {
  }

  lemma PatchReads(c: Config, m: seq<byte>, x: seq<byte>, ds: seq<seq<byte>>, rs: seq<seq<byte>>,
                   early: nat, e: seq<byte>, late: nat)
    requires |ds| == |rs|
    ensures Collect(PhaseReads, PatchPlan(c, m, x, ds, rs, early, e, late))
         == [Event(m)] + When(!c.no2bytes, [Two(x)]) + Events(rs) + [Event(e)]
  {
    hide Collect, Exchanges, Events;
    MaybeReads(true, Exchange(HCI_DOWNLOAD_MINIDRIVER, m));
    MaybeReads(!c.no2bytes, Gap(x));
    ExchangeReads(ds, rs);
    MaybeReads(true, Patched);
    MaybeReads(c.useBaudrate, Line(B115200));
    MaybeReads(true, Reset(early, e, late));
    var two := When(!c.no2bytes, [Two(x)]);
    SixAre(PhaseReads, [Exchange(HCI_DOWNLOAD_MINIDRIVER, m)], When(!c.no2bytes, [Gap(x)]), Exchanges(ds, rs),
           [Patched],
           When(c.useBaudrate, [Line(B115200)]), [Reset(early, e, late)],
           [Event(m)], two, Events(rs), [], [], [Event(e)]);
    DropTwo([Event(m)], two, Events(rs), [Event(e)]);
  }

  lemma LateEvents(c: Config, w: Answers)
    ensures Collect(PhaseReads, LatePlan(c, w.bdaddr, w.sleep, w.sco, w.pcm, w.i2s)) == Events(LateReads(c, w))
  {
    var a, b := When(c.bdaddrFlag, [w.bdaddr]), When(c.enableLpm, [w.sleep]);
    var x, y := When(c.scopcm, [w.sco, w.pcm]), When(c.i2s, [w.i2s]);
    MaybeReads(c.bdaddrFlag, Exchange(c.writeBdAddr, w.bdaddr));
    MaybeReads(c.enableLpm, Exchange(HCI_WRITE_SLEEP_MODE, w.sleep));
    CollectTwo(PhaseReads, Exchange(c.scoPcmInt, w.sco), Exchange(c.pcmDataFormat, w.pcm));
    MaybeReads(c.i2s, Exchange(c.i2sParam, w.i2s));
    EventsOne(w.bdaddr);
    EventsOne(w.sleep);
    EventsOne(w.i2s);
    assert Events([w.sco, w.pcm]) == [Event(w.sco)] + [Event(w.pcm)];
    FourAre(PhaseReads, When(c.bdaddrFlag, [Exchange(c.writeBdAddr, w.bdaddr)]),
            When(c.enableLpm, [Exchange(HCI_WRITE_SLEEP_MODE, w.sleep)]),
            When(c.scopcm, [Exchange(c.scoPcmInt, w.sco), Exchange(c.pcmDataFormat, w.pcm)]),
            When(c.i2s, [Exchange(c.i2sParam, w.i2s)]),
            Events(a), Events(b), Events(x), Events(y));
    EventsJoin(a, b);
    EventsJoin(a + b, x);
    EventsJoin(a + b + x, y);
  }

  lemma PlanPieces(c: Config, w: Answers)
    requires |w.downloads| == |w.replies|
    ensures Collect(PhaseReads, Plan(c, w))
         == [Event(w.reset1)] + Events(When(c.useBaudrate && c.speed != B0, [w.baud1]))
            + When(c.hcdFd > 0,
                 [Event(w.minidriver)] + When(!c.no2bytes, [Two(w.extra)]) + Events(w.replies) + [Event(w.reset2)])
            + Events(When(c.speed != B0, [w.baud2])) + Events(LateReads(c, w))
  {
    hide Collect, Exchanges, Events, PatchPlan, LatePlan, BaudPlan, LateReads;
    var patch := PatchPlan(c, w.minidriver, w.extra, w.downloads, w.replies, w.early2, w.reset2, w.late2);
    var middle := [Event(w.minidriver)] + When(!c.no2bytes, [Two(w.extra)]) + Events(w.replies) + [Event(w.reset2)];
    CollectTwo(PhaseReads, Line(B115200), Reset(w.early1, w.reset1, w.late1));
    assert [] + [Event(w.reset1)] == [Event(w.reset1)];
    BaudReads(c.useBaudrate && c.speed != B0, c, w.baud1);
    PatchReads(c, w.minidriver, w.extra, w.downloads, w.replies, w.early2, w.reset2, w.late2);
    assert Collect(PhaseReads, When(c.hcdFd > 0, patch)) == When(c.hcdFd > 0, middle) by {
      NothingCollected();
    }
    BaudReads(c.speed != B0, c, w.baud2);
    LateEvents(c, w);
    FiveAre(PhaseReads, [Line(B115200), Reset(w.early1, w.reset1, w.late1)],
            When(c.useBaudrate && c.speed != B0, BaudPlan(c, w.baud1)),
            When(c.hcdFd > 0, patch),
            When(c.speed != B0, BaudPlan(c, w.baud2)),
            LatePlan(c, w.bdaddr, w.sleep, w.sco, w.pcm, w.i2s),
            [Event(w.reset1)], Events(When(c.useBaudrate && c.speed != B0, [w.baud1])), When(c.hcdFd > 0, middle),
            Events(When(c.speed != B0, [w.baud2])), Events(LateReads(c, w)));
  }

  lemma NothingCollected()
    ensures Collect(PhaseReads, []) == []
  {
  }

  lemma SplitReads(c: Config, w: Answers)
    ensures HostReads(c, w)
         == [Event(w.reset1)] + Events(When(c.useBaudrate && c.speed != B0, [w.baud1]))
            + When(c.hcdFd > 0,
                 [Event(w.minidriver)] + When(!c.no2bytes, [Two(w.extra)]) + Events(w.replies) + [Event(w.reset2)])
            + Events(When(c.speed != B0, [w.baud2])) + Events(LateReads(c, w))
  {
    hide LateReads, Events;
    var b, x := When(c.useBaudrate && c.speed != B0, [w.baud1]), When(c.speed != B0, [w.baud2]);
    EventsOne(w.reset1);
    EventsJoin([w.reset1], b);
    EventsJoin([w.reset1] + b, When(c.hcdFd > 0, [w.minidriver]));
    EventsOne(w.minidriver);
    EventsJoin(w.replies, [w.reset2]);
    EventsOne(w.reset2);
    EventsJoin(When(c.hcdFd > 0, w.replies + [w.reset2]), x);
    EventsJoin(When(c.hcdFd > 0, w.replies + [w.reset2]) + x, LateReads(c, w));
    Regroup([Event(w.reset1)], Events(b), [Event(w.minidriver)], [Two(w.extra)], Events(w.replies), [Event(w.reset2)],
            Events(x), Events(LateReads(c, w)));
    assert Events([]) == [];
    if c.hcdFd <= 0 {
      assert HostReads(c, w) == [Event(w.reset1)] + Events(b) + Events(x) + Events(LateReads(c, w));
    }
  }

  lemma Regroup(a: seq<Item>, b: seq<Item>, m: seq<Item>, t: seq<Item>,
                r: seq<Item>, s: seq<Item>, x: seq<Item>, y: seq<Item>)
    ensures a + b + m + t + (r + s + x + y) == a + b + (m + t + r + s) + x + y
    ensures a + b + m + [] + (r + s + x + y) == a + b + (m + [] + r + s) + x + y
    ensures a + b + [] + [] + ([] + x + y) == a + b + [] + x + y
  {
  }

  lemma {:induction false} ReceivedErased(t: seq<Io>)
    ensures Received(t) == Received(Erase(t))
  {
    if t != [] {
      var n := |t| - 1;
      ReceivedErased(t[..n]);
      assert t == t[..n] + [t[n]];
      ReceivedAppend(t[..n], t[n]);
      EraseAppend(t[..n], t[n]);
      hide Received, Erase;
      if IsAlarm(t[n]) {
        ReceivedNothing(t[..n], t[n]);
      } else {
        ReceivedAppend(Erase(t[..n]), t[n]);
      }
    }
  }

  /** What a run reads, in order, wherever the alarm expires. */
  lemma {:induction false} RunReads(c: Config, w: Answers, t: seq<Io>)
    requires IsRun(t, c, w)
    ensures Received(t) == Flat(HostReads(c, w))
  {
    hide Collect, ExpandAll, HostReads, Plan, Flat, Received, Erase;
    ReceivedErased(t);
    ReceivedErased(ExpandAll(Plan(c, w)));
    ReceivedItems(Plan(c, w));
    PlanPieces(c, w);
    SplitReads(c, w);
  }

  predicate AllEvents(es: seq<seq<byte>>) {
    forall i | 0 <= i < |es| :: IsEvent(es[i])
  }

  lemma EventsRead(c: Config, w: Answers)
    requires Possible(c, w)
    ensures AllEvents(ReadsBefore(c, w)) && AllEvents(ReadsBehind(c, w))
  {
    assert AllEvents(LateReads(c, w));
    hide LateReads;
    RepliesRead(w);
    hide Feeds, IsEvent;
  }

  lemma RepliesRead(w: Answers)
    requires (forall e | e in w.replies :: IsEvent(e)) && IsEvent(w.reset2)
    ensures AllEvents(w.replies + [w.reset2])
  {
  }

  lemma OnlyEvents(es: seq<seq<byte>>)
    requires AllEvents(es)
    ensures AllRead(Events(es)) && FullReads(Events(es))
  {
  }

  lemma ReadJoin(a: seq<Item>, t: seq<Item>, b: seq<Item>)
    requires AllRead(a) && AllRead(t) && AllRead(b)
    ensures AllRead(a + t + b)
    ensures FullReads(a) && FullReads(t) && FullReads(b) ==> FullReads(a + t + b)
  {
  }

  lemma TwoFollowed(before: seq<Item>, two: seq<Item>, behind: seq<Item>)
    requires forall i | 0 <= i < |before| :: before[i].Event?
    requires forall i | 0 <= i < |behind| :: behind[i].Event?
    requires two == [] || (|two| == 1 && behind != [])
    ensures TwosFollowed(before + two + behind)
  {
    var all := before + two + behind;
    assert forall i | 0 <= i < |before| :: all[i] == before[i];
    assert forall i | |before + two| <= i < |all| :: all[i] == behind[i - |before + two|];
  }

  lemma FullAround(before: seq<Item>, two: seq<Item>, behind: seq<Item>)
    requires FullReads(before) && FullReads(behind)
    ensures FullReads(before + two + behind) <==> FullReads(two)
  {
    var all := before + two + behind;
    assert forall i | 0 <= i < |before| :: all[i] == before[i];
    assert forall i | 0 <= i < |two| :: all[|before| + i] == two[i];
    assert forall i | |before| <= i < |before + two| :: all[i] == two[i - |before|];
    assert forall i | |before + two| <= i < |all| :: all[i] == behind[i - |before + two|];
  }

  lemma AroundTwo(before: seq<seq<byte>>, two: seq<Item>, behind: seq<seq<byte>>)
    requires AllEvents(before) && AllEvents(behind) && AllRead(two)
    requires two == [] || (|two| == 1 && two[0].Two? && behind != [])
    ensures var hs := Events(before) + two + Events(behind);
            && AllRead(hs) && TwosFollowed(hs)
            && (FullReads(hs) <==> (two != [] ==> |two[0].bytes| == 2))
  {
    OnlyEvents(before);
    OnlyEvents(behind);
    ReadJoin(Events(before), two, Events(behind));
    TwoFollowed(Events(before), two, Events(behind));
    FullAround(Events(before), two, Events(behind));
  }

  /** What a run reads: events, and the two bytes with an event behind them. */
  lemma HostReadsShape(c: Config, w: Answers)
    requires Possible(c, w)
    ensures AllRead(HostReads(c, w)) && TwosFollowed(HostReads(c, w))
    ensures FullReads(HostReads(c, w)) <==> (SkipsTwo(c) ==> |w.extra| == 2)
  {
    EventsRead(c, w);
    assert 1 <= |w.extra| <= 2;
    hide Feeds, Events, ReadsBefore, LateReads, Possible, TwosFollowed;
    assert SkipsTwo(c) ==> ReadsBehind(c, w) != [];
    hide ReadsBehind;
    AroundTwo(ReadsBefore(c, w), When(SkipsTwo(c), [Two(w.extra)]), ReadsBehind(c, w));
  }

  /** Take any stream of events and pairs of bytes, with enough of them: every
      read_event of the run starts and ends on the boundaries of the stream exactly
      when events and pair are where the run reads them, and the two-byte read, if
      there is one, is full. */
  lemma {:induction false} Alignment(c: Config, w: Answers, sent: seq<Item>)
    requires Possible(c, w) && AllSent(sent)
    requires |HostReads(c, w)| <= |sent| && Flat(HostReads(c, w)) <= Flat(sent)
    ensures Aligned(HostReads(c, w), sent) <==>
            Kinds(HostReads(c, w)) <= Kinds(sent) && (SkipsTwo(c) ==> |w.extra| == 2)
  {
    hide Aligned, Flat, Kinds, HostReads, Possible;
    HostReadsShape(c, w);
    AlignedExactly(HostReads(c, w), sent);
  }

  // ---------- a controller that answers each command ----------

  /** The kinds of what a controller sends that answers each command with one
      event, and the minidriver command with two more bytes if two. */
  function AnswerKinds(commands: seq<seq<byte>>, two: bool): seq<bool> {
    if commands == [] then []
    else [true] + When(two && commands[0] == HCI_DOWNLOAD_MINIDRIVER, [false]) + AnswerKinds(commands[1..], two)
  }

  function Trues(n: nat): (ks: seq<bool>)
    ensures |ks| == n && forall i | 0 <= i < n :: ks[i]
  {
    if n == 0 then [] else [true] + Trues(n - 1)
  }

  lemma {:induction false} AnswerJoin(a: seq<seq<byte>>, b: seq<seq<byte>>, two: bool)
    ensures AnswerKinds(a + b, two) == AnswerKinds(a, two) + AnswerKinds(b, two)
  {
    if a == [] {
      assert a + b == b;
    } else {
      var first := [true] + When(two && a[0] == HCI_DOWNLOAD_MINIDRIVER, [false]);
      AnswerJoin(a[1..], b, two);
      assert (a + b)[1..] == a[1..] + b;
      Associative(first, AnswerKinds(a[1..], two), AnswerKinds(b, two));
    }
  }

  predicate NoMinidriver(commands: seq<seq<byte>>) {
    forall i | 0 <= i < |commands| :: commands[i] != HCI_DOWNLOAD_MINIDRIVER
  }

  lemma {:induction false} PlainAnswers(commands: seq<seq<byte>>, two: bool)
    requires !two || NoMinidriver(commands)
    ensures AnswerKinds(commands, two) == Trues(|commands|)
  {
    if commands != [] {
      PlainAnswers(commands[1..], two);
    }
  }

  /** The commands around the minidriver command. */
  function CommandsBefore(c: Config, resets1: nat): seq<seq<byte>> {
    Resets(resets1) + When(c.useBaudrate && c.speed != B0, [c.updateBaudRate])
  }

  function CommandsBehind(c: Config, ds: seq<seq<byte>>, resets2: nat): seq<seq<byte>> {
    ds + Resets(resets2) + When(c.speed != B0, [c.updateBaudRate]) + LateWord(c)
  }

  lemma WordAround(c: Config, ds: seq<seq<byte>>, n: nat, m: nat)
    ensures c.hcdFd > 0 ==>
              Word(c, ds, n, m) == CommandsBefore(c, n) + [HCI_DOWNLOAD_MINIDRIVER] + CommandsBehind(c, ds, m)
  {
    hide LateWord, Resets;
    var a, b, x, y := CommandsBefore(c, n), Resets(m), When(c.speed != B0, [c.updateBaudRate]), LateWord(c);
    var f := [HCI_DOWNLOAD_MINIDRIVER];
    assert a + (f + ds + b) + x + y == a + f + (ds + b + x + y);
  }

  lemma {:induction false} ResetsPlain(n: nat)
    ensures NoMinidriver(Resets(n))
  {
    if n > 0 {
      ResetsPlain(n - 1);
    }
  }

  /** The commands of a run but the minidriver command and those of the file. */
  lemma PlainAround(c: Config, n: nat, m: nat)
    requires WellFormed(c)
    ensures NoMinidriver(CommandsBefore(c, n)) && NoMinidriver(CommandsBehind(c, [], m))
  {
    ResetsPlain(n);
    ResetsPlain(m);
    hide Resets;
    PlainLate(c);
    hide LateWord;
    assert c.updateBaudRate[1] == 0x18 && HCI_DOWNLOAD_MINIDRIVER[1] == 0x2e;
  }

  lemma PlainLate(c: Config)
    requires WellFormed(c)
    ensures NoMinidriver(LateWord(c))
  {
    assert HCI_DOWNLOAD_MINIDRIVER[1] == 0x2e && HCI_WRITE_SLEEP_MODE[1] == 0x27;
  }

  lemma NoMinidriverJoin(a: seq<seq<byte>>, b: seq<seq<byte>>)
    ensures NoMinidriver(a + b) <==> NoMinidriver(a) && NoMinidriver(b)
  {
    assert forall i | 0 <= i < |a| :: (a + b)[i] == a[i];
    assert forall i | 0 <= i < |b| :: (a + b)[|a| + i] == b[i];
  }

  /** The first r answers are events exactly when no command but perhaps the last of
      as many is the minidriver command. */
  lemma {:induction false} EventsFirst(commands: seq<seq<byte>>, r: nat)
    requires 0 < r <= |commands|
    ensures Trues(r) <= AnswerKinds(commands, true) <==> NoMinidriver(commands[..r - 1])
  {
    var rest := commands[1..];
    if commands[0] == HCI_DOWNLOAD_MINIDRIVER {
      assert AnswerKinds(commands, true)[1] == false;
      assert r > 1 ==> commands[..r - 1][0] == HCI_DOWNLOAD_MINIDRIVER;
    } else {
      assert AnswerKinds(commands, true) == [true] + AnswerKinds(rest, true);
      if r > 1 {
        EventsFirst(rest, r - 1);
        NoMinidriverJoin([commands[0]], rest[..r - 2]);
        assert commands[..r - 1] == [commands[0]] + rest[..r - 2];
        PrefixTail(Trues(r), AnswerKinds(commands, true));
      }
    }
  }

  lemma PrefixTail(a: seq<bool>, b: seq<bool>)
    requires a != [] && b != [] && a[0] == b[0]
    ensures a <= b <==> a[1..] <= b[1..]
  {
    assert a == [a[0]] + a[1..] && b == [b[0]] + b[1..];
  }

  lemma AnswersToRun(c: Config, ds: seq<seq<byte>>, n: nat, m: nat)
    requires WellFormed(c) && SkipsTwo(c)
    ensures AnswerKinds(Word(c, ds, n, m), true)
         == Trues(|CommandsBefore(c, n)| + 1) + [false] + AnswerKinds(CommandsBehind(c, ds, m), true)
  {
    var a, b, f := CommandsBefore(c, n), CommandsBehind(c, ds, m), [HCI_DOWNLOAD_MINIDRIVER];
    hide Word, CommandsBefore, CommandsBehind;
    WordAround(c, ds, n, m);
    PlainAround(c, n, m);
    AnswerJoin(a + f, b, true);
    AnswerJoin(a, f, true);
    PlainAnswers(a, true);
    OneAnswer();
    assert Trues(|a|) + [true, false] == Trues(|a| + 1) + [false];
  }

  lemma OneAnswer()
    ensures AnswerKinds([HCI_DOWNLOAD_MINIDRIVER], true) == [true, false]
  {
    assert [HCI_DOWNLOAD_MINIDRIVER][1..] == [];
    assert [true] + [false] + [] == [true, false];
  }

  lemma KindsOfReads(c: Config, w: Answers)
    ensures Kinds(HostReads(c, w)) ==
            Trues(|ReadsBefore(c, w)|) + When(SkipsTwo(c), [false]) + Trues(|ReadsBehind(c, w)|)
  {
    hide ReadsBefore, ReadsBehind;
  }

  lemma KindsCompared(n: nat, k: nat, m: nat, more: seq<bool>)
    requires n > 0
    ensures Trues(n) + [false] + Trues(m) <= Trues(n + k) + [false] + more <==> k == 0 && Trues(m) <= more
  {
    var a, b := Trues(n) + [false] + Trues(m), Trues(n + k) + [false] + more;
    if k > 0 {
      assert a[n] == false && b[n] == true;
    } else {
      assert a[n + 1..] == Trues(m) && b[n + 1..] == more;
      assert a[..n + 1] == b[..n + 1];
      assert a == a[..n + 1] + Trues(m) && b == b[..n + 1] + more;
    }
  }

  lemma SameCounts(c: Config, w: Answers)
    requires |w.downloads| == |w.replies|
    ensures c.hcdFd > 0 ==> |ReadsBefore(c, w)| == |CommandsBefore(c, 1)| + 1
    ensures c.hcdFd > 0 ==> |ReadsBehind(c, w)| == |CommandsBehind(c, w.downloads, 1)|
    ensures |CommandsBehind(c, w.downloads, 1)| > |w.downloads|
    ensures forall n: nat :: |CommandsBefore(c, n)| == |CommandsBefore(c, 0)| + n
    ensures forall n: nat :: |CommandsBehind(c, w.downloads, n)| == |CommandsBehind(c, w.downloads, 0)| + n
  {
    assert |LateReads(c, w)| == |LateWord(c)|;
    hide LateReads, LateWord, Resets;
  }

  lemma BehindParts(c: Config, ds: seq<seq<byte>>, m: nat)
    ensures CommandsBehind(c, ds, m) == ds + CommandsBehind(c, [], m)
  {
    hide LateWord, Resets;
    var x, y, z := Resets(m), When(c.speed != B0, [c.updateBaudRate]), LateWord(c);
    assert ds + x + y + z == ds + ([] + x + y + z);
  }

  lemma FrontWithout(ds: seq<seq<byte>>, rest: seq<seq<byte>>, k: nat)
    requires |ds| <= k <= |ds + rest| && NoMinidriver(rest)
    ensures NoMinidriver((ds + rest)[..k]) <==> NoMinidriver(ds)
  {
    hide NoMinidriver;
    var n := k - |ds|;
    assert (ds + rest)[..k] == ds + rest[..n];
    NoMinidriverJoin(ds, rest[..n]);
    NoMinidriverJoin(rest[..n], rest[n..]);
    assert rest == rest[..n] + rest[n..];
  }

  lemma BehindWithout(c: Config, ds: seq<seq<byte>>, m: nat, r: nat)
    requires WellFormed(c) && |ds| < r <= |CommandsBehind(c, ds, m)|
    ensures NoMinidriver(CommandsBehind(c, ds, m)[..r - 1]) <==> NoMinidriver(ds)
  {
    hide CommandsBehind, CommandsBefore, NoMinidriver;
    BehindParts(c, ds, m);
    PlainAround(c, 0, m);
    FrontWithout(ds, CommandsBehind(c, [], m), r - 1);
  }

  /** What such a controller sends has the two bytes where the run reads them, and
      nowhere else, exactly when no alarm expired before the minidriver command and
      the file does not repeat that command; later expiries only leave events
      unread. */
  lemma AnswersInPlace(c: Config, w: Answers)
    requires WellFormed(c) && |w.downloads| == |w.replies| && SkipsTwo(c)
    ensures Kinds(HostReads(c, w)) <= AnswerKinds(Commands(ExpandAll(Plan(c, w))), true)
            <==> w.early1 + w.late1 == 0 && NoMinidriver(w.downloads)
  {
    hide ExpandAll, Plan, Commands, HostReads, AnswerKinds, Kinds, NoMinidriver;
    hide CommandsBefore, CommandsBehind, ReadsBefore, ReadsBehind, Word;
    var n, m := 1 + w.early1 + w.late1, 1 + w.early2 + w.late2;
    var behind, r := CommandsBehind(c, w.downloads, m), |ReadsBehind(c, w)|;
    Grammar(c, w);
    AnswersToRun(c, w.downloads, n, m);
    KindsOfReads(c, w);
    SameCounts(c, w);
    KindsCompared(|ReadsBefore(c, w)|, w.early1 + w.late1, r, AnswerKinds(behind, true));
    EventsFirst(behind, r);
    BehindWithout(c, w.downloads, m, r);
  }

  // ---------- runs with such a controller ----------

  lemma {:induction false} AnswerCount(commands: seq<seq<byte>>, two: bool)
    ensures |AnswerKinds(commands, two)| >= |commands|
  {
    if commands != [] {
      AnswerCount(commands[1..], two);
    }
  }

  /** The run reads no more than such a controller sends. */
  lemma EnoughSent(c: Config, w: Answers, two: bool)
    requires WellFormed(c) && |w.downloads| == |w.replies| && (SkipsTwo(c) ==> two)
    ensures |HostReads(c, w)| <= |AnswerKinds(Commands(ExpandAll(Plan(c, w))), two)|
  {
    hide ExpandAll, Plan, Commands, AnswerKinds, Kinds, NoMinidriver;
    var n, m := 1 + w.early1 + w.late1, 1 + w.early2 + w.late2;
    Grammar(c, w);
    CountReads(c, w, n, m);
    hide HostReads, Word;
    AnswerCount(Word(c, w.downloads, n, m), two);
    if SkipsTwo(c) {
      AnswersToRun(c, w.downloads, n, m);
      AnswerCount(CommandsBehind(c, w.downloads, m), true);
      WordAround(c, w.downloads, n, m);
    }
  }

  lemma CountReads(c: Config, w: Answers, n: nat, m: nat)
    requires |w.downloads| == |w.replies| && n > 0 && m > 0
    ensures |HostReads(c, w)| <= |Word(c, w.downloads, n, m)| + if SkipsTwo(c) then 1 else 0
  {
    assert |LateReads(c, w)| == |LateWord(c)|;
    hide LateReads, LateWord, Resets;
  }

  /** When no two bytes are read, and none are sent but behind a minidriver
      command. */
  lemma AllEventsInPlace(c: Config, w: Answers)
    requires WellFormed(c) && |w.downloads| == |w.replies| && !SkipsTwo(c)
    ensures Kinds(HostReads(c, w)) <= AnswerKinds(Commands(ExpandAll(Plan(c, w))), !c.no2bytes)
  {
    hide ExpandAll, Plan, Commands, AnswerKinds, HostReads, Kinds, ReadsBefore, ReadsBehind;
    var n, m := 1 + w.early1 + w.late1, 1 + w.early2 + w.late2;
    var word := Word(c, w.downloads, n, m);
    Grammar(c, w);
    KindsOfReads(c, w);
    EnoughSent(c, w, !c.no2bytes);
    if !c.no2bytes {
      NoFilePlain(c, w.downloads, n, m);
    }
    PlainAnswers(word, !c.no2bytes);
    assert Kinds(HostReads(c, w)) == Trues(|HostReads(c, w)|);
  }

  lemma NoFilePlain(c: Config, ds: seq<seq<byte>>, n: nat, m: nat)
    requires WellFormed(c) && c.hcdFd <= 0
    ensures NoMinidriver(Word(c, ds, n, m))
  {
    hide Resets, LateWord, NoMinidriver;
    var x, y := When(c.speed != B0, [c.updateBaudRate]), LateWord(c);
    PlainAround(c, n, 0);
    PlainLate(c);
    PlainBaud(c);
    NoMinidriverJoin(CommandsBefore(c, n), []);
    NoMinidriverJoin(CommandsBefore(c, n) + [], x);
    NoMinidriverJoin(CommandsBefore(c, n) + [] + x, y);
  }

  lemma PlainBaud(c: Config)
    requires WellFormed(c)
    ensures NoMinidriver(When(c.speed != B0, [c.updateBaudRate])) && NoMinidriver([])
  {
    assert c.updateBaudRate[1] == 0x18 && HCI_DOWNLOAD_MINIDRIVER[1] == 0x2e;
  }

  /** A whole run against a controller that answers each command with an event, and
      the minidriver command with two more bytes unless it is of the kind for which
      no2bytes is given: every read_event starts and ends on an event boundary
      exactly when, if two bytes are read, that read is full, no alarm expired
      before, and the file does not repeat the minidriver command. */
  lemma {:induction false} RunAlignment(c: Config, w: Answers, sent: seq<Item>)
    requires WellFormed(c) && Possible(c, w) && AllSent(sent)
    requires Kinds(sent) == AnswerKinds(Commands(ExpandAll(Plan(c, w))), !c.no2bytes)
    requires Flat(HostReads(c, w)) <= Flat(sent)
    ensures Aligned(HostReads(c, w), sent) <==>
            (SkipsTwo(c) ==> |w.extra| == 2 && w.early1 + w.late1 == 0 && NoMinidriver(w.downloads))
  {
    assert |w.downloads| == |w.replies|;
    hide ExpandAll, Plan, Commands, HostReads, AnswerKinds, Kinds, NoMinidriver, Aligned, Flat, Possible;
    EnoughSent(c, w, !c.no2bytes);
    assert |Kinds(sent)| == |sent|;
    Alignment(c, w, sent);
    if SkipsTwo(c) {
      AnswersInPlace(c, w);
    } else {
      AllEventsInPlace(c, w);
    }
  }

  /** A run in which the two-byte read takes one byte, and the event behind it is
      not read from where it starts. */
  lemma AlignmentLost()
    ensures exists c: Config, w: Answers, sent: seq<Item> ::
      && WellFormed(c) && Possible(c, w) && AllSent(sent) && w.early1 + w.late1 == 0
      && Kinds(sent) == AnswerKinds(Commands(ExpandAll(Plan(c, w))), !c.no2bytes)
      && Flat(HostReads(c, w)) <= Flat(sent)
      && !Aligned(HostReads(c, w), sent)
  {
    hide HostReads, Kinds, Flat, Aligned, Possible, WellFormed, AllSent, ExpandAll, Plan, Commands, AnswerKinds;
    var c, w, sent := EmptyPatch(), BlankAnswers(0, [0]), FourSent();
    EmptyPatchRun(c, w);
    BlankReads(c, w);
    BlankAnswered(c, w);
    ShortOfSent();
    RunAlignment(c, w, sent);
  }

  lemma BlankAnswered(c: Config, w: Answers)
    requires c == EmptyPatch() && w == BlankAnswers(0, [0])
    ensures AnswerKinds(Commands(ExpandAll(Plan(c, w))), !c.no2bytes) == [true, true, false, true]
  {
    hide ExpandAll, Plan, Commands, Word;
    Grammar(c, w);
    EmptyPatchRun(c, w);
    AnswersToRun(c, [], 1, 1);
    assert CommandsBefore(c, 1) == [HCI_RESET] && CommandsBehind(c, [], 1) == [HCI_RESET];
    PlainAnswers([HCI_RESET], true);
    assert Trues(2) == [true, true] && Trues(1) == [true];
  }

  /** A file without records. */
  function EmptyPatch(): Config {
    INITIAL.(hcdFd := 3)
  }

  function FourSent(): seq<Item> {
    [Event(NO_EVENT), Event(NO_EVENT), Two([0, 0]), Event(NO_EVENT)]
  }

  function FourRead(): seq<Item> {
    [Event(NO_EVENT), Event(NO_EVENT), Two([0]), Event(NO_EVENT)]
  }

  lemma EmptyPatchRun(c: Config, w: Answers)
    requires c == EmptyPatch() && w == BlankAnswers(0, [0])
    ensures WellFormed(c) && Possible(c, w) && SkipsTwo(c)
  {
  }

  lemma ShortOfSent()
    ensures AllSent(FourSent()) && |FourRead()| == |FourSent()|
    ensures Flat(FourRead()) <= Flat(FourSent()) && Kinds(FourSent()) == [true, true, false, true]
  {
    var e := Event(NO_EVENT);
    FlatFour(e, e, Two([0]), e);
    FlatFour(e, e, Two([0, 0]), e);
    hide Kinds, Flat;
    assert Kinds(FourSent()) == [true, true, false, true];
  }

  lemma BlankReads(c: Config, w: Answers)
    requires c == EmptyPatch() && w == BlankAnswers(0, [0])
    ensures HostReads(c, w) == FourRead()
  {
    hide ReadsBefore, ReadsBehind, Events, EmptyPatch, BlankAnswers;
    BlankParts(c, w);
    AroundOneByte(NO_EVENT);
  }

  lemma AroundOneByte(e: seq<byte>)
    ensures Events([e] + [e]) + [Two([0])] + Events([e]) == [Event(e), Event(e), Two([0]), Event(e)]
  {
    hide Events;
    EventsOne(e);
    EventsJoin([e], [e]);
  }

  lemma BlankParts(c: Config, w: Answers)
    requires c == EmptyPatch() && w == BlankAnswers(0, [0])
    ensures ReadsBefore(c, w) == [NO_EVENT] + [NO_EVENT] && ReadsBehind(c, w) == [NO_EVENT]
    ensures SkipsTwo(c) && w.extra == [0]
  {
    assert LateReads(c, w) == [];
    assert ReadsBehind(c, w) == ([] + [NO_EVENT]) + [] + [];
  }

  lemma FlatFour(a: Item, b: Item, x: Item, y: Item)
    ensures Flat([a, b, x, y]) == a.bytes + b.bytes + x.bytes + y.bytes
  {
    FlatOne(a);
    FlatOne(b);
    FlatOne(x);
    FlatOne(y);
    FlatJoin([a], [b]);
    FlatJoin([a] + [b], [x]);
    FlatJoin([a] + [b] + [x], [y]);
    assert [a] + [b] + [x] + [y] == [a, b, x, y];
  }
}
