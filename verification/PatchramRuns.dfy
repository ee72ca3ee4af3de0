/** What every run of brcm_patchram_plus keeps: commands against events, the
    order of the commands, and how their bytes parse. */
module PatchramRuns {
  import opened Bytes
  import opened PatchramConfig
  import opened PatchramTrace

  // ---------- commands against events ----------

  /** A program command is written whose event has not been read completely. */
  predicate Waiting(t: seq<Io>) {
    if t == [] then false
    else match t[|t| - 1]
      case Send(_, byTimer) => if byTimer then Waiting(t[..|t| - 1]) else true
      case Recv(_) => false
      case _ => Waiting(t[..|t| - 1])
  }

  function Writes(t: seq<Io>): nat {
    if t == [] then 0 else Writes(t[..|t| - 1]) + if t[|t| - 1].Send? then 1 else 0
  }

  function Reads(t: seq<Io>): nat {
    if t == [] then 0 else Reads(t[..|t| - 1]) + if t[|t| - 1].Recv? then 1 else 0
  }

  function Expiries(t: seq<Io>): nat {
    if t == [] then 0 else Expiries(t[..|t| - 1]) + if IsAlarm(t[|t| - 1]) then 1 else 0
  }

  /** The program writes only when it is not waiting, and reads only when it
      is. */
  predicate Alternates(t: seq<Io>) {
    t == [] ||
    (var init := t[..|t| - 1];
     Alternates(init) &&
     match t[|t| - 1]
     case Send(_, byTimer) => byTimer || !Waiting(init)
     case Recv(_) => Waiting(init)
     case _ => true)
  }

  lemma AlternatesAppend(t: seq<Io>, io: Io)
    ensures Alternates(t + [io]) ==
            (Alternates(t) && (io.Send? && !io.byTimer ==> !Waiting(t)) && (io.Recv? ==> Waiting(t)))
    ensures Waiting(t + [io]) ==
            if io.Send? && !io.byTimer then true else if io.Recv? then false else Waiting(t)
  {
    assert (t + [io])[..|t|] == t;
  }

  lemma {:induction false} AlternatesAlarms(t: seq<Io>, n: nat)
    ensures Alternates(t + Alarms(n)) == Alternates(t) && Waiting(t + Alarms(n)) == Waiting(t)
  {
    hide Alarms;
    AlarmsLast(t, n);
    if n > 0 {
      AlternatesAlarms(t, n - 1);
      AlternatesAppend(t + Alarms(n - 1), Send(HCI_RESET, true));
    }
  }

  lemma AlternatesPhase(t: seq<Io>, p: Phase)
    requires Alternates(t) && !Waiting(t)
    ensures Alternates(t + Expand(p)) && !Waiting(t + Expand(p))
  {
    match p {
      case Reset(early, event, late) =>
        var a := t + [Send(HCI_RESET, false)];
        AlternatesAppend(t, Send(HCI_RESET, false));
        AlternatesAlarms(a, early);
        AlternatesAppend(a + Alarms(early), Recv(event));
        AlternatesAlarms(a + Alarms(early) + [Recv(event)], late);
        ResetSteps(t, early, event, late);
      case Exchange(frame, event) =>
        var a := t + [Send(frame, false)];
        AlternatesAppend(t, Send(frame, false));
        AlternatesAppend(a, Recv(event));
        assert t + Expand(p) == a + [Recv(event)];
      case Gap(bytes) => AlternatesAppend(t, Skip(bytes));
      case Line(speed) => AlternatesAppend(t, SetSpeed(speed));
      case Patched => AlternatesAppend(t, EndOfFile);
    }
  }

  lemma {:induction false} PhasesAlternate(ps: seq<Phase>)
    ensures Alternates(ExpandAll(ps)) && !Waiting(ExpandAll(ps))
  {
    if ps != [] {
      PhasesAlternate(ps[..|ps| - 1]);
      AlternatesPhase(ExpandAll(ps[..|ps| - 1]), ps[|ps| - 1]);
    }
  }

  lemma {:induction false} PrefixAlternates(t: seq<Io>, n: nat)
    requires n <= |t| && Alternates(t)
    ensures Alternates(t[..n])
    decreases |t|
  {
    if n == |t| {
      assert t[..n] == t;
    } else {
      PrefixAlternates(t[..|t| - 1], n);
      assert t[..|t| - 1][..n] == t[..n];
    }
  }

  lemma {:induction false} Balance(t: seq<Io>)
    requires Alternates(t)
    ensures Writes(t) == Reads(t) + Expiries(t) + if Waiting(t) then 1 else 0
  {
    if t != [] {
      Balance(t[..|t| - 1]);
    }
  }

  lemma {:induction false} AlternatesErased(t: seq<Io>)
    ensures Alternates(t) == Alternates(Erase(t)) && Waiting(t) == Waiting(Erase(t))
  {
    if t != [] {
      var n := |t| - 1;
      AlternatesErased(t[..n]);
      AlternatesAppend(t[..n], t[n]);
      AlternatesAppend(Erase(t[..n]), t[n]);
      assert t == t[..n] + [t[n]];
    }
  }

  /** At every step of every run, wherever the alarm expires: the commands written
      and not answered by an event that has been read are the expiries of the alarm
      so far, and the one the program is waiting for, if it is. */
  lemma Conservation(c: Config, w: Answers, t: seq<Io>, n: nat)
    requires IsRun(t, c, w) && n <= |t|
    ensures Writes(t[..n]) == Reads(t[..n]) + Expiries(t[..n]) + if Waiting(t[..n]) then 1 else 0
  {
    hide Alternates, Plan, ExpandAll;
    PhasesAlternate(Plan(c, w));
    AlternatesErased(ExpandAll(Plan(c, w)));
    AlternatesErased(t);
    PrefixAlternates(t, n);
    Balance(t[..n]);
  }

  // ---------- alarms ----------

  /** The last command the program itself has written. */
  function LastCommand(t: seq<Io>): Option<seq<byte>> {
    if t == [] then None
    else if t[|t| - 1].Send? && !t[|t| - 1].byTimer then Some(t[|t| - 1].frame)
    else LastCommand(t[..|t| - 1])
  }

  /** Every alarm so far wrote a reset while the program's last command was a
      reset. */
  predicate AlarmsInReset(t: seq<Io>) {
    t == [] ||
    (&& AlarmsInReset(t[..|t| - 1])
     && (IsAlarm(t[|t| - 1]) ==>
           t[|t| - 1].frame == HCI_RESET && LastCommand(t[..|t| - 1]) == Some(HCI_RESET)))
  }

  lemma CommandAppend(t: seq<Io>, io: Io)
    ensures LastCommand(t + [io]) == if io.Send? && !io.byTimer then Some(io.frame) else LastCommand(t)
    ensures AlarmsInReset(t + [io]) ==
            (AlarmsInReset(t) && (IsAlarm(io) ==> io.frame == HCI_RESET && LastCommand(t) == Some(HCI_RESET)))
  {
    assert (t + [io])[..|t|] == t;
  }

  lemma {:induction false} AlarmsStay(t: seq<Io>, n: nat)
    requires AlarmsInReset(t) && LastCommand(t) == Some(HCI_RESET)
    ensures AlarmsInReset(t + Alarms(n)) && LastCommand(t + Alarms(n)) == Some(HCI_RESET)
  {
    hide Alarms;
    AlarmsLast(t, n);
    if n > 0 {
      AlarmsStay(t, n - 1);
      CommandAppend(t + Alarms(n - 1), Send(HCI_RESET, true));
    }
  }

  lemma AlarmsPhase(t: seq<Io>, p: Phase)
    requires AlarmsInReset(t)
    ensures AlarmsInReset(t + Expand(p))
  {
    match p {
      case Reset(early, event, late) =>
        var a := t + [Send(HCI_RESET, false)];
        CommandAppend(t, Send(HCI_RESET, false));
        AlarmsStay(a, early);
        CommandAppend(a + Alarms(early), Recv(event));
        AlarmsStay(a + Alarms(early) + [Recv(event)], late);
        ResetSteps(t, early, event, late);
      case Exchange(frame, event) =>
        var a := t + [Send(frame, false)];
        CommandAppend(t, Send(frame, false));
        CommandAppend(a, Recv(event));
        assert t + Expand(p) == a + [Recv(event)];
      case Gap(bytes) => CommandAppend(t, Skip(bytes));
      case Line(speed) => CommandAppend(t, SetSpeed(speed));
      case Patched => CommandAppend(t, EndOfFile);
    }
  }

  lemma {:induction false} PhasesAlarms(ps: seq<Phase>)
    ensures AlarmsInReset(ExpandAll(ps))
  {
    if ps != [] {
      PhasesAlarms(ps[..|ps| - 1]);
      AlarmsPhase(ExpandAll(ps[..|ps| - 1]), ps[|ps| - 1]);
    }
  }

  lemma {:induction false} AlarmAt(t: seq<Io>, i: nat)
    requires AlarmsInReset(t) && i < |t| && IsAlarm(t[i])
    ensures t[i].frame == HCI_RESET && LastCommand(t[..i]) == Some(HCI_RESET)
    decreases |t|
  {
    if i < |t| - 1 {
      AlarmAt(t[..|t| - 1], i);
      assert t[..|t| - 1][..i] == t[..i];
    }
  }

  /** In every run in which no handler runs behind an alarm(0), what it writes is a
      reset, and it does so only between a reset of the program and the program's
      next command. */
  lemma AlarmsOnlyInReset(c: Config, w: Answers, i: nat)
    requires |w.downloads| == |w.replies|
    requires var t := ExpandAll(Plan(c, w)); i < |t| && IsAlarm(t[i])
    ensures var t := ExpandAll(Plan(c, w));
            t[i].frame == HCI_RESET && LastCommand(t[..i]) == Some(HCI_RESET)
  {
    PhasesAlarms(Plan(c, w));
    AlarmAt(ExpandAll(Plan(c, w)), i);
  }

  /** An address to be written, and nothing else. */
  function AddressOnly(): Config {
    INITIAL.(bdaddrFlag := true)
  }

  lemma AddressOnlyPlan(w: Answers)
    requires w == BlankAnswers(0, [0, 0])
    ensures Possible(AddressOnly(), w)
    ensures var reset := [Line(B115200), Reset(0, NO_EVENT, 0)];
            Plan(AddressOnly(), w) == reset + [Exchange(INITIAL.writeBdAddr, NO_EVENT)]
  {
    var c := AddressOnly();
    assert LatePlan(c, w.bdaddr, w.sleep, w.sco, w.pcm, w.i2s) == [Exchange(INITIAL.writeBdAddr, NO_EVENT)];
  }

  /** A run in which the handler has run behind the alarm(0) of the reset, and so the
      alarm expires behind the program's next command. */
  lemma AlarmOutsideReset()
    ensures exists c: Config, w: Answers, t: seq<Io> :: Possible(c, w) && IsRun(t, c, w) && !AlarmsInReset(t)
  {
    var c, w := AddressOnly(), BlankAnswers(0, [0, 0]);
    var u, reset := ExpandAll(Plan(c, w)), ExpandAll([Line(B115200), Reset(0, NO_EVENT, 0)]);
    var send, alarm := Send(INITIAL.writeBdAddr, false), Send(HCI_RESET, true);
    hide ExpandAll, Erase, Plan, AddressOnly, AlarmsInReset, LastCommand, Possible, AlarmsAreResets;
    AddressOnlyPlan(w);
    ExpandAppend([Line(B115200), Reset(0, NO_EVENT, 0)], Exchange(INITIAL.writeBdAddr, NO_EVENT));
    assert u == reset + [send] + [Recv(NO_EVENT)];
    CommandAppend(reset, send);
    CommandAppend(reset + [send], Recv(NO_EVENT));
    CommandAppend(u, alarm);
    EraseAppend(u, alarm);
    NoAlarms(w);
    assert INITIAL.writeBdAddr != HCI_RESET;
    assert IsRun(u + [alarm], c, w) && !AlarmsInReset(u + [alarm]);
  }

  lemma NoAlarms(w: Answers)
    requires w == BlankAnswers(0, [0, 0])
    ensures AlarmsAreResets(ExpandAll(Plan(AddressOnly(), w)))
  {
    forall i | 0 <= i < |ExpandAll(Plan(AddressOnly(), w))| && IsAlarm(ExpandAll(Plan(AddressOnly(), w))[i])
      ensures ExpandAll(Plan(AddressOnly(), w))[i].frame == HCI_RESET
    {
      AlarmsOnlyInReset(AddressOnly(), w, i);
    }
  }

  // ---------- the order of the commands ----------

  /** Everything written to the UART, in order. */
  function Commands(t: seq<Io>): seq<seq<byte>> {
    if t == [] then []
    else if t[|t| - 1].Send? then Commands(t[..|t| - 1]) + [t[|t| - 1].frame]
    else Commands(t[..|t| - 1])
  }

  function Resets(n: nat): (r: seq<seq<byte>>)
    ensures |r| == n
  {
    if n == 0 then [] else Resets(n - 1) + [HCI_RESET]
  }

  /** The commands behind the last change of line speed. */
  function LateWord(c: Config): seq<seq<byte>> {
    When(c.bdaddrFlag, [c.writeBdAddr])
    + When(c.enableLpm, [HCI_WRITE_SLEEP_MODE])
    + When(c.scopcm, [c.scoPcmInt, c.pcmDataFormat])
    + When(c.i2s, [c.i2sParam])
  }

  /** The events read behind it. */
  function LateReads(c: Config, w: Answers): seq<seq<byte>> {
    When(c.bdaddrFlag, [w.bdaddr]) + When(c.enableLpm, [w.sleep])
    + When(c.scopcm, [w.sco, w.pcm]) + When(c.i2s, [w.i2s])
  }

  /** The commands of a run: the options say which parts are there, the file
      gives the downloads, and resets are repeated by the alarm. */
  function Word(c: Config, downloads: seq<seq<byte>>, resets1: nat, resets2: nat): seq<seq<byte>> {
    Resets(resets1)
    + When(c.useBaudrate && c.speed != B0, [c.updateBaudRate])
    + When(c.hcdFd > 0, [HCI_DOWNLOAD_MINIDRIVER] + downloads + Resets(resets2))
    + When(c.speed != B0, [c.updateBaudRate])
    + LateWord(c)
  }

  function PhaseCommands(p: Phase): seq<seq<byte>> {
    match p
    case Reset(early, _, late) => Resets(1 + early + late)
    case Exchange(frame, _) => [frame]
    case _ => []
  }

  lemma CommandsAppend(t: seq<Io>, io: Io)
    ensures Commands(t + [io]) == if io.Send? then Commands(t) + [io.frame] else Commands(t)
  {
    assert (t + [io])[..|t|] == t;
  }

  lemma {:induction false} ResetsAdd(n: nat, m: nat)
    ensures Resets(n) + Resets(m) == Resets(n + m)
  {
    if m == 0 {
      assert Resets(n) + [] == Resets(n);
    } else {
      ResetsAdd(n, m - 1);
      assert Resets(n) + Resets(m) == Resets(n) + Resets(m - 1) + [HCI_RESET];
    }
  }

  lemma ResetsLast(s: seq<seq<byte>>, n: nat)
    ensures n == 0 ==> s + Resets(n) == s
    ensures n > 0 ==> s + Resets(n) == s + Resets(n - 1) + [HCI_RESET]
  {
  }

  lemma {:induction false} CommandsAlarms(t: seq<Io>, n: nat)
    ensures Commands(t + Alarms(n)) == Commands(t) + Resets(n)
  {
    hide Alarms, Resets;
    AlarmsLast(t, n);
    ResetsLast(Commands(t), n);
    if n > 0 {
      var u := t + Alarms(n - 1);
      CommandsAlarms(t, n - 1);
      CommandsAppend(u, Send(HCI_RESET, true));
      assert Commands(u + [Send(HCI_RESET, true)]) == Commands(t) + Resets(n);
    }
  }

  lemma ResetCommands(s: seq<seq<byte>>, early: nat, late: nat)
    ensures s + [HCI_RESET] + Resets(early) + Resets(late) == s + Resets(1 + early + late)
  {
    ResetsAdd(1, early);
    ResetsAdd(1 + early, late);
    assert Resets(1) == [HCI_RESET];
    assert s + [HCI_RESET] + Resets(early) + Resets(late) == s + ([HCI_RESET] + Resets(early) + Resets(late));
  }

  lemma CommandsReset(t: seq<Io>, early: nat, event: seq<byte>, late: nat)
    ensures Commands(t + Expand(Reset(early, event, late))) == Commands(t) + Resets(1 + early + late)
  {
    var a := t + [Send(HCI_RESET, false)];
    var b := a + Alarms(early);
    CommandsAppend(t, Send(HCI_RESET, false));
    CommandsAlarms(a, early);
    CommandsAppend(b, Recv(event));
    CommandsAlarms(b + [Recv(event)], late);
    ResetSteps(t, early, event, late);
    ResetCommands(Commands(t), early, late);
  }

  lemma CommandsExchange(t: seq<Io>, frame: seq<byte>, event: seq<byte>)
    ensures Commands(t + Expand(Exchange(frame, event))) == Commands(t) + [frame]
  {
    var a := t + [Send(frame, false)];
    CommandsAppend(t, Send(frame, false));
    CommandsAppend(a, Recv(event));
    assert t + Expand(Exchange(frame, event)) == a + [Recv(event)];
  }

  lemma CommandsPhase(t: seq<Io>, p: Phase)
    ensures Commands(t + Expand(p)) == Commands(t) + PhaseCommands(p)
  {
    match p {
      case Reset(early, event, late) => CommandsReset(t, early, event, late);
      case Exchange(frame, event) => CommandsExchange(t, frame, event);
      case Gap(bytes) => CommandsAppend(t, Skip(bytes));
      case Line(speed) => CommandsAppend(t, SetSpeed(speed));
      case Patched => CommandsAppend(t, EndOfFile);
    }
  }

  lemma {:induction false} CommandsOfPlan(ps: seq<Phase>)
    ensures Commands(ExpandAll(ps)) == Collect(PhaseCommands, ps)
  {
    if ps != [] {
      CommandsOfPlan(ps[..|ps| - 1]);
      CommandsPhase(ExpandAll(ps[..|ps| - 1]), ps[|ps| - 1]);
    }
  }

  lemma {:induction false} ExchangeCommands(fs: seq<seq<byte>>, es: seq<seq<byte>>)
    requires |fs| == |es|
    ensures Collect(PhaseCommands, Exchanges(fs, es)) == fs
    decreases |fs|
  {
    if fs != [] {
      var n := |fs| - 1;
      ExchangeCommands(fs[..n], es[..n]);
      CollectOne(PhaseCommands, Exchange(fs[n], es[n]));
      CollectJoin(PhaseCommands, Exchanges(fs[..n], es[..n]), [Exchange(fs[n], es[n])]);
    }
  }

  lemma BaudCommands(b: bool, c: Config, event: seq<byte>)
    ensures Collect(PhaseCommands, When(b, BaudPlan(c, event))) == When(b, [c.updateBaudRate])
  {
    CollectTwo(PhaseCommands, Exchange(c.updateBaudRate, event), Line(c.speed));
  }

  lemma OnlyCommand(b: bool, frame: seq<byte>, event: seq<byte>)
    ensures Collect(PhaseCommands, When(b, [Exchange(frame, event)])) == When(b, [frame])
  {
    CollectOne(PhaseCommands, Exchange(frame, event));
  }

  lemma NoCommands(b: bool, p: Phase)
    requires p.Gap? || p.Line? || p.Patched?
    ensures Collect(PhaseCommands, When(b, [p])) == []
  {
    CollectOne(PhaseCommands, p);
  }

  lemma PatchCommands(c: Config, m: seq<byte>, x: seq<byte>, ds: seq<seq<byte>>, rs: seq<seq<byte>>,
                      early: nat, e: seq<byte>, late: nat)
    requires |ds| == |rs|
    ensures Collect(PhaseCommands, PatchPlan(c, m, x, ds, rs, early, e, late))
         == [HCI_DOWNLOAD_MINIDRIVER] + ds + Resets(1 + early + late)
  {
    var f, g := [HCI_DOWNLOAD_MINIDRIVER], Resets(1 + early + late);
    CollectOne(PhaseCommands, Exchange(HCI_DOWNLOAD_MINIDRIVER, m));
    NoCommands(!c.no2bytes, Gap(x));
    ExchangeCommands(ds, rs);
    CollectOne(PhaseCommands, Patched);
    NoCommands(c.useBaudrate, Line(B115200));
    CollectOne(PhaseCommands, Reset(early, e, late));
    SixAre(PhaseCommands, [Exchange(HCI_DOWNLOAD_MINIDRIVER, m)], When(!c.no2bytes, [Gap(x)]), Exchanges(ds, rs),
           [Patched],
           When(c.useBaudrate, [Line(B115200)]), [Reset(early, e, late)],
           f, [], ds, [], [], g);
    DropEmpty(f, ds, g);
  }

  lemma DropEmpty(a: seq<seq<byte>>, b: seq<seq<byte>>, d: seq<seq<byte>>)
    ensures a + [] + b + [] + [] + d == a + b + d
  {
  }

  lemma PairCommands(b: bool, f: seq<byte>, e: seq<byte>, g: seq<byte>, h: seq<byte>)
    ensures Collect(PhaseCommands, When(b, [Exchange(f, e), Exchange(g, h)])) == When(b, [f, g])
  {
    CollectTwo(PhaseCommands, Exchange(f, e), Exchange(g, h));
  }

  lemma LateCommands(c: Config, bdaddr: seq<byte>, sleep: seq<byte>, sco: seq<byte>, pcm: seq<byte>, i2s: seq<byte>)
    ensures Collect(PhaseCommands, LatePlan(c, bdaddr, sleep, sco, pcm, i2s)) == LateWord(c)
  {
    OnlyCommand(c.bdaddrFlag, c.writeBdAddr, bdaddr);
    OnlyCommand(c.enableLpm, HCI_WRITE_SLEEP_MODE, sleep);
    PairCommands(c.scopcm, c.scoPcmInt, sco, c.pcmDataFormat, pcm);
    OnlyCommand(c.i2s, c.i2sParam, i2s);
    FourAre(PhaseCommands, When(c.bdaddrFlag, [Exchange(c.writeBdAddr, bdaddr)]),
            When(c.enableLpm, [Exchange(HCI_WRITE_SLEEP_MODE, sleep)]),
            When(c.scopcm, [Exchange(c.scoPcmInt, sco), Exchange(c.pcmDataFormat, pcm)]),
            When(c.i2s, [Exchange(c.i2sParam, i2s)]),
            When(c.bdaddrFlag, [c.writeBdAddr]), When(c.enableLpm, [HCI_WRITE_SLEEP_MODE]),
            When(c.scopcm, [c.scoPcmInt, c.pcmDataFormat]), When(c.i2s, [c.i2sParam]));
  }

  lemma BeginCommands(early: nat, event: seq<byte>, late: nat)
    ensures Collect(PhaseCommands, [Line(B115200), Reset(early, event, late)]) == Resets(1 + early + late)
  {
    CollectTwo(PhaseCommands, Line(B115200), Reset(early, event, late));
    assert [] + Resets(1 + early + late) == Resets(1 + early + late);
  }

  lemma WhenPatched(b: bool, ps: seq<Phase>, fs: seq<seq<byte>>)
    requires Collect(PhaseCommands, ps) == fs
    ensures Collect(PhaseCommands, When(b, ps)) == When(b, fs)
  {
  }

  /** Every run writes a word of the grammar: each part is there exactly when
      its option asks for it, and the alarm only repeats the two resets. */
  lemma Grammar(c: Config, w: Answers)
    requires |w.downloads| == |w.replies|
    ensures Commands(ExpandAll(Plan(c, w)))
         == Word(c, w.downloads, 1 + w.early1 + w.late1, 1 + w.early2 + w.late2)
  {
    var n, m := 1 + w.early1 + w.late1, 1 + w.early2 + w.late2;
    hide ExpandAll, Commands, Collect, PatchPlan, BaudPlan, LatePlan, LateWord;
    var patch := PatchPlan(c, w.minidriver, w.extra, w.downloads, w.replies, w.early2, w.reset2, w.late2);
    var frames := [HCI_DOWNLOAD_MINIDRIVER] + w.downloads + Resets(m);
    CommandsOfPlan(Plan(c, w));
    BeginCommands(w.early1, w.reset1, w.late1);
    BaudCommands(c.useBaudrate && c.speed != B0, c, w.baud1);
    PatchCommands(c, w.minidriver, w.extra, w.downloads, w.replies, w.early2, w.reset2, w.late2);
    WhenPatched(c.hcdFd > 0, patch, frames);
    BaudCommands(c.speed != B0, c, w.baud2);
    LateCommands(c, w.bdaddr, w.sleep, w.sco, w.pcm, w.i2s);
    FiveAre(PhaseCommands, [Line(B115200), Reset(w.early1, w.reset1, w.late1)],
            When(c.useBaudrate && c.speed != B0, BaudPlan(c, w.baud1)),
            When(c.hcdFd > 0, patch),
            When(c.speed != B0, BaudPlan(c, w.baud2)),
            LatePlan(c, w.bdaddr, w.sleep, w.sco, w.pcm, w.i2s),
            Resets(n),
            When(c.useBaudrate && c.speed != B0, [c.updateBaudRate]),
            When(c.hcdFd > 0, frames),
            When(c.speed != B0, [c.updateBaudRate]),
            LateWord(c));
  }

  // ---------- the program's own commands ----------

  /** A phase with the alarm never expiring. */
  function Strip(p: Phase): seq<Phase> {
    [if p.Reset? then Reset(0, p.event, 0) else p]
  }

  function WithoutAlarms(w: Answers): Answers {
    w.(early1 := 0, late1 := 0, early2 := 0, late2 := 0)
  }

  lemma EraseExpand(t: seq<Io>, p: Phase)
    ensures Erase(t + Expand(p)) == Erase(t) + Expand(Strip(p)[0])
  {
    hide Alarms, Erase;
    match p {
      case Reset(early, event, late) =>
        EraseReset(t, early, event, late);
        EraseExchange(t, HCI_RESET, event);
        ResetSteps([], 0, event, 0);
        AlarmsLast([Send(HCI_RESET, false)], 0);
        AlarmsLast([Send(HCI_RESET, false)] + [Recv(event)], 0);
        assert Expand(Reset(0, event, 0)) == Expand(Exchange(HCI_RESET, event));
      case Exchange(frame, event) => EraseExchange(t, frame, event);
      case _ => EraseAppend(t, Expand(p)[0]);
    }
  }

  lemma EraseExchange(t: seq<Io>, frame: seq<byte>, event: seq<byte>)
    ensures Erase(t + Expand(Exchange(frame, event))) == Erase(t) + Expand(Exchange(frame, event))
  {
    hide Erase;
    EraseAppend(t, Send(frame, false));
    EraseAppend(t + [Send(frame, false)], Recv(event));
    assert t + Expand(Exchange(frame, event)) == t + [Send(frame, false)] + [Recv(event)];
    assert Erase(t) + Expand(Exchange(frame, event)) == Erase(t) + [Send(frame, false)] + [Recv(event)];
  }

  lemma {:induction false} EraseExpandAll(ps: seq<Phase>)
    ensures Erase(ExpandAll(ps)) == ExpandAll(Collect(Strip, ps))
  {
    if ps != [] {
      var n := |ps| - 1;
      EraseExpandAll(ps[..n]);
      EraseExpand(ExpandAll(ps[..n]), ps[n]);
      ExpandAppend(Collect(Strip, ps[..n]), Strip(ps[n])[0]);
      hide Expand;
      assert Collect(Strip, ps) == Collect(Strip, ps[..n]) + [Strip(ps[n])[0]];
    }
  }

  lemma {:induction false} StripKeeps(ps: seq<Phase>)
    requires forall i | 0 <= i < |ps| :: !ps[i].Reset?
    ensures Collect(Strip, ps) == ps
  {
    if ps != [] {
      var n := |ps| - 1;
      StripKeeps(ps[..n]);
      assert ps == ps[..n] + [ps[n]];
    }
  }

  lemma {:induction false} NoResets(ds: seq<seq<byte>>, rs: seq<seq<byte>>)
    requires |ds| == |rs|
    ensures forall i | 0 <= i < |Exchanges(ds, rs)| :: !Exchanges(ds, rs)[i].Reset?
    decreases |ds|
  {
    if ds != [] {
      NoResets(ds[..|ds| - 1], rs[..|rs| - 1]);
    }
  }

  lemma StripPatch(c: Config, m: seq<byte>, x: seq<byte>, ds: seq<seq<byte>>, rs: seq<seq<byte>>,
                   early: nat, e: seq<byte>, late: nat)
    requires |ds| == |rs|
    ensures Collect(Strip, PatchPlan(c, m, x, ds, rs, early, e, late)) == PatchPlan(c, m, x, ds, rs, 0, e, 0)
  {
    var a := [Exchange(HCI_DOWNLOAD_MINIDRIVER, m)] + When(!c.no2bytes, [Gap(x)]) + Exchanges(ds, rs)
             + [Patched] + When(c.useBaudrate, [Line(B115200)]);
    NoResets(ds, rs);
    assert forall i | 0 <= i < |a| :: !a[i].Reset?;
    hide Collect, Exchanges;
    StripKeeps(a);
    CollectOne(Strip, Reset(early, e, late));
    TwoAre(Strip, a, [Reset(early, e, late)], a, [Reset(0, e, 0)]);
  }

  lemma StripBegin(early: nat, event: seq<byte>, late: nat)
    ensures Collect(Strip, [Line(B115200), Reset(early, event, late)]) == [Line(B115200), Reset(0, event, 0)]
  {
    CollectTwo(Strip, Line(B115200), Reset(early, event, late));
  }

  lemma StripWhen(b: bool, ps: seq<Phase>, qs: seq<Phase>)
    requires Collect(Strip, ps) == qs
    ensures Collect(Strip, When(b, ps)) == When(b, qs)
  {
    hide Strip;
  }

  lemma StripPieces(a: seq<Phase>, b: seq<Phase>, p: seq<Phase>, d: seq<Phase>, e: seq<Phase>,
                    a0: seq<Phase>, p0: seq<Phase>)
    requires Collect(Strip, a) == a0 && Collect(Strip, p) == p0
    requires Collect(Strip, b) == b && Collect(Strip, d) == d && Collect(Strip, e) == e
    ensures Collect(Strip, a + b + p + d + e) == a0 + b + p0 + d + e
  {
    hide Collect, Strip;
    FiveAre(Strip, a, b, p, d, e, a0, b, p0, d, e);
  }

  lemma StripSpeed(b: bool, c: Config, event: seq<byte>)
    ensures Collect(Strip, When(b, BaudPlan(c, event))) == When(b, BaudPlan(c, event))
  {
    StripKeeps(When(b, BaudPlan(c, event)));
  }

  lemma StripLate(c: Config, w: Answers)
    ensures var late := LatePlan(c, w.bdaddr, w.sleep, w.sco, w.pcm, w.i2s);
            Collect(Strip, late) == late
  {
    StripKeeps(LatePlan(c, w.bdaddr, w.sleep, w.sco, w.pcm, w.i2s));
  }

  /** A run without its alarms is the run with the same answers in which the alarm
      never expires. */
  lemma StripPlan(c: Config, w: Answers)
    requires |w.downloads| == |w.replies|
    ensures Collect(Strip, Plan(c, w)) == Plan(c, WithoutAlarms(w))
  {
    hide Collect, PatchPlan, BaudPlan, LatePlan, Strip;
    var patch := PatchPlan(c, w.minidriver, w.extra, w.downloads, w.replies, w.early2, w.reset2, w.late2);
    var plain := PatchPlan(c, w.minidriver, w.extra, w.downloads, w.replies, 0, w.reset2, 0);
    StripBegin(w.early1, w.reset1, w.late1);
    StripPatch(c, w.minidriver, w.extra, w.downloads, w.replies, w.early2, w.reset2, w.late2);
    StripSpeed(c.useBaudrate && c.speed != B0, c, w.baud1);
    StripWhen(c.hcdFd > 0, patch, plain);
    StripSpeed(c.speed != B0, c, w.baud2);
    StripLate(c, w);
    StripPieces([Line(B115200), Reset(w.early1, w.reset1, w.late1)],
                When(c.useBaudrate && c.speed != B0, BaudPlan(c, w.baud1)), When(c.hcdFd > 0, patch),
                When(c.speed != B0, BaudPlan(c, w.baud2)), LatePlan(c, w.bdaddr, w.sleep, w.sco, w.pcm, w.i2s),
                [Line(B115200), Reset(0, w.reset1, 0)], When(c.hcdFd > 0, plain));
  }

  /** Wherever the alarm expires, the program's own commands are the word of the
      grammar with each reset once. */
  lemma OwnGrammar(c: Config, w: Answers, t: seq<Io>)
    requires IsRun(t, c, w)
    ensures Commands(Erase(t)) == Word(c, w.downloads, 1, 1)
  {
    hide Plan, ExpandAll, Commands, Erase, Word, Collect;
    EraseExpandAll(Plan(c, w));
    StripPlan(c, w);
    Grammar(c, WithoutAlarms(w));
  }
}
