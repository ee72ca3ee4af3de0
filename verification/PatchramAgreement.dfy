/** When host and controller are at the same line speed throughout a run of
    brcm_patchram_plus. */
module PatchramAgreement {
  import opened Bytes
  import opened PatchramConfig
  import opened PatchramTrace
  import opened PatchramRuns
  import opened PatchramBaud

  // ---------- rates and expiries ----------

  /** The rate asked for, or the one the line starts with. */
  function FinalRate(c: Config): nat {
    if c.speed == B0 then 115200 else Rate(c.speed)
  }

  /** The rate at which the file is sent. */
  function DownloadRate(c: Config): nat {
    if c.useBaudrate then FinalRate(c) else 115200
  }

  function Expiries1(w: Answers): nat {
    w.early1 + w.late1
  }

  function Expiries2(c: Config, w: Answers): nat {
    if c.hcdFd > 0 then w.early2 + w.late2 else 0
  }

  /** The link behind the first reset and the early change of speed. */
  function BeforePatch(c: Config, w: Answers): Link {
    var l1 := RunPhases(POWER_ON, [Line(B115200), Reset(w.early1, w.reset1, w.late1)]);
    RunPhases(l1, When(c.useBaudrate && c.speed != B0, BaudPlan(c, w.baud1)))
  }

  lemma BeforePatchQuiet(c: Config, w: Answers)
    requires WellFormed(c) && EarlyInTime(c, w)
    ensures Quiet(BeforePatch(c, w), DownloadRate(c)) && |BeforePatch(c, w).pending| == Expiries1(w)
  {
    hide RunPhases, BaudPlan, Quiet;
    BeginQuiet(w.early1, w.reset1, w.late1);
    var l1 := RunPhases(POWER_ON, [Line(B115200), Reset(w.early1, w.reset1, w.late1)]);
    if c.useBaudrate && c.speed != B0 {
      BaudQuiet(l1, 115200, c, w.baud1);
    } else {
      NoPhases(l1);
    }
  }

  /** No alarm expired before the early change of speed, if that is a change. */
  predicate EarlyInTime(c: Config, w: Answers) {
    DownloadRate(c) != 115200 ==> Expiries1(w) == 0
  }

  /** When the early change of speed is disturbed, the next command, of the patch
      or of the last change of speed, is written at the wrong rate. */
  lemma LostEarly(c: Config, w: Answers)
    requires WellFormed(c) && |w.downloads| == |w.replies|
    requires !EarlyInTime(c, w)
    ensures !RunPhases(POWER_ON, Plan(c, w)).agreed
  {
    var a := [Line(B115200), Reset(w.early1, w.reset1, w.late1)];
    var b := When(c.useBaudrate && c.speed != B0, BaudPlan(c, w.baud1));
    var patch := When(c.hcdFd > 0,
                      PatchPlan(c, w.minidriver, w.extra, w.downloads, w.replies, w.early2, w.reset2, w.late2));
    var more := patch + When(c.speed != B0, BaudPlan(c, w.baud2))
                + LatePlan(c, w.bdaddr, w.sleep, w.sco, w.pcm, w.i2s);
    EarlyShape(c, w, a, b, patch, When(c.speed != B0, BaudPlan(c, w.baud2)),
               LatePlan(c, w.bdaddr, w.sleep, w.sco, w.pcm, w.i2s));
    assert Plan(c, w) == a + b + patch + When(c.speed != B0, BaudPlan(c, w.baud2))
                         + LatePlan(c, w.bdaddr, w.sleep, w.sco, w.pcm, w.i2s);
    hide RunPhases, Quiet, BaudPlan, PatchPlan, LatePlan, Plan;
    BeginQuiet(w.early1, w.reset1, w.late1);
    var l := RunPhases(POWER_ON, a);
    BaudBreaks(l, 115200, c, w.baud1);
    PhasesJoin(POWER_ON, a, b);
    PhasesJoin(POWER_ON, a + b, more);
    LostAtCommand(RunPhases(l, b), more);
  }

  lemma EarlyShape(c: Config, w: Answers, a: seq<Phase>, b: seq<Phase>, patch: seq<Phase>, d: seq<Phase>, e: seq<Phase>)
    requires |w.downloads| == |w.replies| && c.speed != B0 && d == BaudPlan(c, w.baud2)
    requires patch == When(c.hcdFd > 0, PatchPlan(c, w.minidriver, w.extra, w.downloads, w.replies,
                                                  w.early2, w.reset2, w.late2))
    ensures a + b + patch + d + e == a + b + (patch + d + e)
    ensures patch + d + e != [] && (patch + d + e)[0].Exchange?
  {
    FourParts(a + b, patch, d, e);
    if c.hcdFd > 0 {
      assert patch[0].Exchange?;
    } else {
      assert d[0].Exchange? && patch + d == d;
    }
  }

  // ---------- the two parts of a run with a file ----------

  /** The phases of a run up to the end of the file, and behind it. */
  function Front(c: Config, w: Answers): seq<Phase>
    requires |w.downloads| == |w.replies|
  {
    [Line(B115200), Reset(w.early1, w.reset1, w.late1)]
    + When(c.useBaudrate && c.speed != B0, BaudPlan(c, w.baud1))
    + DownloadPart(c, w.minidriver, w.extra, w.downloads, w.replies)
    + PatchedPart(c)
  }

  function Tail(c: Config, w: Answers): seq<Phase> {
    [Reset(w.early2, w.reset2, w.late2)]
    + When(c.speed != B0, BaudPlan(c, w.baud2))
    + LatePlan(c, w.bdaddr, w.sleep, w.sco, w.pcm, w.i2s)
  }

  lemma PlanIsFrontTail(c: Config, w: Answers)
    requires |w.downloads| == |w.replies| && c.hcdFd > 0
    ensures Plan(c, w) == Front(c, w) + Tail(c, w)
  {
    var begin := [Line(B115200), Reset(w.early1, w.reset1, w.late1)];
    var d := DownloadPart(c, w.minidriver, w.extra, w.downloads, w.replies);
    var baud1 := When(c.useBaudrate && c.speed != B0, BaudPlan(c, w.baud1));
    var baud2 := When(c.speed != B0, BaudPlan(c, w.baud2));
    var late := LatePlan(c, w.bdaddr, w.sleep, w.sco, w.pcm, w.i2s);
    var e, reset := When(c.useBaudrate, [Line(B115200)]), [Reset(w.early2, w.reset2, w.late2)];
    hide LatePlan, BaudPlan;
    assert PatchPlan(c, w.minidriver, w.extra, w.downloads, w.replies, w.early2, w.reset2, w.late2)
        == d + [Patched] + e + reset;
    Regroup(begin, baud1, d, e, reset, baud2, late);
  }

  lemma Regroup(a: seq<Phase>, b: seq<Phase>, d: seq<Phase>, e: seq<Phase>, r: seq<Phase>,
                x: seq<Phase>, y: seq<Phase>)
    ensures a + b + (d + [Patched] + e + r) + x + y == a + b + d + ([Patched] + e) + (r + x + y)
  {
  }

  // ---------- the commands to be answered ----------

  /** How many events a phase reads. */
  function ReadsOf(p: Phase): nat {
    if p.Reset? || p.Exchange? then 1 else 0
  }

  function ReadsAll(ps: seq<Phase>): nat {
    if ps == [] then 0 else ReadsAll(ps[..|ps| - 1]) + ReadsOf(ps[|ps| - 1])
  }

  lemma {:induction false} AlarmsQueue(l: Link, n: nat)
    ensures Run(l, Alarms(n)).pending == l.pending + Resets(n)
  {
    if n == 0 {
      assert l.pending + Resets(0) == l.pending;
    } else {
      AlarmsQueue(l, n - 1);
      RunAppend(l, Alarms(n - 1), Send(HCI_RESET, true));
      assert l.pending + Resets(n) == l.pending + Resets(n - 1) + [HCI_RESET];
    }
  }

  /** Each event read answers the command that has waited longest. */
  lemma PendingPhase(l: Link, p: Phase)
    ensures RunPhase(l, p).pending == (l.pending + PhaseCommands(p))[ReadsOf(p)..]
  {
    match p {
      case Reset(early, event, late) => PendingReset(l, early, event, late);
      case Exchange(frame, event) => RunExchange(l, frame, event);
      case _ =>
        OneStep(l, Expand(p)[0]);
        assert (l.pending + [])[0..] == l.pending;
    }
  }

  lemma ResetQueue(q: seq<seq<byte>>, early: nat, late: nat)
    ensures (q + [HCI_RESET] + Resets(early))[1..] + Resets(late) == (q + Resets(1 + early + late))[1..]
    ensures (q + [HCI_RESET] + Resets(early))[0] == (q + Resets(1 + early + late))[0]
  {
    hide Resets;
    var b := q + [HCI_RESET] + Resets(early);
    ResetCommands(q, early, late);
    assert (b + Resets(late))[1..] == b[1..] + Resets(late);
  }

  lemma PendingReset(l: Link, early: nat, event: seq<byte>, late: nat)
    ensures RunPhase(l, Reset(early, event, late)).pending == (l.pending + Resets(1 + early + late))[1..]
  {
    hide Run, Resets, Alarms, RunPhase;
    RunReset(l, early, event, late);
    var a := After(l, Send(HCI_RESET, false));
    AlarmsQueue(a, early);
    AlarmsQueue(After(Run(a, Alarms(early)), Recv(event)), late);
    ResetQueue(l.pending, early, late);
  }

  lemma {:induction false} PendingPhases(l: Link, ps: seq<Phase>)
    ensures ReadsAll(ps) <= |l.pending + Collect(PhaseCommands, ps)|
    ensures RunPhases(l, ps).pending == (l.pending + Collect(PhaseCommands, ps))[ReadsAll(ps)..]
  {
    hide RunPhase, PhaseCommands, ReadsOf;
    if ps == [] {
      assert (l.pending + [])[0..] == l.pending;
    } else {
      var n := |ps| - 1;
      PendingPhases(l, ps[..n]);
      PendingPhase(RunPhases(l, ps[..n]), ps[n]);
      ReadOne(ps[n]);
      DropTwice(l.pending, Collect(PhaseCommands, ps[..n]), PhaseCommands(ps[n]), ReadsAll(ps[..n]), ReadsOf(ps[n]));
    }
  }

  lemma ReadOne(p: Phase)
    ensures ReadsOf(p) <= |PhaseCommands(p)|
  {
  }

  lemma DropTwice(q: seq<seq<byte>>, a: seq<seq<byte>>, b: seq<seq<byte>>, n: nat, m: nat)
    requires n <= |q + a| && m <= |b|
    ensures n + m <= |q + (a + b)|
    ensures ((q + a)[n..] + b)[m..] == (q + (a + b))[n + m..]
  {
    assert q + (a + b) == q + a + b;
  }

  /** The commands written up to the end of the file, and behind it. */
  function FrontWord(c: Config, w: Answers): (s: seq<seq<byte>>)
    ensures |s| > Expiries1(w)
  {
    Resets(1 + Expiries1(w))
    + When(c.useBaudrate && c.speed != B0, [c.updateBaudRate])
    + ([HCI_DOWNLOAD_MINIDRIVER] + w.downloads)
  }

  function TailWord(c: Config, w: Answers): seq<seq<byte>> {
    Resets(1 + w.early2 + w.late2) + When(c.speed != B0, [c.updateBaudRate]) + LateWord(c)
  }

  /** The commands whose answers come behind the end of the file: as many of those
      before it as there were expiries, and all that follow. */
  function Unanswered(c: Config, w: Answers): (s: seq<seq<byte>>)
    ensures |s| == Expiries1(w) + |TailWord(c, w)|
  {
    var n := |FrontWord(c, w)| - Expiries1(w);
    FrontWord(c, w)[n..] + TailWord(c, w)
  }

  lemma DownloadCommands(c: Config, m: seq<byte>, e: seq<byte>, ds: seq<seq<byte>>, rs: seq<seq<byte>>)
    requires |ds| == |rs|
    ensures Collect(PhaseCommands, DownloadPart(c, m, e, ds, rs)) == [HCI_DOWNLOAD_MINIDRIVER] + ds
  {
    hide Collect, Exchanges;
    var a, b := [Exchange(HCI_DOWNLOAD_MINIDRIVER, m)], When(!c.no2bytes, [Gap(e)]);
    OnlyCommand(true, HCI_DOWNLOAD_MINIDRIVER, m);
    NoCommands(!c.no2bytes, Gap(e));
    ExchangeCommands(ds, rs);
    TwoAre(PhaseCommands, a, b, [HCI_DOWNLOAD_MINIDRIVER], []);
    TwoAre(PhaseCommands, a + b, Exchanges(ds, rs), [HCI_DOWNLOAD_MINIDRIVER] + [], ds);
    assert [HCI_DOWNLOAD_MINIDRIVER] + [] == [HCI_DOWNLOAD_MINIDRIVER];
  }

  lemma PatchedCommands(c: Config)
    ensures Collect(PhaseCommands, PatchedPart(c)) == []
  {
    hide Collect;
    NoCommands(true, Patched);
    NoCommands(c.useBaudrate, Line(B115200));
    TwoAre(PhaseCommands, [Patched], When(c.useBaudrate, [Line(B115200)]), [], []);
  }

  lemma FrontCommands(c: Config, w: Answers)
    requires |w.downloads| == |w.replies|
    ensures Collect(PhaseCommands, Front(c, w)) == FrontWord(c, w)
  {
    hide Collect, DownloadPart, PatchedPart, BaudPlan, Resets, PhaseCommands;
    var n, baud := 1 + w.early1 + w.late1, When(c.useBaudrate && c.speed != B0, [c.updateBaudRate]);
    var files := [HCI_DOWNLOAD_MINIDRIVER] + w.downloads;
    BeginCommands(w.early1, w.reset1, w.late1);
    BaudCommands(c.useBaudrate && c.speed != B0, c, w.baud1);
    DownloadCommands(c, w.minidriver, w.extra, w.downloads, w.replies);
    PatchedCommands(c);
    FourAre(PhaseCommands, [Line(B115200), Reset(w.early1, w.reset1, w.late1)],
            When(c.useBaudrate && c.speed != B0, BaudPlan(c, w.baud1)),
            DownloadPart(c, w.minidriver, w.extra, w.downloads, w.replies), PatchedPart(c),
            Resets(n), baud, files, []);
    assert Resets(n) + baud + files + [] == Resets(n) + baud + files;
  }

  // ---------- behind the end of the file ----------

  /** When nothing is lost behind the end of the file, given the commands s that are
      answered there, in order: the first answer, to the read of the second reset,
      leaves the rate alone, or nothing follows that read; the second, to the read
      of the last change of speed, brings the rate asked for, or no command follows;
      and none of those to the reads of the commands that follow, but the last,
      changes it. */
  predicate TailAgrees(c: Config, s: seq<seq<byte>>, late: nat)
    requires |s| > (if c.speed == B0 then 0 else 1) + |LateWord(c)|
  {
    var k := |LateWord(c)|;
    && (Harmless(s[0], 115200) || (late == 0 && c.speed == B0 && k == 0))
    && (if c.speed == B0 then forall j | 1 <= j < k :: Harmless(s[j], 115200)
        else k > 0 ==> RateAfter(s[1], 115200) == Rate(c.speed)
                       && forall j | 2 <= j < k + 1 :: Harmless(s[j], Rate(c.speed)))
  }

  lemma ResetRun(l: Link, early: nat, event: seq<byte>, late: nat)
    requires AtStart(l)
    ensures var r, s := RunPhase(l, Reset(early, event, late)), l.pending + Resets(1 + early + late);
            && r.line == l.line && r.pending == s[1..] && r.rate == RateAfter(s[0], 115200)
            && (r.agreed <==> Harmless(s[0], 115200) || late == 0)
  {
    hide Run, Alarms, RateAfter, Resets;
    PendingReset(l, early, event, late);
    RunReset(l, early, event, late);
    var a := After(l, Send(HCI_RESET, false));
    RunAlarms(a, early);
    AlarmsQueue(a, early);
    var b := Run(a, Alarms(early));
    RunAlarms(After(b, Recv(event)), late);
    ResetQueue(l.pending, early, late);
  }

  lemma ExchangesOne(f: seq<byte>, e: seq<byte>)
    ensures Exchanges([f], [e]) == [Exchange(f, e)]
  {
    assert [f][..0] == [] && [e][..0] == [];
  }

  lemma {:induction false} ExchangesJoin(fs: seq<seq<byte>>, es: seq<seq<byte>>, gs: seq<seq<byte>>, hs: seq<seq<byte>>)
    requires |fs| == |es| && |gs| == |hs|
    ensures Exchanges(fs + gs, es + hs) == Exchanges(fs, es) + Exchanges(gs, hs)
    decreases |gs|
  {
    if gs == [] {
      assert fs + gs == fs && es + hs == es;
    } else {
      var n := |gs| - 1;
      ExchangesJoin(fs, es, gs[..n], hs[..n]);
      assert (fs + gs)[..|fs + gs| - 1] == fs + gs[..n] && (es + hs)[..|es + hs| - 1] == es + hs[..n];
    }
  }

  lemma LateIsExchanges(c: Config, w: Answers)
    ensures |LateWord(c)| == |LateReads(c, w)|
    ensures LatePlan(c, w.bdaddr, w.sleep, w.sco, w.pcm, w.i2s) == Exchanges(LateWord(c), LateReads(c, w))
  {
    hide Exchanges;
    var f1, e1 := When(c.bdaddrFlag, [c.writeBdAddr]), When(c.bdaddrFlag, [w.bdaddr]);
    var f2, e2 := When(c.enableLpm, [HCI_WRITE_SLEEP_MODE]), When(c.enableLpm, [w.sleep]);
    var f3, e3 := When(c.scopcm, [c.scoPcmInt, c.pcmDataFormat]), When(c.scopcm, [w.sco, w.pcm]);
    var f4, e4 := When(c.i2s, [c.i2sParam]), When(c.i2s, [w.i2s]);
    ExchangesOne(c.writeBdAddr, w.bdaddr);
    ExchangesOne(HCI_WRITE_SLEEP_MODE, w.sleep);
    ExchangesOne(c.scoPcmInt, w.sco);
    ExchangesOne(c.pcmDataFormat, w.pcm);
    ExchangesOne(c.i2sParam, w.i2s);
    ExchangesJoin([c.scoPcmInt], [w.sco], [c.pcmDataFormat], [w.pcm]);
    ExchangesNone();
    ExchangesJoin(f1, e1, f2, e2);
    ExchangesJoin(f1 + f2, e1 + e2, f3, e3);
    ExchangesJoin(f1 + f2 + f3, e1 + e2 + e3, f4, e4);
    assert [c.scoPcmInt] + [c.pcmDataFormat] == [c.scoPcmInt, c.pcmDataFormat] && [w.sco] + [w.pcm] == [w.sco, w.pcm];
  }

  lemma ExchangesNone()
    ensures Exchanges([], []) == []
  {
  }

  /** The commands behind the last change of speed. */
  lemma LateRun(l: Link, c: Config, w: Answers)
    requires l.agreed
    ensures var k, all := |LateWord(c)|, l.pending + LateWord(c);
            RunPhases(l, LatePlan(c, w.bdaddr, w.sleep, w.sco, w.pcm, w.i2s)).agreed <==>
            k == 0 || (Rate(l.line) == l.rate && forall i | 0 <= i < k - 1 :: Harmless(all[i], l.rate))
  {
    hide RunPhases, LatePlan, LateWord, LateReads, Harmless;
    LateIsExchanges(c, w);
    LateShape(c, w);
    if LateWord(c) == [] {
      ExchangesNone();
      NoPhases(l);
    } else if Rate(l.line) == l.rate {
      ExchangesRun(l, l.rate, LateWord(c), LateReads(c, w));
    } else {
      FirstExchange(LateWord(c), LateReads(c, w));
      LostAtCommand(l, Exchanges(LateWord(c), LateReads(c, w)));
    }
  }

  lemma FirstExchange(fs: seq<seq<byte>>, es: seq<seq<byte>>)
    requires |fs| == |es| && fs != []
    ensures Exchanges(fs, es) != [] && Exchanges(fs, es)[0].Exchange?
  {
    ExchangesAreExchanges(fs, es);
  }

  lemma BaudRun(l: Link, c: Config, event: seq<byte>)
    requires AtStart(l)
    ensures var r, s := RunPhases(l, BaudPlan(c, event)), l.pending + [c.updateBaudRate];
            r == Link(s[1..], RateAfter(s[0], 115200), c.speed, true)
  {
    hide RunPhases, Run, RateAfter;
    TwoPhasesRun(l, Exchange(c.updateBaudRate, event), Line(c.speed));
    RunExchange(l, c.updateBaudRate, event);
    OneStep(RunPhase(l, Exchange(c.updateBaudRate, event)), SetSpeed(c.speed));
  }

  /** The part of TailAgrees behind the second reset, when none of its alarms found
      the rate changed. */
  predicate AgreesBehind(c: Config, s: seq<seq<byte>>)
    requires |s| > (if c.speed == B0 then 0 else 1) + |LateWord(c)|
  {
    TailAgrees(c, s, 0)
  }

  /** The last change of speed, with the rate still 115200. */
  lemma ChangeRun(m: Link, c: Config, w: Answers, s: seq<seq<byte>>)
    requires AtStart(m) && c.speed != B0 && s != []
    requires s[1..] == m.pending + [c.updateBaudRate] + LateWord(c)
    ensures var late := LatePlan(c, w.bdaddr, w.sleep, w.sco, w.pcm, w.i2s);
            RunPhases(m, BaudPlan(c, w.baud2) + late).agreed <==>
            |LateWord(c)| > 0 ==>
              && RateAfter(s[1], 115200) == Rate(c.speed)
              && forall j | 2 <= j < |LateWord(c)| + 1 :: Harmless(s[j], Rate(c.speed))
  {
    hide RunPhases, LatePlan, LateWord, BaudPlan, RateAfter, Harmless;
    var late := LatePlan(c, w.bdaddr, w.sleep, w.sco, w.pcm, w.i2s);
    BaudRun(m, c, w.baud2);
    PhasesJoin(m, BaudPlan(c, w.baud2), late);
    var r := RunPhases(m, BaudPlan(c, w.baud2));
    LateRun(r, c, w);
    var q := m.pending + [c.updateBaudRate];
    assert s[1..][0] == q[0] == s[1];
    assert r.pending + LateWord(c) == (q + LateWord(c))[1..] == s[1..][1..] == s[2..];
    Shifted(s, 2, |LateWord(c)| - 1, Rate(c.speed));
  }

  /** A run behind the second reset. */
  lemma BehindReset(m: Link, c: Config, w: Answers, s: seq<seq<byte>>)
    requires m.agreed && Rate(m.line) == 115200 && s != [] && m.rate == RateAfter(s[0], 115200)
    requires s[1..] == m.pending + When(c.speed != B0, [c.updateBaudRate]) + LateWord(c)
    ensures var more := When(c.speed != B0, BaudPlan(c, w.baud2))
                        + LatePlan(c, w.bdaddr, w.sleep, w.sco, w.pcm, w.i2s);
            RunPhases(m, more).agreed <==> AgreesBehind(c, s)
  {
    hide RunPhases, LatePlan, LateWord, BaudPlan, RateAfter;
    var late := LatePlan(c, w.bdaddr, w.sleep, w.sco, w.pcm, w.i2s);
    var more := When(c.speed != B0, BaudPlan(c, w.baud2)) + late;
    if c.speed == B0 {
      assert more == late && s[1..] == m.pending + LateWord(c);
      LateRun(m, c, w);
      Shifted(s, 1, |LateWord(c)| - 1, 115200);
    } else if m.rate == 115200 {
      ChangeRun(m, c, w, s);
    } else {
      BaudFirst(c, w.baud2, late);
      LostAtCommand(m, more);
    }
  }

  lemma TailParts(q: seq<seq<byte>>, r: seq<seq<byte>>, x: seq<seq<byte>>, y: seq<seq<byte>>)
    requires r != []
    ensures var s := q + (r + x + y);
            s[1..] == (q + r)[1..] + x + y && s[0] == (q + r)[0]
  {
    assert q + (r + x + y) == (q + r) + x + y;
  }

  lemma TailIs(c: Config, w: Answers)
    ensures var more := When(c.speed != B0, BaudPlan(c, w.baud2))
                        + LatePlan(c, w.bdaddr, w.sleep, w.sco, w.pcm, w.i2s);
            Tail(c, w) == [Reset(w.early2, w.reset2, w.late2)] + more
  {
    hide LatePlan, BaudPlan;
  }

  lemma TailWordIs(q: seq<seq<byte>>, c: Config, w: Answers)
    ensures var s, r := q + TailWord(c, w), q + Resets(1 + w.early2 + w.late2);
            && s != [] && s[1..] == r[1..] + When(c.speed != B0, [c.updateBaudRate]) + LateWord(c) && s[0] == r[0]
            && |s| > (if c.speed == B0 then 0 else 1) + |LateWord(c)|
  {
    hide LateWord, Resets;
    TailParts(q, Resets(1 + w.early2 + w.late2), When(c.speed != B0, [c.updateBaudRate]), LateWord(c));
  }

  /** A run behind the end of the file, with whatever is still to be answered. */
  lemma TailRun(l: Link, c: Config, w: Answers)
    requires AtStart(l)
    ensures RunPhases(l, Tail(c, w)).agreed <==> TailAgrees(c, l.pending + TailWord(c, w), w.late2)
  {
    var reset, s := Reset(w.early2, w.reset2, w.late2), l.pending + TailWord(c, w);
    var more := When(c.speed != B0, BaudPlan(c, w.baud2)) + LatePlan(c, w.bdaddr, w.sleep, w.sco, w.pcm, w.i2s);
    hide RunPhases, RunPhase, LatePlan, LateWord, Resets, BaudPlan, RateAfter, Tail, TailWord, TailAgrees, AgreesBehind;
    var m := RunPhase(l, reset);
    ResetRun(l, w.early2, w.reset2, w.late2);
    OnePhase(l, reset);
    PhasesJoin(l, [reset], more);
    TailIs(c, w);
    TailWordIs(l.pending, c, w);
    if m.agreed {
      BehindReset(m, c, w, s);
    } else {
      StaysLostPhases(m, more);
    }
    WithAlarms(c, s, w.late2);
  }

  /** The alarms behind the answer to the second reset lose only what is lost later
      anyway, or would be if anything came later. */
  lemma WithAlarms(c: Config, s: seq<seq<byte>>, late: nat)
    requires |s| > (if c.speed == B0 then 0 else 1) + |LateWord(c)|
    ensures TailAgrees(c, s, late) <==> AgreesBehind(c, s) && (Harmless(s[0], 115200) || late == 0)
  {
    hide LateWord;
  }

  lemma BaudFirst(c: Config, event: seq<byte>, late: seq<Phase>)
    ensures BaudPlan(c, event) + late != [] && (BaudPlan(c, event) + late)[0].Exchange?
  {
  }

  lemma Shifted(s: seq<seq<byte>>, n: nat, k: int, x: nat)
    requires n <= |s| && n + k <= |s|
    ensures (forall i | 0 <= i < k :: Harmless(s[n..][i], x)) <==> forall j | n <= j < n + k :: Harmless(s[j], x)
  {
    hide Harmless;
    assert forall i | 0 <= i < k :: s[n..][i] == s[n + i];
    assert forall j | n <= j < n + k :: s[j] == s[n..][j - n];
  }

  // ---------- whole runs ----------

  /** Host and controller are at the same rate at every command written and every
      event read of a trace. */
  ghost predicate AgreeThroughout(t: seq<Io>) {
    forall i | 0 <= i < |t| && IsTransfer(t[i]) :: SameRate(Run(POWER_ON, t[..i]))
  }

  lemma AgreedRun(c: Config, w: Answers)
    requires |w.downloads| == |w.replies|
    ensures AgreeThroughout(ExpandAll(Plan(c, w))) <==> RunPhases(POWER_ON, Plan(c, w)).agreed
  {
    hide Run, RunPhases, Plan, ExpandAll, SameRate;
    AgreedMeans(POWER_ON, ExpandAll(Plan(c, w)));
    RunExpanded(POWER_ON, Plan(c, w));
  }

  /** When every command and event passes at one rate, as far as the options and
      the alarm go: the rate asked for is the one the line has anyway; or no alarm
      expired before the early change of speed, and none at all before the last one
      if commands follow it. */
  predicate InTime(c: Config, w: Answers) {
    || FinalRate(c) == 115200
    || (&& (c.useBaudrate ==> Expiries1(w) == 0)
        && (Expiries1(w) + Expiries2(c, w) == 0 || !HasLate(c)))
  }

  lemma NoFilePlan(c: Config, w: Answers)
    requires |w.downloads| == |w.replies| && c.hcdFd <= 0
    ensures RunPhases(POWER_ON, Plan(c, w))
         == RunPhases(RunPhases(BeforePatch(c, w), When(c.speed != B0, BaudPlan(c, w.baud2))),
                      LatePlan(c, w.bdaddr, w.sleep, w.sco, w.pcm, w.i2s))
  {
    hide RunPhases, LatePlan, PatchPlan, BaudPlan;
    var a := [Line(B115200), Reset(w.early1, w.reset1, w.late1)];
    var b := When(c.useBaudrate && c.speed != B0, BaudPlan(c, w.baud1));
    var d, late := When(c.speed != B0, BaudPlan(c, w.baud2)), LatePlan(c, w.bdaddr, w.sleep, w.sco, w.pcm, w.i2s);
    PhasesJoin(POWER_ON, a, b);
    PhasesJoin(POWER_ON, a + b, d);
    PhasesJoin(POWER_ON, a + b + d, late);
    assert Plan(c, w) == a + b + d + late;
  }

  /** Without a file. */
  lemma NoFileRun(c: Config, w: Answers)
    requires WellFormed(c) && |w.downloads| == |w.replies| && c.hcdFd <= 0
    ensures RunPhases(POWER_ON, Plan(c, w)).agreed <==> InTime(c, w)
  {
    hide RunPhases, Plan, LatePlan, BaudPlan, Quiet, BeforePatch, Broken;
    if !EarlyInTime(c, w) {
      LostEarly(c, w);
    } else {
      BeforePatchQuiet(c, w);
      NoFilePlan(c, w);
      var x, l := DownloadRate(c), BeforePatch(c, w);
      var r := RunPhases(l, When(c.speed != B0, BaudPlan(c, w.baud2)));
      if c.speed == B0 {
        NoPhases(l);
      } else if l.pending == [] || Rate(c.speed) == x {
        BaudQuiet(l, x, c, w.baud2);
      } else {
        BaudBreaks(l, x, c, w.baud2);
      }
      LateAgreement(r, FinalRate(c), c, w);
      QuietOrBroken(r, FinalRate(c));
    }
  }

  lemma QuietOrBroken(l: Link, x: nat)
    ensures !(Quiet(l, x) && Broken(l))
  {
  }

  /** No record whose answer comes before the last exchange of the download
      changes the rate. */
  predicate FileInOrder(c: Config, w: Answers) {
    Undisturbed(w.downloads, DownloadRate(c), Expiries1(w))
  }

  /** The link when the file is complete. */
  lemma FrontRun(c: Config, w: Answers)
    requires WellFormed(c) && |w.downloads| == |w.replies| && EarlyInTime(c, w)
    ensures var r := RunPhases(POWER_ON, Front(c, w));
            if FileInOrder(c, w) then AtStart(r) && r.pending + TailWord(c, w) == Unanswered(c, w)
            else !r.agreed
  {
    hide RunPhases, BaudPlan, Quiet, Undisturbed, DownloadPart, PatchedPart, AtStart, TailWord, FrontWord;
    var a := [Line(B115200), Reset(w.early1, w.reset1, w.late1)];
    var b := When(c.useBaudrate && c.speed != B0, BaudPlan(c, w.baud1));
    var d := DownloadPart(c, w.minidriver, w.extra, w.downloads, w.replies);
    var l2 := BeforePatch(c, w);
    PhasesJoin(POWER_ON, a, b);
    PhasesJoin(POWER_ON, a + b, d);
    PhasesJoin(POWER_ON, a + b + d, PatchedPart(c));
    BeforePatchQuiet(c, w);
    DownloadPartRun(l2, DownloadRate(c), c, w.minidriver, w.extra, w.downloads, w.replies);
    var l3 := RunPhases(l2, d);
    if FileInOrder(c, w) {
      BackToStart(l3, c);
      PendingPhases(POWER_ON, Front(c, w));
      FrontCommands(c, w);
      assert POWER_ON.pending + FrontWord(c, w) == FrontWord(c, w);
    } else {
      StaysLostPhases(l3, PatchedPart(c));
    }
  }

  /** With a file. */
  lemma FileRun(c: Config, w: Answers)
    requires WellFormed(c) && |w.downloads| == |w.replies| && c.hcdFd > 0
    ensures RunPhases(POWER_ON, Plan(c, w)).agreed <==>
            EarlyInTime(c, w) && FileInOrder(c, w) && TailAgrees(c, Unanswered(c, w), w.late2)
  {
    hide RunPhases, Plan, Front, Tail, TailAgrees, FileInOrder, AtStart, Unanswered, TailWord;
    if !EarlyInTime(c, w) {
      LostEarly(c, w);
    } else {
      PlanIsFrontTail(c, w);
      PhasesJoin(POWER_ON, Front(c, w), Tail(c, w));
      FrontRun(c, w);
      var l := RunPhases(POWER_ON, Front(c, w));
      if FileInOrder(c, w) {
        TailRun(l, c, w);
      } else {
        StaysLostPhases(l, Tail(c, w));
      }
    }
  }

  /** When host and controller agree, with the file: no alarm expired before an
      early change of speed; no record whose answer comes before the last exchange
      of the download changes the rate; and what is answered behind the end of the
      file does no harm there. */
  predicate InOrder(c: Config, w: Answers) {
    if c.hcdFd > 0 then EarlyInTime(c, w) && FileInOrder(c, w) && TailAgrees(c, Unanswered(c, w), w.late2)
    else InTime(c, w)
  }

  /** For all options, every file and every timing: exactly when host and controller
      agree throughout a run. */
  lemma BaudAgreement(c: Config, w: Answers)
    requires WellFormed(c) && |w.downloads| == |w.replies|
    ensures AgreeThroughout(ExpandAll(Plan(c, w))) <==> InOrder(c, w)
  {
    hide AgreeThroughout, ExpandAll, Plan, RunPhases, EarlyInTime, FileInOrder, TailAgrees, Unanswered, InTime;
    AgreedRun(c, w);
    if c.hcdFd > 0 {
      FileRun(c, w);
    } else {
      NoFileRun(c, w);
    }
  }

  // ---------- files that leave the rate alone ----------

  lemma LateWordHarmless(c: Config, x: nat)
    requires WellFormed(c)
    ensures AllHarmless(LateWord(c), x) && (LateWord(c) == [] <==> !HasLate(c))
  {
    TemplatesHarmless(c, x);
    hide Harmless;
  }

  lemma {:induction false} ResetsHarmless(n: nat, x: nat)
    ensures AllHarmless(Resets(n), x)
  {
    if n > 0 {
      ResetsHarmless(n - 1, x);
    }
  }

  lemma HarmlessJoin(a: seq<seq<byte>>, b: seq<seq<byte>>, x: nat)
    requires AllHarmless(a, x) && AllHarmless(b, x)
    ensures AllHarmless(a + b, x)
  {
    hide Harmless;
  }

  lemma HarmlessRest(a: seq<seq<byte>>, n: nat, x: nat)
    requires AllHarmless(a, x) && n <= |a|
    ensures AllHarmless(a[n..], x)
  {
    hide Harmless;
    assert forall i | 0 <= i < |a| - n :: a[n..][i] == a[n + i];
  }

  lemma UpdateHarmless(c: Config)
    requires WellFormed(c)
    ensures c.speed != B0 ==> AllHarmless([c.updateBaudRate], Rate(c.speed))
  {
    if c.speed != B0 {
      TemplateRate(c, Rate(c.speed));
    }
  }

  /** Answers of which the first n are harmless at 115200 and the others at the rate
      asked for. */
  lemma QuietAgrees(c: Config, s: seq<seq<byte>>, n: nat, late: nat)
    requires 0 < n && |s| == n + (if c.speed == B0 then 0 else 1) + |LateWord(c)|
    requires forall i | 0 <= i < n :: Harmless(s[i], 115200)
    requires forall i | n <= i < |s| :: Harmless(s[i], FinalRate(c))
    requires c.speed != B0 ==> RateAfter(s[n], 115200) == FinalRate(c)
    ensures TailAgrees(c, s, late) <==> FinalRate(c) == 115200 || n == 1 || LateWord(c) == []
  {
    hide LateWord, RateAfter;
    if c.speed != B0 && n > 1 {
      assert Harmless(s[1], 115200);
    }
  }

  lemma QuietTailParts(q: seq<seq<byte>>, c: Config, w: Answers)
    ensures var front := q + Resets(1 + w.early2 + w.late2);
            var back := When(c.speed != B0, [c.updateBaudRate]) + LateWord(c);
            && q + TailWord(c, w) == front + back
            && |front| == |q| + 1 + w.early2 + w.late2
            && (c.speed != B0 ==> (front + back)[|front|] == c.updateBaudRate)
  {
    hide LateWord, Resets;
  }

  /** Behind the end of the file, when nothing that was written before it changes
      the rate. */
  lemma QuietTail(q: seq<seq<byte>>, c: Config, w: Answers)
    requires WellFormed(c) && AllHarmless(q, 115200)
    ensures |q + TailWord(c, w)| > (if c.speed == B0 then 0 else 1) + |LateWord(c)|
    ensures TailAgrees(c, q + TailWord(c, w), w.late2) <==>
            FinalRate(c) == 115200 || |q| + w.early2 + w.late2 == 0 || !HasLate(c)
  {
    var front, upd := q + Resets(1 + w.early2 + w.late2), When(c.speed != B0, [c.updateBaudRate]);
    var y := FinalRate(c);
    ResetsHarmless(1 + w.early2 + w.late2, 115200);
    HarmlessJoin(q, Resets(1 + w.early2 + w.late2), 115200);
    LateWordHarmless(c, y);
    UpdateHarmless(c);
    HarmlessJoin(upd, LateWord(c), y);
    if c.speed != B0 {
      TemplateRate(c, 115200);
    }
    QuietTailParts(q, c, w);
    hide LateWord, Resets, HasLate, RateAfter, Harmless, AllHarmless, TailWord, TailAgrees, WellFormed;
    QuietJoin(front + (upd + LateWord(c)), front, upd + LateWord(c), y);
    QuietAgrees(c, q + TailWord(c, w), |front|, w.late2);
  }

  /** A first part harmless at 115200 and a second one harmless at y. */
  lemma QuietJoin(s: seq<seq<byte>>, a: seq<seq<byte>>, b: seq<seq<byte>>, y: nat)
    requires s == a + b && AllHarmless(a, 115200) && AllHarmless(b, y)
    ensures forall i | 0 <= i < |a| :: Harmless(s[i], 115200)
    ensures forall i | |a| <= i < |s| :: Harmless(s[i], y)
  {
    hide Harmless;
    assert forall i | 0 <= i < |a| :: s[i] == a[i];
    assert forall i | |a| <= i < |s| :: s[i] == b[i - |a|];
  }

  lemma FrontHarmless(c: Config, w: Answers)
    requires WellFormed(c) && DownloadRate(c) == 115200 && AllHarmless(w.downloads, 115200)
    ensures AllHarmless(FrontWord(c, w), 115200)
  {
    var r, u := Resets(1 + Expiries1(w)), When(c.useBaudrate && c.speed != B0, [c.updateBaudRate]);
    ResetsHarmless(1 + Expiries1(w), 115200);
    UpdateHarmless(c);
    MinidriverHarmless(115200);
    hide Resets, Harmless;
    HarmlessJoin([HCI_DOWNLOAD_MINIDRIVER], w.downloads, 115200);
    HarmlessJoin(r, u, 115200);
    HarmlessJoin(r + u, [HCI_DOWNLOAD_MINIDRIVER] + w.downloads, 115200);
  }

  lemma MinidriverHarmless(x: nat)
    ensures AllHarmless([HCI_DOWNLOAD_MINIDRIVER], x)
  {
  }

  /** The commands written before the end of the file and answered behind it. */
  lemma UnansweredQuiet(c: Config, w: Answers)
    requires WellFormed(c) && (Expiries1(w) == 0 || (DownloadRate(c) == 115200 && AllHarmless(w.downloads, 115200)))
    ensures TailAgrees(c, Unanswered(c, w), w.late2) <==>
            FinalRate(c) == 115200 || Expiries1(w) + w.early2 + w.late2 == 0 || !HasLate(c)
  {
    hide AllHarmless, TailAgrees, FrontWord, TailWord, HasLate;
    var n := |FrontWord(c, w)| - Expiries1(w);
    var q := FrontWord(c, w)[n..];
    if Expiries1(w) == 0 {
      NoneHarmless();
      assert q == [];
    } else {
      FrontHarmless(c, w);
      HarmlessRest(FrontWord(c, w), n, 115200);
    }
    QuietTail(q, c, w);
  }

  lemma NoneHarmless()
    ensures AllHarmless([], 115200)
  {
  }

  /** For a file of which no record changes the rate: exactly when no alarm expired
      before the early change of speed, and none at all before the last one if
      commands follow it, or the rate is the same all along. */
  lemma PlainFileAgreement(c: Config, w: Answers)
    requires WellFormed(c) && |w.downloads| == |w.replies|
    requires c.hcdFd > 0 ==> AllHarmless(w.downloads, DownloadRate(c))
    ensures AgreeThroughout(ExpandAll(Plan(c, w))) <==> InTime(c, w)
  {
    hide AgreeThroughout, ExpandAll, Plan, TailAgrees, Unanswered, HasLate, Harmless;
    BaudAgreement(c, w);
    if c.hcdFd > 0 && EarlyInTime(c, w) {
      UnansweredQuiet(c, w);
    }
  }

  /** Without expiries, for every option set and every file: they agree throughout
      exactly when no record of the file but the last changes the rate. */
  lemma AgreementWithoutExpiry(c: Config, w: Answers)
    requires WellFormed(c) && |w.downloads| == |w.replies| && Expiries1(w) + Expiries2(c, w) == 0
    ensures AgreeThroughout(ExpandAll(Plan(c, w))) <==>
            (c.hcdFd > 0 ==> forall i | 0 <= i < |w.downloads| - 1 :: Harmless(w.downloads[i], DownloadRate(c)))
  {
    hide AgreeThroughout, ExpandAll, Plan, TailAgrees, Unanswered, HasLate, Harmless;
    BaudAgreement(c, w);
    if c.hcdFd > 0 {
      UnansweredQuiet(c, w);
    }
  }

  /** An expiry before the early change of speed, for any options that ask for
      another rate for the download, and any file. */
  lemma EarlyExpiryLoses(c: Config, w: Answers)
    requires WellFormed(c) && |w.downloads| == |w.replies|
    requires c.useBaudrate && FinalRate(c) != 115200 && Expiries1(w) > 0
    ensures !AgreeThroughout(ExpandAll(Plan(c, w)))
  {
    hide AgreeThroughout, ExpandAll, Plan, RunPhases;
    LostEarly(c, w);
    AgreedRun(c, w);
  }

  // ---------- runs in which they do not agree ----------

  /** The options that ask for 3000000 for the download as well. */
  function FastConfig(): Config {
    Apply(INITIAL, Baudrate(3000000)).0.(useBaudrate := true)
  }

  lemma FastIs()
    ensures WellFormed(FastConfig()) && FastConfig().speed == B3000000
    ensures FastConfig().useBaudrate && FastConfig().hcdFd <= 0
  {
    hide SpeedFor, LittleEndian, Overwrite, Value;
    ApplyKeepsWellFormed(INITIAL, Baudrate(3000000));
    ApplySpeed(INITIAL, Baudrate(3000000));
    SpeedForRate(B3000000);
  }

  lemma BlankArePossible(c: Config, w: Answers)
    requires c.hcdFd <= 0 && w == BlankAnswers(w.early1, [0, 0])
    ensures Possible(c, w)
  {
  }

  /** A run in which they do not agree throughout: the alarm expires before the
      early change of speed. */
  lemma AgreementLost()
    ensures exists c: Config, w: Answers ::
      WellFormed(c) && Possible(c, w) && !InTime(c, w) && !AgreeThroughout(ExpandAll(Plan(c, w)))
  {
    hide AgreeThroughout, ExpandAll, Plan, FastConfig, WellFormed, Possible;
    var c, w := FastConfig(), BlankAnswers(1, [0, 0]);
    FastIs();
    BlankArePossible(c, w);
    EarlyExpiryLoses(c, w);
    assert !InTime(c, w);
  }

  /** A record that asks for 9600. */
  const UPDATE_RECORD: seq<byte> := [0x18, 0xfc, 0x06, 0, 0, 0x80, 0x25, 0, 0]

  lemma UpdateRecordDisturbs()
    ensures !Harmless([1] + UPDATE_RECORD, 115200)
  {
    var f := [1] + UPDATE_RECORD;
    assert f[6..10] == [0x80, 0x25, 0, 0];
    assert Value([0x80, 0x25, 0, 0]) < 115200 by {
      assert [0x80, 0x25, 0, 0][1..] == [0x25, 0, 0] && [0x25, 0, 0][1..] == [0, 0] && [0, 0][1..] == [0];
      assert Value([0]) == 0 && Value([0, 0]) == 0 && Value([0x25, 0, 0]) == 0x25;
    }
  }

  /** A file with that record, and an address to be written behind it. */
  function UpdateConfig(): Config {
    INITIAL.(hcdFd := 3, hcd := UPDATE_RECORD, no2bytes := true, bdaddrFlag := true)
  }

  function UpdateAnswers(): (w: Answers)
    ensures |w.downloads| == |w.replies|
  {
    BlankAnswers(1, [0, 0]).(downloads := [[1] + UPDATE_RECORD], replies := [NO_EVENT])
  }

  lemma UpdatePossible()
    ensures WellFormed(UpdateConfig()) && Possible(UpdateConfig(), UpdateAnswers())
  {
    var f, none: seq<seq<byte>> := [1] + UPDATE_RECORD, [];
    var r: seq<byte> := [];
    assert HasRecord(UPDATE_RECORD) && UPDATE_RECORD[..RecordSize(UPDATE_RECORD)] == UPDATE_RECORD;
    assert UPDATE_RECORD[RecordSize(UPDATE_RECORD)..] == r && Feeds(r, none, r);
    assert [f][1..] == none;
    assert Feeds(UPDATE_RECORD, [f], r);
  }

  lemma UpdateUnanswered()
    ensures Unanswered(UpdateConfig(), UpdateAnswers())[0] == [1] + UPDATE_RECORD
  {
    var c, w := UpdateConfig(), UpdateAnswers();
    hide Resets;
    var front := FrontWord(c, w);
    assert front == Resets(2) + [] + ([HCI_DOWNLOAD_MINIDRIVER] + [[1] + UPDATE_RECORD]);
    assert front[|front| - 1] == [1] + UPDATE_RECORD;
  }

  /** A run in which they do not agree although all expiries are in time for the
      options, and no record is answered before the end of the file that changes the
      rate: one is answered behind it. */
  lemma LateAnswerLoses()
    ensures exists c: Config, w: Answers ::
      && WellFormed(c) && Possible(c, w) && |w.downloads| == |w.replies|
      && InTime(c, w) && FileInOrder(c, w) && !AgreeThroughout(ExpandAll(Plan(c, w)))
  {
    var c, w := UpdateConfig(), UpdateAnswers();
    assert InTime(c, w) && FileInOrder(c, w) && c.hcdFd > 0 && LateWord(c) == [c.writeBdAddr];
    hide AgreeThroughout, ExpandAll, Plan, UpdateConfig, UpdateAnswers, WellFormed, Possible, Unanswered, Harmless;
    hide InTime, FileInOrder;
    UpdatePossible();
    UpdateUnanswered();
    UpdateRecordDisturbs();
    BaudAgreement(c, w);
  }
}
