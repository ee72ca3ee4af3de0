/** The line speed of the host against that of a controller that answers its
    commands in order, each when the host reads an event; switches to the
    requested rate once it has answered a baud rate update; keeps its rate
    across resets; and is back at 115200 when the patch is complete. */
module PatchramBaud {
  import opened Bytes
  import opened PatchramConfig
  import opened PatchramTrace
  import opened PatchramRuns

  /** Both ends of the line: commands not yet answered, the controller's rate,
      the host's speed, and whether these two were equal at every command
      written and every event read so far. */
  datatype Link = Link(pending: seq<seq<byte>>, rate: nat, line: Speed, agreed: bool)

  const POWER_ON: Link := Link([], 115200, B0, true)

  predicate IsBaudUpdate(f: seq<byte>) {
    |f| >= 10 && f[1] == 0x18 && f[2] == 0xfc
  }

  /** The rate the controller has when it has answered f. */
  function RateAfter(f: seq<byte>, rate: nat): nat {
    if IsBaudUpdate(f) then Value(f[6..10]) else rate
  }

  function Answer(l: Link): Link {
    if l.pending == [] then l
    else l.(pending := l.pending[1..], rate := RateAfter(l.pending[0], l.rate))
  }

  function Compare(l: Link): Link {
    l.(agreed := l.agreed && Rate(l.line) == l.rate)
  }

  function After(l: Link, io: Io): Link {
    match io
    case Send(frame, _) => Compare(l).(pending := l.pending + [frame])
    case Recv(_) => Answer(Compare(l))
    case SetSpeed(speed) => l.(line := speed)
    case EndOfFile => l.(rate := 115200)
    case Skip(_) => l
  }

  function Run(l: Link, t: seq<Io>): Link {
    if t == [] then l else After(Run(l, t[..|t| - 1]), t[|t| - 1])
  }

  lemma RunAppend(l: Link, t: seq<Io>, io: Io)
    ensures Run(l, t + [io]) == After(Run(l, t), io)
  {
    assert (t + [io])[..|t|] == t;
  }

  lemma {:induction false} RunJoin(l: Link, a: seq<Io>, b: seq<Io>)
    ensures Run(l, a + b) == Run(Run(l, a), b)
  {
    if b == [] {
      assert a + b == a;
    } else {
      var n := |b| - 1;
      RunJoin(l, a, b[..n]);
      RunAppend(l, a + b[..n], b[n]);
      assert a + b == a + b[..n] + [b[n]];
    }
  }

  predicate IsTransfer(io: Io) {
    io.Send? || io.Recv?
  }

  predicate SameRate(l: Link) {
    Rate(l.line) == l.rate
  }

  lemma AgreedSoFar(l: Link, t: seq<Io>, n: nat)
    requires n <= |t|
    ensures (forall i | 0 <= i < n && IsTransfer(t[..n][i]) :: SameRate(Run(l, t[..n][..i])))
            <==> (forall i | 0 <= i < n && IsTransfer(t[i]) :: SameRate(Run(l, t[..i])))
  {
    hide Run, SameRate;
    assert forall i | 0 <= i < n :: t[..n][..i] == t[..i] && t[..n][i] == t[i];
  }

  /** What agreed records: the speeds are equal at each transfer. */
  lemma {:induction false} AgreedMeans(l: Link, t: seq<Io>)
    ensures Run(l, t).agreed <==>
            l.agreed && forall i | 0 <= i < |t| && IsTransfer(t[i]) :: SameRate(Run(l, t[..i]))
  {
    if t != [] {
      var n := |t| - 1;
      AgreedMeans(l, t[..n]);
      AgreedSoFar(l, t, n);
    }
  }

  // ---------- phases ----------

  function RunPhase(l: Link, p: Phase): Link {
    Run(l, Expand(p))
  }

  function RunPhases(l: Link, ps: seq<Phase>): Link {
    if ps == [] then l else RunPhase(RunPhases(l, ps[..|ps| - 1]), ps[|ps| - 1])
  }

  lemma {:induction false} RunExpanded(l: Link, ps: seq<Phase>)
    ensures Run(l, ExpandAll(ps)) == RunPhases(l, ps)
  {
    if ps != [] {
      RunExpanded(l, ps[..|ps| - 1]);
      RunJoin(l, ExpandAll(ps[..|ps| - 1]), Expand(ps[|ps| - 1]));
    }
  }

  lemma {:induction false} PhasesJoin(l: Link, a: seq<Phase>, b: seq<Phase>)
    ensures RunPhases(l, a + b) == RunPhases(RunPhases(l, a), b)
  {
    if b == [] {
      assert a + b == a;
    } else {
      var n := |b| - 1;
      PhasesJoin(l, a, b[..n]);
      assert (a + b)[..|a + b| - 1] == a + b[..n] && (a + b)[|a + b| - 1] == b[n];
    }
  }

  lemma NoPhases(l: Link)
    ensures RunPhases(l, []) == l
  {
  }

  lemma OnePhase(l: Link, p: Phase)
    ensures RunPhases(l, [p]) == RunPhase(l, p)
  {
    assert [p][..0] == [];
  }

  lemma TwoPhasesRun(l: Link, p: Phase, q: Phase)
    ensures RunPhases(l, [p, q]) == RunPhase(RunPhase(l, p), q)
  {
    OnePhase(l, p);
    assert [p, q][..1] == [p];
  }

  lemma {:induction false} RunAlarms(l: Link, n: nat)
    ensures var r := Run(l, Alarms(n));
            && r.line == l.line && r.rate == l.rate
            && r.agreed == (l.agreed && (n == 0 || Rate(l.line) == l.rate))
            && |r.pending| == |l.pending| + n && l.pending <= r.pending
            && forall i | |l.pending| <= i < |r.pending| :: r.pending[i] == HCI_RESET
  {
    if n > 0 {
      RunAlarms(l, n - 1);
      RunAppend(l, Alarms(n - 1), Send(HCI_RESET, true));
    }
  }

  lemma RunReset(l: Link, early: nat, event: seq<byte>, late: nat)
    ensures RunPhase(l, Reset(early, event, late))
         == Run(After(Run(After(l, Send(HCI_RESET, false)), Alarms(early)), Recv(event)), Alarms(late))
  {
    var a, b, c, d := [Send(HCI_RESET, false)], Alarms(early), [Recv(event)], Alarms(late);
    RunJoin(l, a, b);
    RunJoin(l, a + b, c);
    RunJoin(l, a + b + c, d);
    OneStep(l, Send(HCI_RESET, false));
    OneStep(Run(l, a + b), Recv(event));
  }

  lemma OneStep(l: Link, io: Io)
    ensures Run(l, [io]) == After(l, io)
  {
    assert [io][..0] == [];
  }

  lemma RunExchange(l: Link, frame: seq<byte>, event: seq<byte>)
    ensures RunPhase(l, Exchange(frame, event)) == After(After(l, Send(frame, false)), Recv(event))
  {
    OneStep(l, Send(frame, false));
    RunAppend(l, [Send(frame, false)], Recv(event));
    assert [Send(frame, false)] + [Recv(event)] == Expand(Exchange(frame, event));
  }

  // ---------- agreement kept ----------

  /** Answering f leaves the rate at x. */
  predicate Harmless(f: seq<byte>, x: nat) {
    RateAfter(f, x) == x
  }

  /** Agreed so far, with both ends at rate x, and it will stay at x while the
      pending commands are answered. */
  predicate Quiet(l: Link, x: nat) {
    && l.agreed && l.rate == x && Rate(l.line) == x
    && forall i | 0 <= i < |l.pending| :: Harmless(l.pending[i], x)
  }

  lemma QuietExchange(l: Link, x: nat, frame: seq<byte>, event: seq<byte>)
    requires Quiet(l, x) && Harmless(frame, x)
    ensures var r := RunPhase(l, Exchange(frame, event));
            Quiet(r, x) && |r.pending| == |l.pending| && r.line == l.line
  {
    RunExchange(l, frame, event);
    var m := l.pending + [frame];
    assert forall i | 0 <= i < |l.pending| :: m[i] == l.pending[i];
    assert forall i | 0 <= i < |m| - 1 :: m[1..][i] == m[i + 1];
  }

  lemma QuietReset(l: Link, x: nat, early: nat, event: seq<byte>, late: nat)
    requires Quiet(l, x)
    ensures var r := RunPhase(l, Reset(early, event, late));
            Quiet(r, x) && |r.pending| == |l.pending| + early + late && r.line == l.line
  {
    hide Run, Alarms;
    RunReset(l, early, event, late);
    var a := After(l, Send(HCI_RESET, false));
    assert forall i | 0 <= i < |l.pending| :: a.pending[i] == l.pending[i];
    assert Harmless(HCI_RESET, x);
    RunAlarms(a, early);
    var b := Run(a, Alarms(early));
    assert forall i | 0 <= i < |b.pending| :: b.pending[i] == if i < |a.pending| then a.pending[i] else HCI_RESET;
    assert Quiet(b, x);
    var c := After(b, Recv(event));
    assert forall i | 0 <= i < |c.pending| :: c.pending[i] == b.pending[i + 1];
    RunAlarms(c, late);
    var d := Run(c, Alarms(late));
    assert forall i | 0 <= i < |d.pending| :: d.pending[i] == if i < |c.pending| then c.pending[i] else HCI_RESET;
  }

  lemma QuietStep(l: Link, x: nat, p: Phase)
    requires Quiet(l, x) && (p.Gap? || (p.Line? && Rate(p.speed) == x) || (p.Patched? && x == 115200))
    ensures Quiet(RunPhase(l, p), x) && RunPhase(l, p).pending == l.pending
  {
    OneStep(l, Expand(p)[0]);
  }

  /** Phases that cannot disturb rate x. */
  predicate Harmlessly(p: Phase, x: nat) {
    match p
    case Exchange(frame, _) => Harmless(frame, x)
    case Line(speed) => Rate(speed) == x
    case Patched => x == 115200
    case _ => true
  }

  /** How often the alarm expires during a phase. */
  function Extra(p: Phase): nat {
    if p.Reset? then p.early + p.late else 0
  }

  function ExtraAll(ps: seq<Phase>): nat {
    if ps == [] then 0 else ExtraAll(ps[..|ps| - 1]) + Extra(ps[|ps| - 1])
  }

  lemma QuietPhase(l: Link, x: nat, p: Phase)
    requires Quiet(l, x) && Harmlessly(p, x)
    ensures Quiet(RunPhase(l, p), x) && |RunPhase(l, p).pending| == |l.pending| + Extra(p)
  {
    match p {
      case Reset(early, event, late) => QuietReset(l, x, early, event, late);
      case Exchange(frame, event) => QuietExchange(l, x, frame, event);
      case _ => QuietStep(l, x, p);
    }
  }

  lemma {:induction false} QuietPhases(l: Link, x: nat, ps: seq<Phase>)
    requires Quiet(l, x) && forall i | 0 <= i < |ps| :: Harmlessly(ps[i], x)
    ensures Quiet(RunPhases(l, ps), x) && |RunPhases(l, ps).pending| == |l.pending| + ExtraAll(ps)
  {
    if ps != [] {
      QuietPhases(l, x, ps[..|ps| - 1]);
      QuietPhase(RunPhases(l, ps[..|ps| - 1]), x, ps[|ps| - 1]);
    }
  }

  // ---------- agreement lost ----------

  /** Agreed so far, but no longer at one rate. */
  predicate Broken(l: Link) {
    l.agreed && Rate(l.line) != l.rate
  }

  lemma {:induction false} StaysLost(l: Link, t: seq<Io>)
    requires !l.agreed
    ensures !Run(l, t).agreed
  {
    if t != [] {
      StaysLost(l, t[..|t| - 1]);
    }
  }

  lemma {:induction false} StaysLostPhases(l: Link, ps: seq<Phase>)
    requires !l.agreed
    ensures !RunPhases(l, ps).agreed
  {
    if ps != [] {
      StaysLostPhases(l, ps[..|ps| - 1]);
      StaysLost(RunPhases(l, ps[..|ps| - 1]), Expand(ps[|ps| - 1]));
    }
  }

  /** With the two ends at different rates, the next command is the end of it. */
  lemma LostAtCommand(l: Link, ps: seq<Phase>)
    requires Broken(l) && ps != [] && ps[0].Exchange?
    ensures !RunPhases(l, ps).agreed
  {
    hide RunPhases, Run;
    RunExchange(l, ps[0].frame, ps[0].event);
    OnePhase(l, ps[0]);
    PhasesJoin(l, [ps[0]], ps[1..]);
    assert [ps[0]] + ps[1..] == ps;
    StaysLostPhases(RunPhases(l, [ps[0]]), ps[1..]);
  }

  // ---------- the pieces of a run ----------

  lemma BeginQuiet(early: nat, event: seq<byte>, late: nat)
    ensures var r := RunPhases(POWER_ON, [Line(B115200), Reset(early, event, late)]);
            Quiet(r, 115200) && |r.pending| == early + late
  {
    hide RunPhases, Run;
    var l := RunPhase(POWER_ON, Line(B115200));
    OneStep(POWER_ON, SetSpeed(B115200));
    QuietReset(l, 115200, early, event, late);
    TwoPhasesRun(POWER_ON, Line(B115200), Reset(early, event, late));
  }

  lemma TemplateRate(c: Config, x: nat)
    requires WellFormed(c) && c.speed != B0
    ensures RateAfter(c.updateBaudRate, x) == Rate(c.speed)
  {
    assert c.updateBaudRate[6..10] == c.updateBaudRate[6..];
  }

  /** A change of speed with nothing else to be answered, or to the rate that
      is there already. */
  lemma BaudQuiet(l: Link, x: nat, c: Config, event: seq<byte>)
    requires WellFormed(c) && c.speed != B0
    requires Quiet(l, x) && (l.pending == [] || Rate(c.speed) == x)
    ensures var r := RunPhases(l, BaudPlan(c, event));
            Quiet(r, Rate(c.speed)) && |r.pending| == |l.pending|
  {
    hide RunPhases, Run;
    TemplateRate(c, x);
    TwoPhasesRun(l, Exchange(c.updateBaudRate, event), Line(c.speed));
    var m := RunPhase(l, Exchange(c.updateBaudRate, event));
    OneStep(m, SetSpeed(c.speed));
    if Rate(c.speed) == x {
      QuietExchange(l, x, c.updateBaudRate, event);
    } else {
      RunExchange(l, c.updateBaudRate, event);
    }
  }

  /** A change of speed while the answer to an earlier command is still to
      come: the host takes that one for the answer to its update. */
  lemma BaudBreaks(l: Link, x: nat, c: Config, event: seq<byte>)
    requires WellFormed(c) && c.speed != B0
    requires Quiet(l, x) && l.pending != [] && Rate(c.speed) != x
    ensures Broken(RunPhases(l, BaudPlan(c, event)))
  {
    hide RunPhases, Run;
    TwoPhasesRun(l, Exchange(c.updateBaudRate, event), Line(c.speed));
    var m := RunPhase(l, Exchange(c.updateBaudRate, event));
    OneStep(m, SetSpeed(c.speed));
    RunExchange(l, c.updateBaudRate, event);
    assert Harmless(l.pending[0], x);
    assert (l.pending + [c.updateBaudRate])[0] == l.pending[0];
  }

  /** Commands and their events, from a state in which both ends are at rate x: the
      controller answers the commands in the order in which they were written, and
      the ends agree exactly when no answer but the last changes the rate. */
  lemma {:induction false} ExchangesRun(l: Link, x: nat, fs: seq<seq<byte>>, es: seq<seq<byte>>)
    requires l.agreed && l.rate == x && Rate(l.line) == x && |fs| == |es|
    ensures var r, all := RunPhases(l, Exchanges(fs, es)), l.pending + fs;
            && (r.agreed <==> forall i | 0 <= i < |fs| - 1 :: Harmless(all[i], x))
            && (r.agreed ==>
                  && r.line == l.line && r.pending == all[|fs|..]
                  && r.rate == if fs == [] then x else RateAfter(all[|fs| - 1], x))
    decreases |fs|
  {
    hide RunPhases, Run, RateAfter;
    if fs == [] {
      NoPhases(l);
      assert (l.pending + fs)[0..] == l.pending;
    } else {
      var n := |fs| - 1;
      var m := RunPhases(l, Exchanges(fs[..n], es[..n]));
      ExchangesRun(l, x, fs[..n], es[..n]);
      OnePhase(m, Exchange(fs[n], es[n]));
      PhasesJoin(l, Exchanges(fs[..n], es[..n]), [Exchange(fs[n], es[n])]);
      RunExchange(m, fs[n], es[n]);
      if m.agreed {
        LastAnswer(l.pending, fs);
      } else {
        StaysLostPhases(m, [Exchange(fs[n], es[n])]);
        LastAnswer(l.pending, fs);
      }
    }
  }

  lemma LastAnswer(q: seq<seq<byte>>, fs: seq<seq<byte>>)
    requires fs != []
    ensures var n, all := |fs| - 1, q + fs;
            && (q + fs[..n])[n..] + [fs[n]] == all[n..]
            && all[n..][0] == all[n] && all[n..][1..] == all[n + 1..]
            && forall i | 0 <= i < n :: (q + fs[..n])[i] == all[i]
  {
    var n := |fs| - 1;
    assert q + fs == q + fs[..n] + [fs[n]];
  }

  /** With p commands waiting when the download begins, the answers to all records
      but the last p + 1 come before the last exchange of the download. None of
      them changes the rate. */
  predicate Undisturbed(ds: seq<seq<byte>>, x: nat, p: nat) {
    forall i | 0 <= i && i + p < |ds| - 1 :: Harmless(ds[i], x)
  }

  predicate AllHarmless(fs: seq<seq<byte>>, x: nat) {
    forall i | 0 <= i < |fs| :: Harmless(fs[i], x)
  }

  lemma AnsweredInTime(q: seq<seq<byte>>, ds: seq<seq<byte>>, x: nat)
    requires AllHarmless(q, x)
    ensures (forall i | 0 <= i < |ds| - 1 :: Harmless((q + ds)[i], x)) <==> Undisturbed(ds, x, |q|)
  {
    hide Harmless;
    var all := q + ds;
    assert forall i | 0 <= i < |q| :: all[i] == q[i];
    assert forall i | |q| <= i < |all| :: all[i] == ds[i - |q|];
    assert forall i | 0 <= i < |ds| :: ds[i] == all[i + |q|];
  }

  lemma DownloadsRun(l: Link, x: nat, ds: seq<seq<byte>>, rs: seq<seq<byte>>)
    requires Quiet(l, x) && |ds| == |rs|
    ensures var r := RunPhases(l, Exchanges(ds, rs));
            if Undisturbed(ds, x, |l.pending|) then r.agreed && Rate(r.line) == x && |r.pending| == |l.pending|
            else !r.agreed
  {
    hide RunPhases, RateAfter, Harmless, Undisturbed;
    ExchangesRun(l, x, ds, rs);
    AnsweredInTime(l.pending, ds, x);
  }

  lemma MaybeQuiet(l: Link, x: nat, b: bool, p: Phase)
    requires Quiet(l, x) && Harmlessly(p, x) && !p.Reset?
    ensures Quiet(RunPhases(l, When(b, [p])), x) && |RunPhases(l, When(b, [p])).pending| == |l.pending|
  {
    OnePhase(l, p);
    QuietPhase(l, x, p);
  }

  /** The patch up to the end of the file. */
  lemma DownloadPartRun(l: Link, x: nat, c: Config, m: seq<byte>, e: seq<byte>,
                        ds: seq<seq<byte>>, rs: seq<seq<byte>>)
    requires Quiet(l, x) && |ds| == |rs|
    ensures var r := RunPhases(l, DownloadPart(c, m, e, ds, rs));
            if Undisturbed(ds, x, |l.pending|) then r.agreed && Rate(r.line) == x && |r.pending| == |l.pending|
            else !r.agreed
  {
    hide RunPhases, Run, Quiet, Undisturbed;
    var a, b, d := [Exchange(HCI_DOWNLOAD_MINIDRIVER, m)], When(!c.no2bytes, [Gap(e)]), Exchanges(ds, rs);
    MaybeQuiet(l, x, true, Exchange(HCI_DOWNLOAD_MINIDRIVER, m));
    var l1 := RunPhases(l, a);
    MaybeQuiet(l1, x, !c.no2bytes, Gap(e));
    var l2 := RunPhases(l1, b);
    DownloadsRun(l2, x, ds, rs);
    PhasesJoin(l, a, b);
    PhasesJoin(l, a + b, d);
  }

  function DownloadPart(c: Config, m: seq<byte>, e: seq<byte>, ds: seq<seq<byte>>, rs: seq<seq<byte>>): seq<Phase>
    requires |ds| == |rs|
  {
    [Exchange(HCI_DOWNLOAD_MINIDRIVER, m)] + When(!c.no2bytes, [Gap(e)]) + Exchanges(ds, rs)
  }

  /** The end of the file, and the host's return to 115200. */
  function PatchedPart(c: Config): seq<Phase> {
    [Patched] + When(c.useBaudrate, [Line(B115200)])
  }

  /** Agreed so far, with both ends at 115200, whatever is still to be answered. */
  predicate AtStart(l: Link) {
    l.agreed && l.rate == 115200 && Rate(l.line) == 115200
  }

  lemma BackToStart(l: Link, c: Config)
    requires l.agreed && (Rate(l.line) == 115200 || c.useBaudrate)
    ensures AtStart(RunPhases(l, PatchedPart(c))) && RunPhases(l, PatchedPart(c)).pending == l.pending
  {
    hide RunPhases, Run;
    var m := RunPhase(l, Patched);
    OneStep(l, EndOfFile);
    OneStep(m, SetSpeed(B115200));
    OnePhase(l, Patched);
    if c.useBaudrate {
      TwoPhasesRun(l, Patched, Line(B115200));
      assert [Patched] + [Line(B115200)] == [Patched, Line(B115200)];
    } else {
      assert [Patched] + [] == [Patched];
    }
  }

  lemma TemplatesHarmless(c: Config, x: nat)
    requires WellFormed(c)
    ensures Harmless(c.writeBdAddr, x) && Harmless(HCI_WRITE_SLEEP_MODE, x) && Harmless(c.scoPcmInt, x)
            && Harmless(c.pcmDataFormat, x) && Harmless(c.i2sParam, x)
  {
  }

  /** The options that ask for a command behind the last change of speed. */
  predicate HasLate(c: Config) {
    c.bdaddrFlag || c.enableLpm || c.scopcm || c.i2s
  }

  lemma LateAgreement(l: Link, x: nat, c: Config, w: Answers)
    requires WellFormed(c) && (Quiet(l, x) || Broken(l))
    ensures RunPhases(l, LatePlan(c, w.bdaddr, w.sleep, w.sco, w.pcm, w.i2s)).agreed <==>
            Quiet(l, x) || !HasLate(c)
  {
    var late := LatePlan(c, w.bdaddr, w.sleep, w.sco, w.pcm, w.i2s);
    LateShape(c, w);
    if Quiet(l, x) {
      forall i | 0 <= i < |late|
        ensures Harmlessly(late[i], x)
      {
        LateHarmless(c, w, x, i);
      }
      QuietPhases(l, x, late);
    } else if HasLate(c) {
      LostAtCommand(l, late);
    }
  }

  lemma LateShape(c: Config, w: Answers)
    ensures var late := LatePlan(c, w.bdaddr, w.sleep, w.sco, w.pcm, w.i2s);
            && (late == [] <==> !HasLate(c))
            && forall i | 0 <= i < |late| :: late[i].Exchange?
  {
  }

  lemma LateHarmless(c: Config, w: Answers, x: nat, i: nat)
    requires WellFormed(c) && i < |LatePlan(c, w.bdaddr, w.sleep, w.sco, w.pcm, w.i2s)|
    ensures Harmlessly(LatePlan(c, w.bdaddr, w.sleep, w.sco, w.pcm, w.i2s)[i], x)
  {
    TemplatesHarmless(c, x);
    hide Harmless;
  }

  // ---------- the speed at the end ----------

  predicate HasLine(ps: seq<Phase>) {
    ps != [] && (ps[|ps| - 1].Line? || HasLine(ps[..|ps| - 1]))
  }

  lemma {:induction false} LineJoin(a: seq<Phase>, b: seq<Phase>)
    ensures LineOf(a + b) == if HasLine(b) then LineOf(b) else LineOf(a)
  {
    if b == [] {
      assert a + b == a;
    } else {
      var n := |b| - 1;
      LineJoin(a, b[..n]);
      assert (a + b)[..|a + b| - 1] == a + b[..n] && (a + b)[|a + b| - 1] == b[n];
    }
  }

  lemma {:induction false} NoLine(ps: seq<Phase>)
    requires forall i | 0 <= i < |ps| :: !ps[i].Line?
    ensures !HasLine(ps)
  {
    if ps != [] {
      NoLine(ps[..|ps| - 1]);
    }
  }

  lemma BaudLine(c: Config, event: seq<byte>)
    ensures HasLine(BaudPlan(c, event)) && LineOf(BaudPlan(c, event)) == c.speed
  {
  }

  lemma PatchLine(c: Config, m: seq<byte>, e: seq<byte>, ds: seq<seq<byte>>, rs: seq<seq<byte>>,
                  early: nat, event: seq<byte>, late: nat)
    requires |ds| == |rs|
    ensures var p := PatchPlan(c, m, e, ds, rs, early, event, late);
            HasLine(p) == c.useBaudrate && (c.useBaudrate ==> LineOf(p) == B115200)
  {
    var p, reset := PatchPlan(c, m, e, ds, rs, early, event, late), Reset(early, event, late);
    var a := [Exchange(HCI_DOWNLOAD_MINIDRIVER, m)] + When(!c.no2bytes, [Gap(e)]) + Exchanges(ds, rs) + [Patched];
    assert p == a + When(c.useBaudrate, [Line(B115200)]) + [reset];
    assert p[..|p| - 1] == a + When(c.useBaudrate, [Line(B115200)]);
    if c.useBaudrate {
      assert (a + [Line(B115200)])[|a|] == Line(B115200);
    } else {
      ExchangesAreExchanges(ds, rs);
      assert a + [] == a;
      NoLine(a);
    }
  }

  lemma {:induction false} ExchangesAreExchanges(ds: seq<seq<byte>>, rs: seq<seq<byte>>)
    requires |ds| == |rs|
    ensures forall i | 0 <= i < |Exchanges(ds, rs)| :: Exchanges(ds, rs)[i].Exchange?
    decreases |ds|
  {
    if ds != [] {
      ExchangesAreExchanges(ds[..|ds| - 1], rs[..|rs| - 1]);
    }
  }

  /** However often the alarm expires, the line ends at the rate asked for, or
      at 115200 when none was acceptable. */
  lemma FinalSpeed(c: Config, w: Answers)
    requires |w.downloads| == |w.replies|
    ensures LineOf(Plan(c, w)) == if c.speed == B0 then B115200 else c.speed
  {
    hide LineOf, HasLine, PatchPlan, BaudPlan, LatePlan;
    var a := [Line(B115200), Reset(w.early1, w.reset1, w.late1)];
    var b := When(c.useBaudrate && c.speed != B0, BaudPlan(c, w.baud1));
    var d := When(c.hcdFd > 0,
                  PatchPlan(c, w.minidriver, w.extra, w.downloads, w.replies, w.early2, w.reset2, w.late2));
    var e := When(c.speed != B0, BaudPlan(c, w.baud2));
    var late := LatePlan(c, w.bdaddr, w.sleep, w.sco, w.pcm, w.i2s);
    LineJoin(a, b);
    LineJoin(a + b, d);
    LineJoin(a + b + d, e);
    LineJoin(a + b + d + e, late);
    StartLine(w.early1, w.reset1, w.late1);
    BaudLine(c, w.baud1);
    BaudLine(c, w.baud2);
    PatchLine(c, w.minidriver, w.extra, w.downloads, w.replies, w.early2, w.reset2, w.late2);
    LateShape(c, w);
    NoLine(late);
    NoLine([]);
  }

  lemma StartLine(early: nat, event: seq<byte>, late: nat)
    ensures LineOf([Line(B115200), Reset(early, event, late)]) == B115200
  {
    assert [Line(B115200), Reset(early, event, late)][..1] == [Line(B115200)];
  }
}
