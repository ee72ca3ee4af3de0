/** What holds of every call, and of every sequence of calls, of
    bluedroid/bluetooth.c. */
module AdapterRuns {
  import opened Bytes
  import opened AdapterSpec

  // ---------- what bt_enable returns ----------

  /** Power is not needed or set_bluetooth_power said it is set, and hciattach is
      started. */
  predicate Reaches(b: Build, s: State, e: EnableAnswers)
    requires Cached(s)
  {
    MaybeSetPower(b, s, true, e.on).ret == 0 && e.attach
  }

  /** The attempt that ends the loop, if any does. */
  function LastAttempt(e: EnableAnswers): Option<Attempt> {
    var k := Decisive(e.attempts, 0, ATTEMPTS);
    if k < ATTEMPTS then Some(e.attempts(k)) else None
  }

  predicate Answered(e: EnableAnswers, a: Answer) {
    LastAttempt(e).Some? && LastAttempt(e).value.Socket? && LastAttempt(e).value.answer == a
  }

  /** Attempt number k had answer a, and all before it failed. */
  predicate FirstAnswer(e: EnableAnswers, k: nat, a: Answer) {
    && k < 100 && e.attempts(k).Socket? && e.attempts(k).answer == a
    && forall i | 0 <= i < k :: e.attempts(i).Socket? && e.attempts(i).answer == Failed
  }

  lemma {:induction false} DecisiveIs(attempts: nat -> Attempt, k: nat, limit: nat, r: nat)
    requires k <= r < limit && Decides(attempts(r)) && forall i | k <= i < r :: !Decides(attempts(i))
    ensures Decisive(attempts, k, limit) == r
    decreases limit - k
  {
    if k < r {
      DecisiveIs(attempts, k + 1, limit, r);
    }
  }

  lemma AnsweredMeans(e: EnableAnswers, a: Answer)
    requires a != Failed
    ensures Answered(e, a) <==> exists k :: FirstAnswer(e, k, a)
  {
    hide Decisive;
    if Answered(e, a) {
      assert FirstAnswer(e, Decisive(e.attempts, 0, ATTEMPTS), a);
    }
    if k :| FirstAnswer(e, k, a) {
      DecisiveIs(e.attempts, 0, ATTEMPTS, k);
    }
  }

  lemma EnableResult(b: Build, s: State, e: EnableAnswers)
    requires Cached(s)
    ensures Enable(b, s, e).ret == 0 <==>
            Reaches(b, s, e) && (Answered(e, Up) || (Answered(e, Already) && e.daemon))
    ensures Enable(b, s, e).ret == 0 || Enable(b, s, e).ret == -1
  {
    hide Decisive, Tries;
  }

  /** bt_enable returns 0 exactly when it gets to the loop, and within the
      attempts the first HCIDEVUP that did not fail returned 0, or said that the
      device is up already and bluetoothd then started; otherwise it returns -1. */
  lemma EnableReturns(b: Build, s: State, e: EnableAnswers)
    requires Cached(s)
    ensures Enable(b, s, e).ret == 0 <==>
            && Reaches(b, s, e)
            && ((exists k :: FirstAnswer(e, k, Up)) || ((exists k :: FirstAnswer(e, k, Already)) && e.daemon))
    ensures Enable(b, s, e).ret == 0 || Enable(b, s, e).ret == -1
  {
    hide Enable, Reaches, Answered;
    EnableResult(b, s, e);
    AnsweredMeans(e, Up);
    AnsweredMeans(e, Already);
  }

  // ---------- the contract of bt_enable ----------

  /** How a build starts hciattach, and how it stops it. */
  function HciattachStarts(b: Build, ok: bool): Sys {
    match b.byProperty
    case true => Property("bluetooth.hciattach", "true", ok)
    case false => Property("ctl.start", "hciattach", ok)
  }

  function HciattachStops(b: Build, ok: bool): Sys {
    match b.byProperty
    case true => Property("bluetooth.hciattach", "false", ok)
    case false => Property("ctl.stop", "hciattach", ok)
  }

  predicate HasPower(s: State, c: char) {
    s.rfkillId >= 0 && s.rfkillId in s.states && s.states[s.rfkillId] == c
  }

  predicate CameUp(x: Sys) {
    x.DevUp? && x.answer != Failed
  }

  predicate WentDown(x: Sys) {
    x.DevDown? && x.ok
  }

  /** What bt_enable is for has been done: the state file says that power is on,
      hciattach is started, the interface came up, and bluetoothd is started. */
  ghost predicate BroughtUp(b: Build, f: Effect) {
    && (b.rfkill ==> HasPower(f.state, '1'))
    && HciattachStarts(b, true) in f.trace
    && SomeUp(f.trace)
    && Property("ctl.start", "bluetoothd", true) in f.trace
  }

  /** The write of the power-on step took no byte, and power was not on. */
  predicate PowerMissed(b: Build, s: State, e: EnableAnswers)
    requires Cached(s)
  {
    b.rfkill && e.on.wrote != 1 && !HasPower(Lookup(s, e.on.types), '1')
  }

  lemma PowerOnLeft(b: Build, s: State, e: EnableAnswers)
    requires Cached(s) && MaybeSetPower(b, s, true, e.on).ret == 0
    ensures (b.rfkill ==> HasPower(MaybeSetPower(b, s, true, e.on).state, '1')) <==> !PowerMissed(b, s, e)
  {
    hide Least;
  }

  ghost predicate SomeUp(t: seq<Sys>) {
    exists x :: x in t && CameUp(x)
  }

  lemma SomeUpJoin(a: seq<Sys>, b: seq<Sys>)
    ensures SomeUp(a + b) <==> SomeUp(a) || SomeUp(b)
  {
    if SomeUp(a) {
      var x :| x in a && CameUp(x);
      assert x in a + b;
    }
    if SomeUp(b) {
      var x :| x in b && CameUp(x);
      assert x in a + b;
    }
  }

  lemma TryUp(a: Attempt)
    ensures SomeUp(TryOnce(a)) <==> a.Socket? && Decides(a)
  {
    if a.Socket? && Decides(a) {
      assert DevUp(a.fd, a.answer) in TryOnce(a);
    }
  }

  lemma {:induction false} TriesUp(attempts: nat -> Attempt, k: nat, limit: nat)
    requires k <= limit
    ensures var r := Decisive(attempts, k, limit);
            SomeUp(Tries(attempts, k, limit)) <==> r < limit && attempts(r).Socket?
    decreases limit - k
  {
    hide SomeUp, TryOnce;
    if k < limit {
      TryUp(attempts(k));
      if Decides(attempts(k)) {
        assert TryOnce(attempts(k)) + [] == TryOnce(attempts(k));
      } else {
        TriesUp(attempts, k + 1, limit);
        SomeUpJoin(TryOnce(attempts(k)), Tries(attempts, k + 1, limit));
      }
    } else {
      NoneUp();
    }
  }

  lemma NoneUp()
    ensures !SomeUp([])
  {
  }

  /** The system calls of a piece that do not count for the contract. */
  predicate Quiet(t: seq<Sys>) {
    forall x | x in t :: !x.Property? && !CameUp(x) && !WentDown(x)
  }

  lemma PowerQuiet(b: Build, s: State, on: bool, a: PowerAnswer)
    requires Cached(s)
    ensures Quiet(MaybeSetPower(b, s, on, a).trace)
  {
  }

  lemma EnableDone(b: Build, s: State, e: EnableAnswers)
    requires Cached(s)
    ensures BroughtUp(b, Enable(b, s, e)) <==>
            && Reaches(b, s, e) && (Answered(e, Up) || Answered(e, Already))
            && e.daemon && !PowerMissed(b, s, e)
  {
    hide MaybeSetPower, Tries, Decisive, HasPower, PowerMissed;
    var on := MaybeSetPower(b, s, true, e.on);
    PowerReturns(b, s, true, e.on);
    PowerQuiet(b, s, true, e.on);
    CachedStays(b, s, true, e.on);
    PowerQuiet(b, on.state, false, e.off);
    TriesWithoutPower(e.attempts, 0, ATTEMPTS);
    TriesUp(e.attempts, 0, ATTEMPTS);
    hide Cached;
    if on.ret == 0 {
      PowerOnLeft(b, s, e);
    }
    NotDaemon(b);
  }

  lemma NotDaemon(b: Build)
    ensures forall ok :: AttachProperty(b, ok) != Property("ctl.start", "bluetoothd", true)
    ensures forall ok :: DetachProperty(b, ok) != Property("ctl.stop", "bluetoothd", true)
  {
    assert |"hciattach"| != |"bluetoothd"| && "ctl.start" != "bluetooth.hciattach";
    assert "ctl.stop" != "bluetooth.hciattach";
  }

  /** The contract in the header, 0 exactly on success, is kept except when
      HCIDEVUP returned 0 and bluetoothd then did not start, and when all went
      well but power was not on and the write that was to set it took no byte. */
  lemma HeaderContract(b: Build, s: State, e: EnableAnswers)
    requires Cached(s)
    ensures (Enable(b, s, e).ret == 0 <==> BroughtUp(b, Enable(b, s, e))) <==>
            && !(Reaches(b, s, e) && Answered(e, Up) && !e.daemon)
            && !(Reaches(b, s, e) && (Answered(e, Up) || Answered(e, Already)) && e.daemon && PowerMissed(b, s, e))
  {
    hide Enable, Reaches, Answered, PowerMissed, BroughtUp;
    EnableResult(b, s, e);
    EnableDone(b, s, e);
  }

  // ---------- power ----------

  lemma PowerTrace(b: Build, s: State, on: bool, a: PowerAnswer)
    requires Cached(s)
    ensures var t := MaybeSetPower(b, s, on, a).trace;
            && (PowerRequest(on) in t <==> b.rfkill) && PowerRequest(!on) !in t
            && forall x | x in t :: x.PowerRequest? || x.PowerWrite?
  {
  }

  lemma {:induction false} TriesWithoutPower(attempts: nat -> Attempt, k: nat, limit: nat)
    ensures forall x | x in Tries(attempts, k, limit) :: x.OpenSocket? || x.DevUp? || x.CloseSocket?
    decreases limit - k
  {
    if k < limit && !Decides(attempts(k)) {
      TriesWithoutPower(attempts, k + 1, limit);
    }
  }

  /** bt_enable asks for power off exactly when it had power on and then
      hciattach was not started, or no attempt ended the loop, or bluetoothd was
      not started. It does not when no socket could be had. */
  lemma {:induction false} PowerOffRequested(b: Build, s: State, e: EnableAnswers)
    requires Cached(s)
    ensures PowerRequest(false) in Enable(b, s, e).trace <==>
            b.rfkill && MaybeSetPower(b, s, true, e.on).ret == 0
            && (!e.attach || LastAttempt(e).None? || (LastAttempt(e).value.Socket? && !e.daemon))
  {
    hide MaybeSetPower, Tries, Decisive;
    var on := MaybeSetPower(b, s, true, e.on);
    PowerReturns(b, s, true, e.on);
    PowerTrace(b, s, true, e.on);
    CachedStays(b, s, true, e.on);
    PowerTrace(b, on.state, false, e.off);
    TriesWithoutPower(e.attempts, 0, ATTEMPTS);
    hide Cached;
  }

  lemma PowerReturns(b: Build, s: State, on: bool, a: PowerAnswer)
    requires Cached(s)
    ensures MaybeSetPower(b, s, on, a).ret == 0 || MaybeSetPower(b, s, on, a).ret == -1
  {
  }

  // ---------- the order of the steps ----------

  /** The system calls that change something outside: power, daemons, and the
      interface when it comes up or is taken down. */
  predicate IsStep(x: Sys) {
    x.Property? || x.PowerRequest? || CameUp(x) || x.DevDown?
  }

  function Steps(t: seq<Sys>): seq<Sys>
    decreases |t|
  {
    if t == [] then [] else (if IsStep(t[0]) then [t[0]] else []) + Steps(t[1..])
  }

  lemma {:induction false} StepsJoin(a: seq<Sys>, b: seq<Sys>)
    ensures Steps(a + b) == Steps(a) + Steps(b)
    decreases |a|
  {
    if a == [] {
      assert a + b == b;
    } else {
      assert (a + b)[0] == a[0] && (a + b)[1..] == a[1..] + b;
      StepsJoin(a[1..], b);
      Associative(if IsStep(a[0]) then [a[0]] else [], Steps(a[1..]), Steps(b));
    }
  }

  lemma {:induction false} StepsIn(t: seq<Sys>, x: Sys)
    ensures x in Steps(t) <==> x in t && IsStep(x)
    decreases |t|
  {
    if t != [] {
      StepsIn(t[1..], x);
      assert x in t <==> x == t[0] || x in t[1..];
    }
  }

  lemma StepsOne(x: Sys)
    ensures Steps([x]) == if IsStep(x) then [x] else []
  {
    assert [x][1..] == [];
  }

  lemma StepsPower(b: Build, s: State, on: bool, a: PowerAnswer)
    requires Cached(s)
    ensures Steps(MaybeSetPower(b, s, on, a).trace) == When(b.rfkill, [PowerRequest(on)])
  {
    var t := MaybeSetPower(b, s, on, a).trace;
    StepsOne(PowerRequest(on));
    if |t| == 2 {
      assert t == [t[0]] + [t[1]];
      StepsJoin([t[0]], [t[1]]);
      StepsOne(t[1]);
    }
  }

  lemma StepsOnce(a: Attempt)
    ensures Steps(TryOnce(a)) == if a.Socket? && a.answer != Failed then [DevUp(a.fd, a.answer)] else []
  {
    match a {
      case NoSocket => StepsOne(OpenSocket(None));
      case Socket(fd, answer) =>
        StepsOne(OpenSocket(Some(fd)));
        StepsOne(DevUp(fd, answer));
        StepsOne(CloseSocket(fd));
        StepsJoin([OpenSocket(Some(fd))], [DevUp(fd, answer)]);
        StepsJoin([OpenSocket(Some(fd))] + [DevUp(fd, answer)], [CloseSocket(fd)]);
        assert [OpenSocket(Some(fd))] + [DevUp(fd, answer)] == [OpenSocket(Some(fd)), DevUp(fd, answer)];
        assert TryOnce(a) == [OpenSocket(Some(fd)), DevUp(fd, answer)] + When(answer == Failed, [CloseSocket(fd)]);
    }
  }

  lemma {:induction false} StepsTries(attempts: nat -> Attempt, k: nat, limit: nat)
    requires k <= limit
    ensures var r := Decisive(attempts, k, limit);
            Steps(Tries(attempts, k, limit)) ==
            if r < limit && attempts(r).Socket? then [DevUp(attempts(r).fd, attempts(r).answer)] else []
    decreases limit - k
  {
    hide TryOnce, Steps;
    if k < limit {
      StepsOnce(attempts(k));
      if Decides(attempts(k)) {
        assert TryOnce(attempts(k)) + [] == TryOnce(attempts(k));
      } else {
        StepsTries(attempts, k + 1, limit);
        StepsJoin(TryOnce(attempts(k)), Tries(attempts, k + 1, limit));
      }
    } else {
      NoSteps();
    }
  }

  lemma NoSteps()
    ensures Steps([]) == []
  {
  }

  /** The steps of bt_enable, in order, on each of its paths. */
  function EnableSteps(b: Build, s: State, e: EnableAnswers): seq<Sys>
    requires Cached(s)
  {
    var on, off := When(b.rfkill, [PowerRequest(true)]), When(b.rfkill, [PowerRequest(false)]);
    if MaybeSetPower(b, s, true, e.on).ret != 0 then on
    else if !e.attach then on + [HciattachStarts(b, false)] + off
    else match LastAttempt(e)
      case None => on + [HciattachStarts(b, true)] + [Property("ctl.stop", "hciattach", e.stop)] + off
      case Some(NoSocket) => on + [HciattachStarts(b, true)]
      case Some(Socket(fd, answer)) =>
        on + [HciattachStarts(b, true)] + [DevUp(fd, answer)] + [Property("ctl.start", "bluetoothd", e.daemon)]
        + When(!e.daemon, off)
  }

  /** bt_enable turns power on first, then starts hciattach, waits for the interface
      and starts bluetoothd; and on each failure undoes what the code undoes. */
  lemma EnableInOrder(b: Build, s: State, e: EnableAnswers)
    requires Cached(s)
    ensures Steps(Enable(b, s, e).trace) == EnableSteps(b, s, e)
  {
    hide MaybeSetPower, Tries, Decisive, Steps;
    var on := MaybeSetPower(b, s, true, e.on);
    PowerReturns(b, s, true, e.on);
    CachedStays(b, s, true, e.on);
    StepsPower(b, s, true, e.on);
    StepsPower(b, on.state, false, e.off);
    if on.ret == 0 {
      var off, attach := MaybeSetPower(b, on.state, false, e.off), AttachProperty(b, e.attach);
      assert attach == HciattachStarts(b, e.attach);
      StepsOne(attach);
      StepsJoin(on.trace, [attach]);
      StepsJoin(on.trace + [attach], off.trace);
      if e.attach {
        var tries := Tries(e.attempts, 0, ATTEMPTS);
        StepsTries(e.attempts, 0, ATTEMPTS);
        StepsJoin(on.trace + [attach], tries);
        StepsBehind(on.trace + [attach] + tries, off.trace, Property("ctl.stop", "hciattach", e.stop));
        StepsBehind(on.trace + [attach] + tries, off.trace, Property("ctl.start", "bluetoothd", e.daemon));
        hide Cached, AttachProperty, HciattachStarts;
      }
    }
  }

  /** A property set behind t, then a piece u if there is one, and a socket closed. */
  lemma StepsBehind(t: seq<Sys>, u: seq<Sys>, x: Sys)
    requires x.Property?
    ensures forall fd :: Steps(t + [x] + [CloseSocket(fd)]) == Steps(t) + [x]
    ensures forall fd :: Steps(t + [x] + u + [CloseSocket(fd)]) == Steps(t) + [x] + Steps(u)
  {
    hide Steps;
    StepsOne(x);
    StepsJoin(t, [x]);
    StepsJoin(t + [x], u);
    forall fd
      ensures Steps(t + [x] + [CloseSocket(fd)]) == Steps(t) + [x]
      ensures Steps(t + [x] + u + [CloseSocket(fd)]) == Steps(t) + [x] + Steps(u)
    {
      StepsOne(CloseSocket(fd));
      StepsJoin(t + [x], [CloseSocket(fd)]);
      StepsJoin(t + [x] + u, [CloseSocket(fd)]);
    }
  }

  /** Which property bt_enable sets, by the build, and when it stops hciattach. */
  lemma EnableProperties(b: Build, s: State, e: EnableAnswers)
    requires Cached(s)
    ensures var t, reached := Enable(b, s, e).trace, MaybeSetPower(b, s, true, e.on).ret == 0;
            && (Property("ctl.start", "hciattach", e.attach) in t <==> reached && !b.byProperty)
            && (Property("bluetooth.hciattach", "true", e.attach) in t <==> reached && b.byProperty)
            && (forall ok :: Property("ctl.stop", "hciattach", ok) in t <==>
                             reached && e.attach && LastAttempt(e).None? && ok == e.stop)
  {
    hide MaybeSetPower, LastAttempt, Enable, Steps;
    var t := Enable(b, s, e).trace;
    EnableInOrder(b, s, e);
    StepsIn(t, Property("ctl.start", "hciattach", e.attach));
    StepsIn(t, Property("bluetooth.hciattach", "true", e.attach));
    forall ok
      ensures Property("ctl.stop", "hciattach", ok) in t <==> Property("ctl.stop", "hciattach", ok) in Steps(t)
    {
      StepsIn(t, Property("ctl.stop", "hciattach", ok));
    }
    OtherNames();
  }

  lemma OtherNames()
    ensures "ctl.start" != "bluetooth.hciattach" && "ctl.start" != "ctl.stop" && "ctl.stop" != "bluetooth.hciattach"
    ensures "hciattach" != "bluetoothd" && "hciattach" != "true" && "hciattach" != "false"
  {
    assert |"ctl.start"| != |"bluetooth.hciattach"| && |"ctl.start"| != |"ctl.stop"|;
    assert |"ctl.stop"| != |"bluetooth.hciattach"| && |"hciattach"| != |"bluetoothd"|;
    assert |"hciattach"| != |"true"| && |"hciattach"| != |"false"|;
  }

  /** The loop runs out exactly after 100 attempts that failed. */
  lemma TimeoutMeans(e: EnableAnswers)
    ensures LastAttempt(e).None? <==> forall k | 0 <= k < 100 :: e.attempts(k).Socket? && e.attempts(k).answer == Failed
  {
    if LastAttempt(e).None? {
      forall k | 0 <= k < 100
        ensures e.attempts(k).Socket? && e.attempts(k).answer == Failed
      {
        NoneDecides(e.attempts, 0, ATTEMPTS, k);
      }
    } else {
      hide Decisive;
      var k := Decisive(e.attempts, 0, ATTEMPTS);
      assert Decides(e.attempts(k));
    }
  }

  /** The files whose type is taken for that of the adapter. */
  lemma BluetoothTypes(t: string)
    ensures IsBluetooth(Some("bluetooth" + t)) && !IsBluetooth(None)
    ensures IsBluetooth(Some(t)) <==> |t| >= 9 && t[..9] == "bluetooth"
  {
  }

  // ---------- the contract of bt_disable ----------

  /** The steps of bt_disable, in order, on each of its paths. */
  function DisableSteps(b: Build, d: DisableAnswers): seq<Sys> {
    if !d.stopDaemon then [Property("ctl.stop", "bluetoothd", false)]
    else if d.socket.None? then [Property("ctl.stop", "bluetoothd", true)]
    else
      [Property("ctl.stop", "bluetoothd", true)] + [DevDown(d.socket.value, d.down)] + [HciattachStops(b, d.detach)]
      + When(d.detach && b.rfkill, [PowerRequest(false)])
  }

  lemma DisableInOrder(b: Build, s: State, d: DisableAnswers)
    requires Cached(s)
    ensures Steps(Disable(b, s, d).trace) == DisableSteps(b, d)
  {
    hide MaybeSetPower, Steps;
    var stop := Property("ctl.stop", "bluetoothd", d.stopDaemon);
    StepsOne(stop);
    if d.stopDaemon {
      var sock := OpenSocket(d.socket);
      StepsOne(sock);
      StepsJoin([stop], [sock]);
      if d.socket.Some? {
        var fd, off := d.socket.value, MaybeSetPower(b, s, false, d.off);
        var down, detach := DevDown(fd, d.down), DetachProperty(b, d.detach);
        assert detach == HciattachStops(b, d.detach);
        StepsOne(down);
        StepsOne(detach);
        StepsOne(CloseSocket(fd));
        StepsPower(b, s, false, d.off);
        StepsJoin([sock], [down]);
        StepsJoin([sock] + [down], [detach]);
        StepsJoin([stop], [sock] + [down] + [detach]);
        var all := [stop] + ([sock] + [down] + [detach]);
        StepsJoin(all, [CloseSocket(fd)]);
        StepsJoin(all, off.trace);
        StepsJoin(all + off.trace, [CloseSocket(fd)]);
        hide Cached, DetachProperty, HciattachStops;
        assert [sock] + [down] + [detach] == [sock, down, detach];
      }
    }
  }

  /** bt_disable gets to the power step. */
  predicate Stops(d: DisableAnswers) {
    d.stopDaemon && d.socket.Some? && d.detach
  }

  /** bt_disable returns 0 exactly when bluetoothd and hciattach stop, there is a
      socket and the power step, if there is one, succeeds; otherwise -1. What
      HCIDEVDOWN returns does not matter. */
  lemma DisableReturns(b: Build, s: State, d: DisableAnswers)
    requires Cached(s)
    ensures Disable(b, s, d).ret == 0 <==> Stops(d) && MaybeSetPower(b, s, false, d.off).ret == 0
    ensures Disable(b, s, d).ret == 0 || Disable(b, s, d).ret == -1
  {
    hide MaybeSetPower;
    PowerReturns(b, s, false, d.off);
  }

  ghost predicate SomeDown(t: seq<Sys>) {
    exists x :: x in t && WentDown(x)
  }

  /** What bt_disable is for has been done: bluetoothd is stopped, the interface
      went down, hciattach is stopped, and the state file says that power is
      off. */
  ghost predicate BroughtDown(b: Build, f: Effect) {
    && Property("ctl.stop", "bluetoothd", true) in f.trace
    && SomeDown(f.trace)
    && HciattachStops(b, true) in f.trace
    && (b.rfkill ==> HasPower(f.state, '0'))
  }

  predicate PowerOffLeft(b: Build, s: State, d: DisableAnswers)
    requires Cached(s)
  {
    b.rfkill ==> HasPower(MaybeSetPower(b, s, false, d.off).state, '0')
  }

  /** The power step leaves the power off exactly when its write took its byte or
      the power was off before. */
  lemma PowerOffExactly(b: Build, s: State, d: DisableAnswers)
    requires Cached(s) && b.rfkill
    ensures var t := Lookup(s, d.off.types);
            PowerOffLeft(b, s, d) <==>
            HasPower(t, '0') || (t.rfkillId != -1 && d.off.opens && d.off.wrote == 1)
  {
    hide Least;
  }

  lemma DisableDone(b: Build, s: State, d: DisableAnswers)
    requires Cached(s)
    ensures BroughtDown(b, Disable(b, s, d)) <==> Stops(d) && d.down && PowerOffLeft(b, s, d)
  {
    hide MaybeSetPower, HasPower;
    PowerQuiet(b, s, false, d.off);
    hide Cached;
    NotDaemon(b);
    if Stops(d) {
      assert Property("ctl.stop", "bluetoothd", true) in Disable(b, s, d).trace;
      assert DevDown(d.socket.value, d.down) in Disable(b, s, d).trace;
    }
  }

  /** The contract in the header, 0 exactly on success, is kept except when the
      power step succeeds although the interface did not go down, or although the
      power is still on because the write took no byte; and when the power step
      fails although power was off before and all else went well. */
  lemma DisableContract(b: Build, s: State, d: DisableAnswers)
    requires Cached(s)
    ensures var power := MaybeSetPower(b, s, false, d.off).ret;
            (Disable(b, s, d).ret == 0 <==> BroughtDown(b, Disable(b, s, d))) <==>
            && !(Stops(d) && power == 0 && !d.down)
            && !(Stops(d) && power == 0 && !PowerOffLeft(b, s, d))
            && !(Stops(d) && power == -1 && d.down && PowerOffLeft(b, s, d))
  {
    hide Disable, MaybeSetPower, BroughtDown, PowerOffLeft;
    PowerReturns(b, s, false, d.off);
    DisableReturns(b, s, d);
    DisableDone(b, s, d);
  }

  // ---------- the contract of bt_is_enabled ----------

  /** What bt_is_enabled finds about the power: on, off, or an error. */
  function PowerFound(b: Build, s: State, q: QueryAnswers): int
    requires Cached(s)
  {
    if b.rfkill then CheckPower(s, q.power).ret else 1
  }

  /** When check_bluetooth_power returns what. */
  lemma PowerFoundMeans(b: Build, s: State, q: QueryAnswers)
    requires Cached(s) && b.rfkill
    ensures var t := Lookup(s, q.power.types);
            var read := t.rfkillId != -1 && q.power.opens && q.power.readable;
            && (PowerFound(b, s, q) == 1 <==> read && HasPower(t, '1'))
            && (PowerFound(b, s, q) == 0 <==> read && HasPower(t, '0'))
            && -1 <= PowerFound(b, s, q) <= 1
  {
    hide Least;
  }

  /** The three results of bt_is_enabled, each with its exact condition. */
  lemma QueryReturns(b: Build, s: State, q: QueryAnswers)
    requires Cached(s)
    ensures var ret, power := IsEnabled(b, s, q).ret, PowerFound(b, s, q);
            && (ret == 1 <==> power == 1 && q.socket.Some? && q.up == Some(true))
            && (ret == 0 <==> power == 0 || (power == 1 && q.socket.Some? && q.up != Some(true)))
            && (ret == -1 <==> power == -1 || (power == 1 && q.socket.None?))
  {
    CheckReturns(s, q.power);
    hide CheckPower;
  }

  /** The power cannot be told, or it is on and there is no socket, or the
      interface does not tell its state. */
  predicate QueryFails(b: Build, s: State, q: QueryAnswers)
    requires Cached(s)
  {
    PowerFound(b, s, q) == -1 || (PowerFound(b, s, q) == 1 && (q.socket.None? || q.up.None?))
  }

  /** The contract in the header, a negative result exactly on an error, is kept
      except when HCIGETDEVINFO fails. */
  lemma QueryContract(b: Build, s: State, q: QueryAnswers)
    requires Cached(s)
    ensures (IsEnabled(b, s, q).ret < 0 <==> QueryFails(b, s, q)) <==>
            !(PowerFound(b, s, q) == 1 && q.socket.Some? && q.up.None?)
  {
    CheckReturns(s, q.power);
    hide CheckPower;
  }

  // ---------- sockets ----------

  /** The HCI socket of a call as its system calls go by: which one is open, how
      often a socket was closed that was closed already, and whether at most one
      was open at a time and only an open one was used. */
  datatype Sock = Sock(open: Option<nat>, stale: nat, ok: bool)

  function Use(k: Sock, fd: nat): Sock {
    k.(ok := k.ok && k.open == Some(fd))
  }

  function Watch(k: Sock, x: Sys): Sock {
    match x
    case OpenSocket(made) => Sock(made, k.stale, k.ok && k.open.None?)
    case DevUp(fd, _) => Use(k, fd)
    case DevDown(fd, _) => Use(k, fd)
    case DevInfo(fd, _) => Use(k, fd)
    case CloseSocket(fd) =>
      if k.open.None? then k.(stale := k.stale + 1)
      else Sock(None, k.stale, k.ok && k.open == Some(fd))
    case _ => k
  }

  function WatchAll(k: Sock, t: seq<Sys>): Sock
    decreases |t|
  {
    if t == [] then k else WatchAll(Watch(k, t[0]), t[1..])
  }

  lemma {:induction false} WatchJoin(k: Sock, a: seq<Sys>, b: seq<Sys>)
    ensures WatchAll(k, a + b) == WatchAll(WatchAll(k, a), b)
    decreases |a|
  {
    if a == [] {
      assert a + b == b;
    } else {
      assert (a + b)[1..] == a[1..] + b;
      WatchJoin(Watch(k, a[0]), a[1..], b);
    }
  }

  lemma WatchOne(k: Sock, x: Sys)
    ensures WatchAll(k, [x]) == Watch(k, x)
  {
  }

  lemma WatchPower(k: Sock, b: Build, s: State, on: bool, a: PowerAnswer)
    requires Cached(s)
    ensures WatchAll(k, MaybeSetPower(b, s, on, a).trace) == k
  {
    var t := MaybeSetPower(b, s, on, a).trace;
    if |t| == 2 {
      assert t == [t[0]] + [t[1]];
      WatchJoin(k, [t[0]], [t[1]]);
    }
  }

  /** The attempts leave a socket open exactly when one of them was answered. */
  lemma {:induction false} WatchTries(n: nat, attempts: nat -> Attempt, k: nat, limit: nat)
    requires k <= limit
    ensures var r := Decisive(attempts, k, limit);
            WatchAll(Sock(None, n, true), Tries(attempts, k, limit))
            == Sock(if r < limit && attempts(r).Socket? then Some(attempts(r).fd) else None, n, true)
    decreases limit - k
  {
    var start := Sock(None, n, true);
    if k < limit {
      WatchAttempt(n, attempts(k));
      WatchJoin(start, TryOnce(attempts(k)), if Decides(attempts(k)) then [] else Tries(attempts, k + 1, limit));
      hide TryOnce, Watch;
      if !Decides(attempts(k)) {
        WatchTries(n, attempts, k + 1, limit);
      }
    }
  }

  lemma WatchAttempt(n: nat, a: Attempt)
    ensures WatchAll(Sock(None, n, true), TryOnce(a))
         == Sock(if a.Socket? && Decides(a) then Some(a.fd) else None, n, true)
  {
    var start := Sock(None, n, true);
    match a {
      case NoSocket =>
        WatchOne(start, OpenSocket(None));
      case Socket(fd, answer) =>
        var two := [OpenSocket(Some(fd)), DevUp(fd, answer)];
        WatchTwo(start, OpenSocket(Some(fd)), DevUp(fd, answer));
        if answer == Failed {
          WatchJoin(start, two, [CloseSocket(fd)]);
          WatchOne(Sock(Some(fd), n, true), CloseSocket(fd));
        } else {
          assert two + [] == two;
        }
    }
  }

  lemma WatchTwo(k: Sock, x: Sys, y: Sys)
    ensures WatchAll(k, [x, y]) == Watch(Watch(k, x), y)
  {
    assert [x, y] == [x] + [y];
    WatchJoin(k, [x], [y]);
  }

  /** Whether bt_enable runs out of attempts. */
  predicate TimesOut(b: Build, s: State, e: EnableAnswers)
    requires Cached(s)
  {
    Reaches(b, s, e) && LastAttempt(e).None?
  }

  /** bt_enable opens one socket at a time, uses only the open one, and leaves
      none open; it closes one more than it opened exactly when it runs out of
      attempts. */
  lemma EnableSockets(b: Build, s: State, e: EnableAnswers, n: nat)
    requires Cached(s)
    ensures WatchAll(Sock(None, n, true), Enable(b, s, e).trace)
         == Sock(None, if TimesOut(b, s, e) then n + 1 else n, true)
  {
    hide MaybeSetPower, Tries, Decisive, WatchAll, Cached;
    var start, on := Sock(None, n, true), MaybeSetPower(b, s, true, e.on);
    CachedStays(b, s, true, e.on);
    PowerReturns(b, s, true, e.on);
    WatchPower(start, b, s, true, e.on);
    if on.ret == 0 {
      var off := MaybeSetPower(b, on.state, false, e.off);
      var started := on.trace + [AttachProperty(b, e.attach)];
      WatchJoin(start, on.trace, [AttachProperty(b, e.attach)]);
      WatchOne(start, AttachProperty(b, e.attach));
      if !e.attach {
        WatchJoin(start, started, off.trace);
        WatchPower(start, b, on.state, false, e.off);
      } else {
        WatchTries(n, e.attempts, 0, ATTEMPTS);
        WatchJoin(start, started, Tries(e.attempts, 0, ATTEMPTS));
        if LastAttempt(e).None? {
          NoneDecides(e.attempts, 0, ATTEMPTS, ATTEMPTS - 1);
        }
        var last := e.attempts(ATTEMPTS - 1);
        EnableEnd(b, on.state, e, n, started + Tries(e.attempts, 0, ATTEMPTS), if last.Socket? then last.fd else 0);
      }
    }
  }

  /** The part of bt_enable behind the loop; last is the socket of the last
      attempt. */
  lemma EnableEnd(b: Build, t: State, e: EnableAnswers, n: nat, tried: seq<Sys>, last: nat)
    requires Cached(t)
    requires var k := Decisive(e.attempts, 0, ATTEMPTS);
             WatchAll(Sock(None, n, true), tried)
             == Sock(if k < ATTEMPTS && e.attempts(k).Socket? then Some(e.attempts(k).fd) else None, n, true)
    ensures var k, off := Decisive(e.attempts, 0, ATTEMPTS), MaybeSetPower(b, t, false, e.off);
            var start := Sock(None, n, true);
            if k == ATTEMPTS then
              WatchAll(start, tried + [Property("ctl.stop", "hciattach", e.stop)] + off.trace
                              + [CloseSocket(last)]) == Sock(None, n + 1, true)
            else if e.attempts(k).NoSocket? then WatchAll(start, tried) == start
            else
              var daemon := tried + [Property("ctl.start", "bluetoothd", e.daemon)];
              && WatchAll(start, daemon + [CloseSocket(e.attempts(k).fd)]) == start
              && WatchAll(start, daemon + off.trace + [CloseSocket(e.attempts(k).fd)]) == start
  {
    hide MaybeSetPower, Decisive, WatchAll, Cached;
    var k, off := Decisive(e.attempts, 0, ATTEMPTS), MaybeSetPower(b, t, false, e.off);
    var start := Sock(None, n, true);
    var now := WatchAll(start, tried);
    var p := if k == ATTEMPTS then Property("ctl.stop", "hciattach", e.stop)
             else Property("ctl.start", "bluetoothd", e.daemon);
    WatchJoin(start, tried, [p]);
    WatchOne(now, p);
    WatchJoin(start, tried + [p], off.trace);
    WatchPower(now, b, t, false, e.off);
    if k == ATTEMPTS || e.attempts(k).Socket? {
      var close := CloseSocket(if k == ATTEMPTS then last else e.attempts(k).fd);
      WatchJoin(start, tried + [p], [close]);
      WatchJoin(start, tried + [p] + off.trace, [close]);
      WatchOne(now, close);
    }
  }

  lemma DisableSockets(b: Build, s: State, d: DisableAnswers, n: nat)
    requires Cached(s)
    ensures WatchAll(Sock(None, n, true), Disable(b, s, d).trace) == Sock(None, n, true)
  {
    hide MaybeSetPower, WatchAll, Cached;
    var start := Sock(None, n, true);
    var stop := Property("ctl.stop", "bluetoothd", d.stopDaemon);
    WatchOne(start, stop);
    if d.stopDaemon {
      if d.socket.None? {
        WatchJoin(start, [stop], [OpenSocket(None)]);
        WatchOne(start, OpenSocket(None));
      } else {
        var fd := d.socket.value;
        var three := [OpenSocket(Some(fd)), DevDown(fd, d.down), DetachProperty(b, d.detach)];
        var open, off := Sock(Some(fd), n, true), MaybeSetPower(b, s, false, d.off);
        WatchJoin(start, [stop], three);
        assert three == [OpenSocket(Some(fd)), DevDown(fd, d.down)] + [DetachProperty(b, d.detach)];
        WatchTwo(start, OpenSocket(Some(fd)), DevDown(fd, d.down));
        WatchJoin(start, [OpenSocket(Some(fd)), DevDown(fd, d.down)], [DetachProperty(b, d.detach)]);
        WatchOne(open, DetachProperty(b, d.detach));
        WatchJoin(start, [stop] + three, [CloseSocket(fd)]);
        WatchOne(open, CloseSocket(fd));
        WatchPower(open, b, s, false, d.off);
        WatchJoin(start, [stop] + three, off.trace);
        WatchJoin(start, [stop] + three + off.trace, [CloseSocket(fd)]);
      }
    }
  }

  lemma WatchRead(k: Sock, s: State, a: ReadAnswer)
    requires Cached(s)
    ensures WatchAll(k, CheckPower(s, a).trace) == k
  {
  }

  lemma QuerySockets(b: Build, s: State, q: QueryAnswers, n: nat)
    requires Cached(s)
    ensures WatchAll(Sock(None, n, true), IsEnabled(b, s, q).trace) == Sock(None, n, true)
  {
    hide CheckPower, WatchAll, Cached;
    var start := Sock(None, n, true);
    var power := if b.rfkill then CheckPower(s, q.power) else Effect(s, 1, []);
    WatchRead(start, s, q.power);
    WatchNone(start);
    if power.ret > 0 {
      if q.socket.None? {
        WatchJoin(start, power.trace, [OpenSocket(None)]);
        WatchOne(start, OpenSocket(None));
      } else {
        var fd := q.socket.value;
        var three := [OpenSocket(Some(fd)), DevInfo(fd, q.up), CloseSocket(fd)];
        assert three == [OpenSocket(Some(fd)), DevInfo(fd, q.up)] + [CloseSocket(fd)];
        WatchJoin(start, power.trace, three);
        WatchTwo(start, OpenSocket(Some(fd)), DevInfo(fd, q.up));
        WatchJoin(start, [OpenSocket(Some(fd)), DevInfo(fd, q.up)], [CloseSocket(fd)]);
        WatchOne(Sock(Some(fd), n, true), CloseSocket(fd));
      }
    }
  }

  lemma WatchNone(k: Sock)
    ensures WatchAll(k, []) == k
  {
  }

  // ---------- runs ----------

  /** Calls one after the other. */
  function Run(b: Build, s: State, cs: seq<Call>): (r: (State, seq<Sys>))
    requires Cached(s)
    ensures Cached(r.0)
    decreases |cs|
  {
    if cs == [] then (s, [])
    else
      var (t, trace) := Run(b, s, cs[..|cs| - 1]);
      PerformCached(b, t, cs[|cs| - 1]);
      var e := Perform(b, t, cs[|cs| - 1]);
      (e.state, trace + e.trace)
  }

  /** How many of the calls run out of attempts. */
  function Timeouts(b: Build, s: State, cs: seq<Call>): nat
    requires Cached(s)
    decreases |cs|
  {
    if cs == [] then 0
    else
      var n := |cs| - 1;
      var t := Run(b, s, cs[..n]).0;
      Timeouts(b, s, cs[..n]) + if cs[n].CallEnable? && TimesOut(b, t, cs[n].e) then 1 else 0
  }

  lemma PerformSockets(b: Build, s: State, c: Call, n: nat)
    requires Cached(s)
    ensures WatchAll(Sock(None, n, true), Perform(b, s, c).trace)
         == Sock(None, n + if c.CallEnable? && TimesOut(b, s, c.e) then 1 else 0, true)
  {
    hide WatchAll, Enable, Disable, IsEnabled, Cached, TimesOut;
    match c {
      case CallEnable(e) => EnableSockets(b, s, e, n);
      case CallDisable(d) => DisableSockets(b, s, d, n);
      case CallIsEnabled(q) => QuerySockets(b, s, q, n);
    }
  }

  /** Over any sequence of calls: at most one HCI socket is open at a time, none
      is when a call has returned, and a closed one is closed again once for each
      bt_enable that ran out of attempts. */
  lemma {:induction false} RunSockets(b: Build, s: State, cs: seq<Call>)
    requires Cached(s)
    ensures WatchAll(Sock(None, 0, true), Run(b, s, cs).1) == Sock(None, Timeouts(b, s, cs), true)
    decreases |cs|
  {
    if cs == [] {
      WatchNone(Sock(None, 0, true));
    } else {
      var n := |cs| - 1;
      var (t, trace) := Run(b, s, cs[..n]);
      RunSockets(b, s, cs[..n]);
      WatchJoin(Sock(None, 0, true), trace, Perform(b, t, cs[n]).trace);
      PerformSockets(b, t, cs[n], Timeouts(b, s, cs[..n]));
      hide WatchAll, Perform, TimesOut;
    }
  }

  lemma PerformKeepsId(b: Build, s: State, c: Call)
    requires Cached(s) && s.rfkillId != -1
    ensures Perform(b, s, c).state.rfkillId == s.rfkillId && Perform(b, s, c).state.foundIn == s.foundIn
  {
    hide Decisive, Tries, Least;
  }

  lemma {:induction false} IdStays(b: Build, s: State, cs: seq<Call>, n: nat)
    requires Cached(s) && n <= |cs| && Run(b, s, cs[..n]).0.rfkillId != -1
    ensures Run(b, s, cs).0.rfkillId == Run(b, s, cs[..n]).0.rfkillId
    decreases |cs|
  {
    hide Perform, Cached;
    if n == |cs| {
      assert cs[..n] == cs;
    } else {
      var m := |cs| - 1;
      assert cs[..m][..n] == cs[..n];
      IdStays(b, s, cs[..m], n);
      PerformKeepsId(b, Run(b, s, cs[..m]).0, cs[m]);
    }
  }

  /** rfkill_id never changes once it is set, and it is then the least number of
      a file, among those that were there, whose type starts with "bluetooth". */
  lemma {:induction false} RunKeepsId(b: Build, s: State, cs: seq<Call>, n: nat)
    requires Cached(s) && n <= |cs| && Run(b, s, cs[..n]).0.rfkillId != -1
    ensures Run(b, s, cs).0.rfkillId == Run(b, s, cs[..n]).0.rfkillId
    ensures var t := Run(b, s, cs).0;
            && 0 <= t.rfkillId < |t.foundIn| && IsBluetooth(t.foundIn[t.rfkillId])
            && forall i | 0 <= i < t.rfkillId :: !IsBluetooth(t.foundIn[i])
  {
    hide Run, Least, IsBluetooth;
    IdStays(b, s, cs, n);
  }

  // ---------- power down ----------

  /** The power state can be read. */
  predicate Readable(s: State, q: QueryAnswers) {
    q.power.opens && q.power.readable && s.rfkillId in s.states
  }

  predicate SetsPower(x: Sys) {
    x.PowerWrite? && x.wrote == 1
  }

  predicate PowerNotSet(t: seq<Sys>) {
    forall x | x in t :: !SetsPower(x)
  }

  lemma NotSetJoin(a: seq<Sys>, b: seq<Sys>)
    ensures PowerNotSet(a + b) <==> PowerNotSet(a) && PowerNotSet(b)
  {
    assert forall x | x in a || x in b :: x in a + b;
  }

  lemma StepKeepsState(b: Build, s: State, on: bool, a: PowerAnswer)
    requires Cached(s) && s.rfkillId != -1 && PowerNotSet(MaybeSetPower(b, s, on, a).trace)
    ensures MaybeSetPower(b, s, on, a).state == s
  {
    if b.rfkill && a.opens {
      assert PowerWrite(s.rfkillId, on, a.wrote) in SetPower(s, on, a).trace;
    }
  }

  lemma EnableKeepsState(b: Build, s: State, e: EnableAnswers)
    requires Cached(s) && s.rfkillId != -1 && PowerNotSet(Enable(b, s, e).trace)
    ensures Enable(b, s, e).state == s
  {
    hide MaybeSetPower, Decisive, Tries, Least, SetsPower;
    var on := MaybeSetPower(b, s, true, e.on);
    assert forall x | x in on.trace :: x in Enable(b, s, e).trace;
    StepKeepsState(b, s, true, e.on);
    var off := MaybeSetPower(b, s, false, e.off);
    if Enable(b, s, e).state == off.state != s {
      assert forall x | x in off.trace :: x in Enable(b, s, e).trace;
      StepKeepsState(b, s, false, e.off);
    }
  }

  lemma DisableKeepsState(b: Build, s: State, d: DisableAnswers)
    requires Cached(s) && s.rfkillId != -1 && PowerNotSet(Disable(b, s, d).trace)
    ensures Disable(b, s, d).state == s
  {
    hide MaybeSetPower, Least, SetsPower;
    var off := MaybeSetPower(b, s, false, d.off);
    if Stops(d) {
      assert forall x | x in off.trace :: x in Disable(b, s, d).trace;
      StepKeepsState(b, s, false, d.off);
    }
  }

  lemma PerformKeepsState(b: Build, s: State, c: Call)
    requires Cached(s) && s.rfkillId != -1 && PowerNotSet(Perform(b, s, c).trace)
    ensures Perform(b, s, c).state == s
  {
    hide Enable, Disable, PowerNotSet;
    match c {
      case CallEnable(e) => EnableKeepsState(b, s, e);
      case CallDisable(d) => DisableKeepsState(b, s, d);
      case CallIsEnabled(_) =>
    }
  }

  /** Calls that do not set power leave everything as it is. */
  lemma {:induction false} CallsKeepState(b: Build, s: State, cs: seq<Call>)
    requires Cached(s) && s.rfkillId != -1 && PowerNotSet(Run(b, s, cs).1)
    ensures Run(b, s, cs).0 == s
    decreases |cs|
  {
    hide Perform, PowerNotSet, Cached;
    if cs != [] {
      var n := |cs| - 1;
      var (t, trace) := Run(b, s, cs[..n]);
      NotSetJoin(trace, Perform(b, t, cs[n]).trace);
      CallsKeepState(b, s, cs[..n]);
      PerformKeepsState(b, s, cs[n]);
    }
  }

  lemma {:induction false} RunJoin(b: Build, s: State, before: seq<Call>, cs: seq<Call>)
    requires Cached(s)
    ensures Run(b, s, before + cs).0 == Run(b, Run(b, s, before).0, cs).0
    decreases |cs|
  {
    hide Perform, Cached;
    if cs == [] {
      assert before + cs == before;
    } else {
      var n := |cs| - 1;
      RunJoin(b, s, before, cs[..n]);
      assert (before + cs)[..|before + cs| - 1] == before + cs[..n] && (before + cs)[|before + cs| - 1] == cs[n];
    }
  }

  /** bt_disable that returns 0 leaves the power off exactly when its write took
      its byte or the power was off before. */
  lemma DisablePowersOff(b: Build, s: State, d: DisableAnswers)
    requires Cached(s) && b.rfkill && Disable(b, s, d).ret == 0
    ensures Disable(b, s, d).state.rfkillId != -1
    ensures HasPower(Disable(b, s, d).state, '0') <==>
            d.off.wrote == 1 || HasPower(Lookup(s, d.off.types), '0')
  {
    hide Least;
  }

  lemma QueryWhenOff(b: Build, s: State, q: QueryAnswers)
    requires Cached(s) && b.rfkill && HasPower(s, '0')
    ensures IsEnabled(b, s, q).ret == if Readable(s, q) then 0 else -1
  {
    hide Least;
  }

  /** Once a bt_disable has left the power off, whatever went before it, and until
      a call next sets the power, nothing changes and bt_is_enabled returns 0
      whenever the power state can be read. */
  lemma DisabledStaysDisabled(b: Build, s: State, before: seq<Call>, d: DisableAnswers, cs: seq<Call>, q: QueryAnswers)
    requires Cached(s) && b.rfkill
    requires HasPower(Run(b, s, before + [CallDisable(d)]).0, '0')
    requires PowerNotSet(Run(b, Run(b, s, before + [CallDisable(d)]).0, cs).1)
    ensures var off := Run(b, s, before + [CallDisable(d)]).0;
            && Run(b, s, before + [CallDisable(d)] + cs).0 == off
            && IsEnabled(b, off, q).ret == if Readable(off, q) then 0 else -1
  {
    var off := Run(b, s, before + [CallDisable(d)]).0;
    assert off.rfkillId != -1;
    hide Run, IsEnabled, HasPower, PowerNotSet, Cached;
    RunJoin(b, s, before + [CallDisable(d)], cs);
    CallsKeepState(b, off, cs);
    QueryWhenOff(b, off, q);
  }

  /** For every answer that lets the power state be read, bt_is_enabled returns 0
      exactly when the power is off. */
  lemma QueriesTellPower(b: Build, s: State)
    requires Cached(s) && b.rfkill && s.rfkillId != -1 && s.rfkillId in s.states
    ensures (forall q | Readable(s, q) :: IsEnabled(b, s, q).ret == 0) <==> HasPower(s, '0')
  {
    if !HasPower(s, '0') {
      var q := QueryAnswers(ReadAnswer([], true, true), Some(3), Some(true));
      assert Readable(s, q) && IsEnabled(b, s, q).ret != 0;
    }
  }

  // ---------- inputs that meet the exceptions ----------

  const BLUETOOTH_ONLY: Types := [Some("bluetooth")]
  const RFKILL: Build := Build(true, false)
  const NO_RFKILL: Build := Build(false, false)

  /** A state in which the only rfkill file is found, and says c. */
  function Found(c: char): (s: State)
    ensures Cached(s)
  {
    assert IsBluetooth(BLUETOOTH_ONLY[0]);
    State(0, map[0 := c], BLUETOOTH_ONLY)
  }

  /** What bt_enable meets when all attempts have answer a. */
  function AllAnswer(a: Attempt, wrote: int, daemon: bool): EnableAnswers {
    EnableAnswers(PowerAnswer([], true, wrote), true, (k: nat) => a, true, PowerAnswer([], true, 1), daemon)
  }

  /** 0 is returned although bluetoothd did not start. */
  lemma ZeroWithoutDaemon()
    ensures exists b: Build, s: State, e: EnableAnswers ::
      Cached(s) && !e.daemon && Enable(b, s, e).ret == 0
  {
    var e := AllAnswer(Socket(3, Up), 1, false);
    DecisiveIs(e.attempts, 0, ATTEMPTS, 0);
    assert Cached(Found('0')) && Enable(NO_RFKILL, Found('0'), e).ret == 0;
  }

  /** bt_enable returns 0 and the power is off: the write took no byte. */
  lemma ZeroWithPowerOff()
    ensures exists b: Build, s: State, e: EnableAnswers ::
      Cached(s) && b.rfkill && e.daemon && Enable(b, s, e).ret == 0 && HasPower(Enable(b, s, e).state, '0')
  {
    var e := AllAnswer(Socket(3, Up), 0, true);
    DecisiveIs(e.attempts, 0, ATTEMPTS, 0);
    assert Enable(RFKILL, Found('0'), e).ret == 0 && HasPower(Enable(RFKILL, Found('0'), e).state, '0');
  }

  /** bt_enable fails for want of a socket and the power stays on. */
  lemma FailedWithPowerOn()
    ensures exists b: Build, s: State, e: EnableAnswers ::
      Cached(s) && b.rfkill && Enable(b, s, e).ret == -1 && HasPower(Enable(b, s, e).state, '1')
  {
    var e := AllAnswer(NoSocket, 1, true);
    DecisiveIs(e.attempts, 0, ATTEMPTS, 0);
    assert Enable(RFKILL, Found('0'), e).ret == -1 && HasPower(Enable(RFKILL, Found('0'), e).state, '1');
  }

  lemma {:induction false} NeverDecisive(attempts: nat -> Attempt, k: nat, limit: nat)
    requires k <= limit && forall i | k <= i < limit :: !Decides(attempts(i))
    ensures Decisive(attempts, k, limit) == limit
    decreases limit - k
  {
    if k < limit {
      NeverDecisive(attempts, k + 1, limit);
    }
  }

  /** bt_enable runs out of attempts and closes its socket a second time. */
  lemma ClosedTwice()
    ensures exists b: Build, s: State, e: EnableAnswers ::
      Cached(s) && WatchAll(Sock(None, 0, true), Enable(b, s, e).trace) == Sock(None, 1, true)
  {
    var e := AllAnswer(Socket(3, Failed), 1, true);
    NeverDecisive(e.attempts, 0, ATTEMPTS);
    EnableSockets(NO_RFKILL, Found('0'), e, 0);
    hide WatchAll, Enable;
    assert Reaches(NO_RFKILL, Found('0'), e);
    assert WatchAll(Sock(None, 0, true), Enable(NO_RFKILL, Found('0'), e).trace) == Sock(None, 1, true);
  }

  /** bt_disable returns 0 and the power is on: the write took no byte. */
  lemma ZeroWithPowerOn()
    ensures exists b: Build, s: State, d: DisableAnswers ::
      Cached(s) && b.rfkill && Disable(b, s, d).ret == 0 && HasPower(Disable(b, s, d).state, '1')
  {
    var d := DisableAnswers(true, Some(3), true, true, PowerAnswer([], true, 0));
    assert Disable(RFKILL, Found('1'), d).ret == 0 && HasPower(Disable(RFKILL, Found('1'), d).state, '1');
  }

  /** bt_disable returns 0 although HCIDEVDOWN failed. */
  lemma ZeroThoughUp()
    ensures exists b: Build, s: State, d: DisableAnswers ::
      Cached(s) && !d.down && Disable(b, s, d).ret == 0
  {
    var d := DisableAnswers(true, Some(3), false, true, PowerAnswer([], true, 1));
    assert Cached(Found('1')) && Disable(RFKILL, Found('1'), d).ret == 0;
  }

  /** bt_disable returns -1 although everything is down. */
  lemma FailedThoughDown()
    ensures exists b: Build, s: State, d: DisableAnswers ::
      Cached(s) && Disable(b, s, d).ret == -1 && BroughtDown(b, Disable(b, s, d))
  {
    var d := DisableAnswers(true, Some(3), true, true, PowerAnswer([], false, 1));
    DisableDone(RFKILL, Found('0'), d);
    assert Disable(RFKILL, Found('0'), d).ret == -1;
  }

  /** bt_is_enabled returns 0 although HCIGETDEVINFO failed. */
  lemma ZeroOnError()
    ensures exists b: Build, s: State, q: QueryAnswers ::
      Cached(s) && QueryFails(b, s, q) && IsEnabled(b, s, q).ret == 0
  {
    var q := QueryAnswers(ReadAnswer([], true, true), Some(3), None);
    assert QueryFails(NO_RFKILL, Found('1'), q) && IsEnabled(NO_RFKILL, Found('1'), q).ret == 0;
  }
}
