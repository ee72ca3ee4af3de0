/** What the calls of bluedroid/bluetooth.c do, given every answer of the
    system: the state they leave, what they return and the system calls they
    make. */
module AdapterSpec {
  import opened Bytes

  /** The build options: rfkill is used, and hciattach is started by setting a
      property of its own. */
  datatype Build = Build(rfkill: bool, byProperty: bool)

  /** How ioctl(HCIDEVUP) ends: it returns 0, or -1 with EALREADY, or -1 with
      another error. */
  datatype Answer = Up | Already | Failed

  datatype Attempt = NoSocket | Socket(fd: nat, answer: Answer)

  /** The system calls that matter. */
  datatype Sys =
    | Property(name: string, value: string, ok: bool)
    | OpenSocket(made: Option<nat>)
    | DevUp(fd: nat, answer: Answer)
    | DevDown(fd: nat, ok: bool)
    | DevInfo(fd: nat, up: Option<bool>)
    | CloseSocket(fd: nat)
    | PowerRequest(on: bool)
    | PowerWrite(id: nat, on: bool, wrote: int)
    | PowerRead(id: nat, got: Option<char>)

  /** The rfkill files: for each number, what a read of its type file gives;
      there is none beyond the last. */
  type Types = seq<Option<string>>

  /** The static variables, the state files of rfkill, and the files that were
      there when rfkill_id was found. */
  datatype State = State(rfkillId: int, states: map<nat, char>, foundIn: Types)

  predicate IsBluetooth(t: Option<string>) {
    t.Some? && |t.value| >= 9 && "bluetooth" <= t.value
  }

  /** The least number from id on whose type starts with "bluetooth". */
  function Least(types: Types, id: nat): (r: Option<nat>)
    ensures r.Some? ==> id <= r.value < |types| && IsBluetooth(types[r.value])
    ensures forall i | id <= i < (if r.Some? then r.value else |types|) :: !IsBluetooth(types[i])
    decreases |types| - id
  {
    if id >= |types| then None
    else if IsBluetooth(types[id]) then Some(id)
    else Least(types, id + 1)
  }

  /** init_rfkill, when it is needed. */
  function Lookup(s: State, types: Types): State {
    if s.rfkillId != -1 || Least(types, 0).None? then s
    else s.(rfkillId := Least(types, 0).value, foundIn := types)
  }

  /** The cached number is the least one of the files it was found in. */
  predicate Cached(s: State) {
    s.rfkillId == -1 || (s.rfkillId >= 0 && Least(s.foundIn, 0) == Some(s.rfkillId))
  }

  /** What set_bluetooth_power meets: the rfkill files, whether the state file
      opens, and what write returns. */
  datatype PowerAnswer = PowerAnswer(types: Types, opens: bool, wrote: int)

  datatype Effect = Effect(state: State, ret: int, trace: seq<Sys>)

  function PowerChar(on: bool): char {
    if on then '1' else '0'
  }

  /** set_bluetooth_power. A write that takes no byte is taken for success. */
  function SetPower(s: State, on: bool, a: PowerAnswer): Effect
    requires Cached(s)
  {
    var t := Lookup(s, a.types);
    if t.rfkillId == -1 || !a.opens then Effect(t, -1, [PowerRequest(on)])
    else
      Effect(if a.wrote == 1 then t.(states := t.states[t.rfkillId := PowerChar(on)]) else t,
             if a.wrote < 0 then -1 else 0,
             [PowerRequest(on), PowerWrite(t.rfkillId, on, a.wrote)])
  }

  /** set_bluetooth_power in a build that may do without it. */
  function MaybeSetPower(b: Build, s: State, on: bool, a: PowerAnswer): Effect
    requires Cached(s)
  {
    if b.rfkill then SetPower(s, on, a) else Effect(s, 0, [])
  }

  /** What check_bluetooth_power meets. */
  datatype ReadAnswer = ReadAnswer(types: Types, opens: bool, readable: bool)

  /** check_bluetooth_power. */
  function CheckPower(s: State, a: ReadAnswer): Effect
    requires Cached(s)
  {
    var t := Lookup(s, a.types);
    if t.rfkillId == -1 || !a.opens then Effect(t, -1, [])
    else if !a.readable || t.rfkillId !in t.states then Effect(t, -1, [PowerRead(t.rfkillId, None)])
    else
      var c := t.states[t.rfkillId];
      Effect(t, if c == '1' then 1 else if c == '0' then 0 else -1, [PowerRead(t.rfkillId, Some(c))])
  }

  lemma CheckReturns(s: State, a: ReadAnswer)
    requires Cached(s)
    ensures -1 <= CheckPower(s, a).ret <= 1
  {
  }

  // ---------- bt_enable ----------

  const ATTEMPTS: nat := 100

  /** The system calls of one attempt; a socket that was of no use is closed. */
  function TryOnce(a: Attempt): seq<Sys> {
    match a
    case NoSocket => [OpenSocket(None)]
    case Socket(fd, answer) =>
      [OpenSocket(Some(fd)), DevUp(fd, answer)] + if answer == Failed then [CloseSocket(fd)] else []
  }

  predicate Decides(a: Attempt) {
    a.NoSocket? || a.answer != Failed
  }

  /** The system calls of the attempts from number k on. */
  function Tries(attempts: nat -> Attempt, k: nat, limit: nat): seq<Sys>
    decreases limit - k
  {
    if k >= limit then []
    else TryOnce(attempts(k)) + if Decides(attempts(k)) then [] else Tries(attempts, k + 1, limit)
  }

  /** The number of the first attempt that ends the loop. */
  function Decisive(attempts: nat -> Attempt, k: nat, limit: nat): (r: nat)
    requires k <= limit
    ensures k <= r <= limit
    ensures forall i | k <= i < r :: !Decides(attempts(i))
    ensures r < limit ==> Decides(attempts(r))
    decreases limit - k
  {
    if k >= limit then limit
    else if Decides(attempts(k)) then k
    else Decisive(attempts, k + 1, limit)
  }

  lemma {:induction false} NoneDecides(attempts: nat -> Attempt, k: nat, limit: nat, i: nat)
    requires k <= i < limit && Decisive(attempts, k, limit) == limit
    ensures !Decides(attempts(i))
    decreases limit - k
  {
    if k < i {
      NoneDecides(attempts, k + 1, limit, i);
    }
  }

  /** What bt_enable meets. */
  datatype EnableAnswers = EnableAnswers(
    on: PowerAnswer, attach: bool, attempts: nat -> Attempt, stop: bool, off: PowerAnswer, daemon: bool)

  function AttachProperty(b: Build, ok: bool): Sys {
    if b.byProperty then Property("bluetooth.hciattach", "true", ok) else Property("ctl.start", "hciattach", ok)
  }

  function Enable(b: Build, s: State, e: EnableAnswers): Effect
    requires Cached(s)
  {
    var on := MaybeSetPower(b, s, true, e.on);
    if on.ret < 0 then Effect(on.state, -1, on.trace)
    else
      CachedStays(b, s, true, e.on);
      var off := MaybeSetPower(b, on.state, false, e.off);
      var started := on.trace + [AttachProperty(b, e.attach)];
      if !e.attach then Effect(off.state, -1, started + off.trace)
      else
        var k := Decisive(e.attempts, 0, ATTEMPTS);
        var tried := started + Tries(e.attempts, 0, ATTEMPTS);
        if k == ATTEMPTS then
          NoneDecides(e.attempts, 0, ATTEMPTS, ATTEMPTS - 1);
          Effect(off.state, -1,
                 tried + [Property("ctl.stop", "hciattach", e.stop)] + off.trace
                 + [CloseSocket(e.attempts(ATTEMPTS - 1).fd)])
        else match e.attempts(k)
          case NoSocket => Effect(on.state, -1, tried)
          case Socket(fd, answer) =>
            var daemon := tried + [Property("ctl.start", "bluetoothd", e.daemon)];
            if e.daemon then Effect(on.state, 0, daemon + [CloseSocket(fd)])
            else Effect(off.state, if answer == Up then 0 else -1, daemon + off.trace + [CloseSocket(fd)])
  }

  lemma CachedStays(b: Build, s: State, on: bool, a: PowerAnswer)
    requires Cached(s)
    ensures Cached(MaybeSetPower(b, s, on, a).state)
  {
  }

  // ---------- bt_disable and bt_is_enabled ----------

  /** What bt_disable meets; down tells whether HCIDEVDOWN succeeds. */
  datatype DisableAnswers = DisableAnswers(
    stopDaemon: bool, socket: Option<nat>, down: bool, detach: bool, off: PowerAnswer)

  function DetachProperty(b: Build, ok: bool): Sys {
    if b.byProperty then Property("bluetooth.hciattach", "false", ok) else Property("ctl.stop", "hciattach", ok)
  }

  function Disable(b: Build, s: State, d: DisableAnswers): Effect
    requires Cached(s)
  {
    var stopped := [Property("ctl.stop", "bluetoothd", d.stopDaemon)];
    if !d.stopDaemon then Effect(s, -1, stopped)
    else if d.socket.None? then Effect(s, -1, stopped + [OpenSocket(None)])
    else
      var fd := d.socket.value;
      var down := stopped + [OpenSocket(Some(fd)), DevDown(fd, d.down), DetachProperty(b, d.detach)];
      if !d.detach then Effect(s, -1, down + [CloseSocket(fd)])
      else
        var off := MaybeSetPower(b, s, false, d.off);
        Effect(off.state, if off.ret < 0 then -1 else 0, down + off.trace + [CloseSocket(fd)])
  }

  /** What bt_is_enabled meets; up is None when HCIGETDEVINFO fails. */
  datatype QueryAnswers = QueryAnswers(power: ReadAnswer, socket: Option<nat>, up: Option<bool>)

  function IsEnabled(b: Build, s: State, q: QueryAnswers): Effect
    requires Cached(s)
  {
    var power := if b.rfkill then CheckPower(s, q.power) else Effect(s, 1, []);
    if power.ret <= 0 then power
    else if q.socket.None? then Effect(power.state, -1, power.trace + [OpenSocket(None)])
    else
      var fd := q.socket.value;
      Effect(power.state, if q.up == Some(true) then 1 else 0,
             power.trace + [OpenSocket(Some(fd)), DevInfo(fd, q.up), CloseSocket(fd)])
  }

  // ---------- runs ----------

  datatype Call = CallEnable(e: EnableAnswers) | CallDisable(d: DisableAnswers) | CallIsEnabled(q: QueryAnswers)

  function Perform(b: Build, s: State, c: Call): Effect
    requires Cached(s)
  {
    match c
    case CallEnable(e) => Enable(b, s, e)
    case CallDisable(d) => Disable(b, s, d)
    case CallIsEnabled(q) => IsEnabled(b, s, q)
  }

  lemma PerformCached(b: Build, s: State, c: Call)
    requires Cached(s)
    ensures Cached(Perform(b, s, c).state)
  {
    match c {
      case CallEnable(e) =>
        var on := MaybeSetPower(b, s, true, e.on);
        CachedStays(b, s, true, e.on);
        CachedStays(b, on.state, false, e.off);
        hide MaybeSetPower, Cached, Decisive, Tries;
      case CallDisable(d) =>
        CachedStays(b, s, false, d.off);
        hide MaybeSetPower, Cached;
      case CallIsEnabled(q) =>
    }
  }
}
