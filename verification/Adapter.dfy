/** bluedroid/bluetooth.c as it works: static variables that cache the rfkill
    number, a retry loop, and one exit where the socket is closed. */
module Adapter {
  import opened Bytes
  import opened AdapterSpec

  class Adapter {
    const build: Build
    /** rfkill_id. */
    var rfkillId: int
    /** The number in rfkill_state_path, if that is set. */
    var statePath: Option<nat>
    /** The contents of the rfkill state files. */
    var states: map<nat, char>
    ghost var foundIn: Types
    ghost var trace: seq<Sys>

    ghost function Now(): State
      reads this
    {
      State(rfkillId, states, foundIn)
    }

    ghost predicate Valid()
      reads this
    {
      Cached(Now()) && (if rfkillId == -1 then statePath.None? else statePath == Some(rfkillId))
    }

    constructor (build: Build, states: map<nat, char>)
      ensures Valid() && this.build == build && Now() == State(-1, states, []) && trace == []
    {
      this.build := build;
      this.states := states;
      rfkillId, statePath := -1, None;
      foundIn, trace := [], [];
    }

    /** A call of this adapter has had effect e. */
    twostate predicate Did(e: Effect, ret: int)
      reads this
    {
      Now() == e.state && ret == e.ret && trace == old(trace) + e.trace
    }

    /** init_rfkill: the loop ends at the first file of the right type, or at the
        first that is not there. */
    method InitRfkill(types: Types) returns (ret: int)
      requires Valid() && rfkillId == -1
      modifies this`rfkillId, this`statePath, this`foundIn
      ensures Valid() && Now() == Lookup(old(Now()), types)
      ensures ret == if rfkillId == -1 then -1 else 0
    {
      var id := 0;
      while true
        invariant 0 <= id <= |types|
        invariant Least(types, 0) == Least(types, id)
        invariant rfkillId == -1 && statePath.None? && foundIn == old(foundIn)
        decreases |types| - id
      {
        if id >= |types| {
          return -1;
        }
        if types[id].Some? && |types[id].value| >= 9 && "bluetooth" <= types[id].value {
          rfkillId := id;
          break;
        }
        id := id + 1;
      }
      statePath := Some(rfkillId);
      foundIn := types;
      ret := 0;
    }

    /** set_bluetooth_power. */
    method SetBluetoothPower(on: bool, a: PowerAnswer) returns (ret: int)
      requires Valid()
      modifies this
      ensures Valid() && Did(SetPower(old(Now()), on, a), ret)
    {
      ghost var before := trace;
      trace := trace + [PowerRequest(on)];
      ret := -1;
      if rfkillId == -1 {
        var none := InitRfkill(a.types);
        if none != 0 {
          return;
        }
      }
      if !a.opens {
        return;
      }
      trace := trace + [PowerWrite(rfkillId, on, a.wrote)];
      assert trace == before + [PowerRequest(on), PowerWrite(rfkillId, on, a.wrote)];
      if a.wrote == 1 {
        states := states[statePath.value := if on then '1' else '0'];
      }
      if a.wrote < 0 {
        return;
      }
      ret := 0;
    }

    /** set_bluetooth_power, where the build has it. */
    method SetPowerIfBuilt(on: bool, a: PowerAnswer) returns (ret: int)
      requires Valid()
      modifies this
      ensures Valid() && Did(MaybeSetPower(build, old(Now()), on, a), ret)
    {
      ret := 0;
      assert trace + [] == trace;
      if build.rfkill {
        ret := SetBluetoothPower(on, a);
      }
    }

    /** check_bluetooth_power. */
    method CheckBluetoothPower(a: ReadAnswer) returns (ret: int)
      requires Valid()
      modifies this
      ensures Valid() && Did(CheckPower(old(Now()), a), ret)
    {
      assert trace + [] == trace;
      ret := -1;
      if rfkillId == -1 {
        var none := InitRfkill(a.types);
        if none != 0 {
          return;
        }
      }
      if !a.opens {
        return;
      }
      if !a.readable || statePath.value !in states {
        trace := trace + [PowerRead(rfkillId, None)];
        return;
      }
      var c := states[statePath.value];
      trace := trace + [PowerRead(rfkillId, Some(c))];
      match c {
        case '1' =>
          ret := 1;
        case '0' =>
          ret := 0;
        case _ =>
      }
    }

    /** create_hci_sock, given the descriptor that socket returns. */
    method CreateHciSock(made: Option<nat>) returns (sock: int)
      modifies this`trace
      ensures trace == old(trace) + [OpenSocket(made)]
      ensures sock == if made.Some? then made.value else -1
    {
      trace := trace + [OpenSocket(made)];
      sock := if made.Some? then made.value else -1;
    }

    /** close. */
    method Close(sock: int)
      requires sock >= 0
      modifies this`trace
      ensures trace == old(trace) + [CloseSocket(sock)]
    {
      trace := trace + [CloseSocket(sock)];
    }

    /** property_set. */
    method PropertySet(x: Sys)
      requires x.Property?
      modifies this`trace
      ensures trace == old(trace) + [x]
    {
      trace := trace + [x];
    }

    /** One round of the retry loop of bt_enable. */
    method Attempt(a: Attempt) returns (sock: int, ret: int)
      modifies this`trace
      ensures trace == old(trace) + TryOnce(a)
      ensures sock == if a.Socket? then a.fd else -1
      ensures ret == if a.Socket? && a.answer == Up then 0 else -1
    {
      ret := -1;
      match a {
        case NoSocket =>
          sock := CreateHciSock(None);
        case Socket(fd, answer) =>
          sock := CreateHciSock(Some(fd));
          trace := trace + [DevUp(fd, answer)];
          if answer == Up {
            ret := 0;
          } else if answer == Failed {
            Close(sock);
          }
      }
    }

    /** The retry loop of bt_enable: attempt counts down from the limit, and is 0
        when it runs out; the socket and the result are those of the last
        attempt. */
    method BringUp(attempts: nat -> Attempt, limit: nat) returns (attempt: nat, sock: int, ret: int)
      requires limit > 0
      modifies this`trace
      ensures trace == old(trace) + Tries(attempts, 0, limit)
      ensures attempt <= limit && limit - attempt == Decisive(attempts, 0, limit)
      ensures var last := attempts(if attempt > 0 then limit - attempt else limit - 1);
              && sock == (if last.Socket? then last.fd else -1)
              && ret == if last.Socket? && last.answer == Up then 0 else -1
    {
      hide TryOnce, Tries, Decisive;
      ghost var before, done := trace, [];
      assert before + [] == before;
      attempt, sock, ret := limit, -1, -1;
      TriesStart(attempts, limit);
      while attempt > 0
        invariant 0 <= attempt <= limit
        invariant trace == before + done
        invariant Tries(attempts, 0, limit) == done + Tries(attempts, limit - attempt, limit)
        invariant Decisive(attempts, 0, limit) == Decisive(attempts, limit - attempt, limit)
        invariant attempt < limit ==>
                    var last := attempts(limit - attempt - 1);
                    && sock == (if last.Socket? then last.fd else -1)
                    && ret == if last.Socket? && last.answer == Up then 0 else -1
      {
        var next := attempts(limit - attempt);
        TriesStep(attempts, limit - attempt, limit, done);
        sock, ret := this.Attempt(next);
        Associative(before, done, TryOnce(next));
        done := done + TryOnce(next);
        if next.NoSocket? || next.answer != Failed {
          return;
        }
        attempt := attempt - 1;
      }
      TriesEnd(attempts, limit, done);
    }

    /** bt_enable. */
    method BtEnable(e: EnableAnswers) returns (ret: int)
      requires Valid()
      modifies this
      ensures Valid() && Did(Enable(build, old(Now()), e), ret)
    {
      hide Tries, Decisive, MaybeSetPower, Cached;
      ghost var s, before := Now(), trace;
      CachedStays(build, s, true, e.on);
      var power := SetPowerIfBuilt(true, e.on);
      ghost var on, t := MaybeSetPower(build, s, true, e.on), Now();
      ghost var off := MaybeSetPower(build, t, false, e.off);
      ret := -1;
      if power < 0 {
        return;
      }
      PropertySet(AttachProperty(build, e.attach));
      ghost var started := on.trace + [AttachProperty(build, e.attach)];
      assert trace == before + started;
      if !e.attach {
        var ignored := SetPowerIfBuilt(false, e.off);
        assert trace == before + (started + off.trace);
        return;
      }
      var attempt, sock;
      attempt, sock, ret := BringUp(e.attempts, ATTEMPTS);
      ghost var tried := started + Tries(e.attempts, 0, ATTEMPTS);
      assert trace == before + tried;
      if sock < 0 {
        return;
      }
      if attempt == 0 {
        PropertySet(Property("ctl.stop", "hciattach", e.stop));
        var ignored := SetPowerIfBuilt(false, e.off);
        Close(sock);
        FiveParts(before, tried, [Property("ctl.stop", "hciattach", e.stop)], off.trace, [CloseSocket(sock)]);
        return;
      }
      PropertySet(Property("ctl.start", "bluetoothd", e.daemon));
      if !e.daemon {
        var ignored := SetPowerIfBuilt(false, e.off);
        Close(sock);
        FiveParts(before, tried, [Property("ctl.start", "bluetoothd", e.daemon)], off.trace, [CloseSocket(sock)]);
        return;
      }
      ret := 0;
      Close(sock);
      FourParts(before, tried, [Property("ctl.start", "bluetoothd", e.daemon)], [CloseSocket(sock)]);
    }

    /** bt_disable. */
    method BtDisable(d: DisableAnswers) returns (ret: int)
      requires Valid()
      modifies this
      ensures Valid() && Did(Disable(build, old(Now()), d), ret)
    {
      hide MaybeSetPower, Cached;
      ghost var s, before := Now(), trace;
      ret := -1;
      PropertySet(Property("ctl.stop", "bluetoothd", d.stopDaemon));
      if !d.stopDaemon {
        return;
      }
      var sock := CreateHciSock(d.socket);
      if sock < 0 {
        assert trace == before + ([Property("ctl.stop", "bluetoothd", true)] + [OpenSocket(None)]);
        return;
      }
      trace := trace + [DevDown(sock, d.down)];
      PropertySet(DetachProperty(build, d.detach));
      ghost var stopped, three := [Property("ctl.stop", "bluetoothd", true)],
                                  [OpenSocket(Some(sock)), DevDown(sock, d.down), DetachProperty(build, d.detach)];
      assert trace == before + (stopped + three);
      if !d.detach {
        Close(sock);
        assert trace == before + (stopped + three + [CloseSocket(sock)]);
        return;
      }
      ghost var off := MaybeSetPower(build, s, false, d.off);
      var power := SetPowerIfBuilt(false, d.off);
      ret := if power < 0 then -1 else 0;
      Close(sock);
      FiveParts(before, stopped, three, off.trace, [CloseSocket(sock)]);
    }

    /** bt_is_enabled. */
    method BtIsEnabled(q: QueryAnswers) returns (ret: int)
      requires Valid()
      modifies this
      ensures Valid() && Did(IsEnabled(build, old(Now()), q), ret)
    {
      hide CheckPower, Cached;
      ghost var s, before := Now(), trace;
      ghost var power := if build.rfkill then CheckPower(s, q.power) else Effect(s, 1, []);
      assert before + [] == before;
      if build.rfkill {
        CheckReturns(s, q.power);
        ret := CheckBluetoothPower(q.power);
        if ret == -1 || ret == 0 {
          return;
        }
      }
      ret := -1;
      var sock := CreateHciSock(q.socket);
      if sock < 0 {
        assert trace == before + (power.trace + [OpenSocket(None)]);
        return;
      }
      trace := trace + [DevInfo(sock, q.up)];
      if q.up.None? {
        ret := 0;
      } else if q.up.value {
        ret := 1;
      } else {
        ret := 0;
      }
      Close(sock);
      assert trace == before + (power.trace + [OpenSocket(Some(sock)), DevInfo(sock, q.up), CloseSocket(sock)]);
    }
  }

  lemma TriesStart(attempts: nat -> Attempt, limit: nat)
    ensures Tries(attempts, 0, limit) == [] + Tries(attempts, 0, limit)
  {
  }

  /** What the attempt number k adds. */
  lemma TriesStep(attempts: nat -> Attempt, k: nat, limit: nat, done: seq<Sys>)
    requires k < limit
    ensures var once := TryOnce(attempts(k));
            if Decides(attempts(k)) then
              done + Tries(attempts, k, limit) == done + once && Decisive(attempts, k, limit) == k
            else
              && done + Tries(attempts, k, limit) == done + once + Tries(attempts, k + 1, limit)
              && Decisive(attempts, k, limit) == Decisive(attempts, k + 1, limit)
  {
    hide TryOnce;
  }

  lemma TriesEnd(attempts: nat -> Attempt, limit: nat, done: seq<Sys>)
    ensures done + Tries(attempts, limit, limit) == done && Decisive(attempts, limit, limit) == limit
  {
  }
}
