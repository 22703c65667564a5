/** The I2C master of spl/drivers/i2c.c, run against an arbitrary controller: every register read
    returns whatever the controller chooses, and the driver's writes and the statuses it decides
    on are recorded in a log. */
module I2c {
  import opened Ints
  import opened I2cProtocol

  /** The test `ctl & TWI_CTL_INTFLG`. */
  predicate Flagged(ctl: nat) {
    ctl / INTFLG % 2 == 1
  }

  predicate Stopping(ctl: nat) {
    ctl / STP % 2 == 1
  }

  predicate FlaggedAt(ctlAt: nat -> nat, t: nat) {
    Flagged(ctlAt(t))
  }

  predicate StatusIs(statusAt: nat -> nat, t: nat, wanted: nat) {
    statusAt(t) == wanted
  }

  /** The flag is seen in time, for the first time at f, by a poll begun at `from`. */
  ghost predicate FirstFlag(ctlAt: nat -> nat, from: nat, f: nat) {
    && from <= f < from + TRIES - 1 && FlaggedAt(ctlAt, f)
    && forall t: nat :: from <= t < f ==> !FlaggedAt(ctlAt, t)
  }

  /** The status becomes the wanted one before the last read that a counter of `tries` allows. */
  ghost predicate Seen(statusAt: nat -> nat, wanted: nat, from: nat, tries: nat) {
    exists t: nat :: from <= t < from + tries - 1 && StatusIs(statusAt, t, wanted)
  }

  /** A data byte asked for at `from` is acknowledged: the flag comes in time, and so does the
      status, counted from the read after the byte itself. */
  ghost predicate Acknowledged(ctlAt: nat -> nat, statusAt: nat -> nat, from: nat, wanted: nat, tries: nat) {
    exists f: nat :: FirstFlag(ctlAt, from, f) && Seen(statusAt, wanted, f + 2, tries)
  }

  lemma FirstFlagIs(ctlAt: nat -> nat, statusAt: nat -> nat, from: nat, f: nat, wanted: nat, tries: nat)
    requires FirstFlag(ctlAt, from, f)
    ensures Acknowledged(ctlAt, statusAt, from, wanted, tries) <==> Seen(statusAt, wanted, f + 2, tries)
  {
    forall g: nat | FirstFlag(ctlAt, from, g)
      ensures g == f
    {
      assert FlaggedAt(ctlAt, f) && FlaggedAt(ctlAt, g);
    }
  }

  /** A controller that always flags and turns from status 50 to 58 at the two hundredth read: the
      last of several bytes times out, where a counter set again would have waited. */
  lemma LateStatusTimesOut()
    ensures var ctlAt, statusAt := (t: nat) => INTFLG, (t: nat) => if t < 200 then 0x50 else 0x58;
      && !Acknowledged(ctlAt, statusAt, 2, 0x58, ReceiveLast().tries)
      && Acknowledged(ctlAt, statusAt, 2, 0x58, TRIES)
  {
    var ctlAt, statusAt := (t: nat) => INTFLG, (t: nat) => if t < 200 then 0x50 else 0x58;
    assert FlaggedAt(ctlAt, 2);
    FirstFlagIs(ctlAt, statusAt, 2, 2, 0x58, DELAY);
    FirstFlagIs(ctlAt, statusAt, 2, 2, 0x58, TRIES);
    assert StatusIs(statusAt, 200, 0x58);
  }

  /** The master and the controller it talks to: the read at time t of the control, status or
      data register returns ctlAt(t), statusAt(t) or dataAt(t). */
  class Bus {
    const ctlAt: nat -> nat
    const statusAt: nat -> nat
    const dataAt: nat -> nat
    var now: nat
    var hasInit: bool
    ghost var log: seq<Event>

    constructor (ctlAt: nat -> nat, statusAt: nat -> nat, dataAt: nat -> nat, hasInit: bool)
      ensures this.ctlAt == ctlAt && this.statusAt == statusAt && this.dataAt == dataAt
      ensures this.hasInit == hasInit && log == [] && Valid()
    {
      this.ctlAt, this.statusAt, this.dataAt := ctlAt, statusAt, dataAt;
      this.hasInit := hasInit;
      now := 0;
      log := [];
    }

    /** What an event claims about the controller. */
    ghost predicate Honest(e: Event) {
      match e
      case Took(t, b) => dataAt(t) % 0x100 == b
      case Status(t, v) => StatusIs(statusAt, t, v)
      case NoFlag(t) => !exists u :: t <= u < t + TRIES - 1 && FlaggedAt(ctlAt, u)
      case NoStatus(t, v, tries) => !Seen(statusAt, v, t, tries)
      case _ => true
    }

    /** The log is true to the controller. */
    ghost predicate Valid()
      reads this
    {
      forall e :: e in log ==> Honest(e)
    }

    /** Read-modify-write of the control register. */
    method OrCtl(mask: nat)
      requires Valid()
      modifies `now, `log
      ensures Valid() && log == old(log) + [SetCtl(mask)] && now == old(now) + 1
    {
      now := now + 1;
      log := log + [SetCtl(mask)];
    }

    method WriteData(value: nat)
      requires Valid()
      modifies `log
      ensures Valid() && log == old(log) + [Data(value)]
    {
      log := log + [Data(value)];
    }

    /** The polling loop on the interrupt flag and the test of its counter after it: a flag seen
        only on the very last read counts as a timeout. */
    method AwaitFlag() returns (ok: bool, ghost last: Event)
      requires Valid()
      modifies `now, `log
      ensures ok <==> exists t :: old(now) <= t < old(now) + 65534 && FlaggedAt(ctlAt, t)
      ensures ok ==> now > 0 && FirstFlag(ctlAt, old(now), now - 1)
      ensures Valid() && last.NoFlag? && log == old(log) + if ok then [] else [last]
      ensures now <= old(now) + TRIES
    {
      last := NoFlag(now);
      var time: int := TRIES;
      while true
        invariant 0 <= time <= TRIES && now == old(now) + (TRIES - time) && log == old(log)
        invariant forall t :: old(now) <= t < now ==> !FlaggedAt(ctlAt, t)
        decreases time
      {
        time := time - 1;
        if time + 1 == 0 {
          break;
        }
        now := now + 1;
        if FlaggedAt(ctlAt, now - 1) {
          break;
        }
      }
      ok := !(time <= 0);
      if !ok {
        log := log + [last];
      }
    }

    /** The polling loop on the status register, with the same test; its counter starts at
        `tries`. */
    method AwaitStatus(wanted: nat, tries: nat) returns (ok: bool, ghost last: Event)
      requires Valid()
      modifies `now, `log
      ensures Valid() && log == old(log) + [last] && now <= old(now) + tries
      ensures ok <==> Seen(statusAt, wanted, old(now), tries)
      ensures if ok then last.Status? && last.status == wanted && last.at == now - 1 < old(now) + tries - 1
        else last == NoStatus(old(now), wanted, tries)
    {
      var time: int := tries;
      while true
        invariant 0 <= time <= tries && now == old(now) + (tries - time) && log == old(log)
        invariant forall t :: old(now) <= t < now ==> !StatusIs(statusAt, t, wanted)
        decreases time
      {
        time := time - 1;
        if time + 1 == 0 {
          break;
        }
        now := now + 1;
        if StatusIs(statusAt, now - 1, wanted) {
          break;
        }
      }
      ok := !(time <= 0);
      last := if ok then Status(now - 1, wanted) else NoStatus(old(now), wanted, tries);
      log := log + [last];
    }

    /** The busy-wait, which counts in the polls' own variable. */
    method Delay() returns (time: int)
      ensures time == DELAY
    {
      time := 0;
      while time < 100
        invariant 0 <= time <= 100
      {
        time := time + 1;
      }
    }

    method CheckStatus(wanted: nat) returns (ret: int, ghost last: Event)
      requires Valid() && wanted > 0
      modifies `now, `log
      ensures Valid() && log == old(log) + [last] && last.Status?
      ensures ret == if last.status == wanted then 0 else -(wanted as int)
    {
      var v := statusAt(now);
      now := now + 1;
      last := Status(now - 1, v);
      log := log + [last];
      ret := if v != wanted then -(wanted as int) else 0;
    }

    /** The end of a step that takes no data and reads its status once. */
    method Settle(wanted: nat, ghost step: Step) returns (ret: int, ghost last: Event)
      requires Valid() && step.wanted == wanted > 0 && step.tries == 0
      modifies `now, `log
      ensures Valid() && log == old(log) + [last] && Settled(step, last, ret)
    {
      var ok;
      ok, last := AwaitFlag();
      if !ok {
        return -I2C_NOK_TOUT, last;
      }
      ret, last := CheckStatus(wanted);
    }

    method SendByteAddr(byteaddr: nat) returns (ret: int, ghost run: seq<Event>)
      requires Valid()
      modifies `now, `log
      ensures Valid()
      ensures log == old(log) + run && Outcome(PutByte(byteaddr % 0x100, false), run, ret)
    {
      WriteData(byteaddr % 0x100);
      OrCtl(INTFLG);
      ghost var last;
      ret, last := Settle(0x28, PutByte(byteaddr % 0x100, false));
      run := [Data(byteaddr % 0x100), SetCtl(INTFLG)] + [last];
      SettledOutcome(PutByte(byteaddr % 0x100, false), last, ret);
    }

    method SendStart() returns (ret: int, ghost run: seq<Event>)
      requires Valid()
      modifies `now, `log
      ensures Valid()
      ensures log == old(log) + run && Outcome(Start(), run, ret)
    {
      log := log + [ClearEft];
      log := log + [SetSrst];
      OrCtl(STA);
      ghost var last;
      ret, last := Settle(0x08, Start());
      run := [ClearEft, SetSrst, SetCtl(STA)] + [last];
      SettledOutcome(Start(), last, ret);
    }

    method SendSlaveAddr(saddr: u8, rw: nat) returns (ret: int, ghost run: seq<Event>)
      requires rw == I2C_WRITE || rw == I2C_READ
      requires Valid()
      modifies `now, `log
      ensures Valid()
      ensures log == old(log) + run && Outcome(Address(saddr, rw), run, ret)
    {
      WriteData(saddr * 2 + rw);
      OrCtl(INTFLG);
      ghost var last;
      ret, last := Settle(if rw == I2C_WRITE then 0x18 else 0x40, Address(saddr, rw));
      run := [Data(saddr * 2 + rw), SetCtl(INTFLG)] + [last];
      SettledOutcome(Address(saddr, rw), last, ret);
    }

    method SendRestart() returns (ret: int, ghost run: seq<Event>)
      requires Valid()
      modifies `now, `log
      ensures Valid()
      ensures log == old(log) + run && Outcome(Restart(), run, ret)
    {
      OrCtl(STA);
      ghost var last;
      ret, last := Settle(0x10, Restart());
      run := [SetCtl(STA)] + [last];
      SettledOutcome(Restart(), last, ret);
    }

    /** Waiting for the controller to take the stop bit back. */
    method AwaitStopped() returns (ok: bool)
      requires Valid()
      modifies `now
      ensures Valid()
    {
      var time: int := TRIES;
      while true
        invariant 0 <= time <= TRIES && Valid()
        decreases time
      {
        time := time - 1;
        if time + 1 == 0 {
          break;
        }
        now := now + 1;
        if !Stopping(ctlAt(now - 1)) {
          break;
        }
      }
      ok := !(time <= 0);
    }

    method AwaitReady()
      requires Valid()
      modifies `now
      ensures Valid()
    {
      var time: int := TRIES;
      while true
        invariant 0 <= time <= TRIES && Valid()
        decreases time
      {
        time := time - 1;
        if time + 1 == 0 {
          break;
        }
        now := now + 1;
        if statusAt(now - 1) == I2C_READY {
          break;
        }
      }
    }

    /** The result is not used by the callers. */
    method Stop() returns (ret: int, ghost run: seq<Event>)
      requires Valid()
      modifies `now, `log
      ensures Valid()
      ensures log == old(log) + run && IsStop(run)
      ensures ret == 0 <==> |run| == 3 && run[2].Status? && run[2].status == 0xf8
    {
      OrCtl(STP);
      OrCtl(INTFLG);
      run := [SetCtl(STP), SetCtl(INTFLG)];
      var ok := AwaitStopped();
      if !ok {
        return -I2C_NOK_TOUT, run;
      }
      AwaitReady();
      ghost var last;
      ret, last := CheckStatus(I2C_READY);
      run := run + [last];
      ret := if ret != 0 then -I2C_NOK_TOUT else 0;
    }

    method TakeByte(buf: array<u8>, i: nat) returns (ghost taken: Event)
      requires i < buf.Length
      requires Valid()
      modifies `now, `log, buf
      ensures Valid()
      ensures taken == Took(old(now), buf[i]) && now == old(now) + 1
      ensures log == old(log) + [taken] && buf[..] == old(buf[..])[i := buf[i]]
    {
      buf[i] := dataAt(now) % 0x100;
      taken := Took(now, buf[i]);
      now := now + 1;
      log := log + [taken];
    }

    /** The branch for a single byte.  The acknowledge bit is left as it is. */
    method GetOnly(buf: array<u8>, i: nat) returns (ret: int, ghost run: seq<Event>)
      requires i < buf.Length
      requires Valid()
      modifies `now, `log, buf
      ensures Valid()
      ensures log == old(log) + run && Outcome(ReceiveOnly(), run, ret)
      ensures Stored(old(buf[..]), buf[..], i, run) && |Received(run)| <= 1
      ensures ret == 0 ==> |Received(run)| == 1
    {
      ghost var cmds := [SetCtl(INTFLG)];
      OrCtl(INTFLG);
      var ok;
      ghost var last, taken;
      ok, last := AwaitFlag();
      if !ok {
        TimedOut(ReceiveOnly(), last.at);
        NothingStored(buf[..], i, cmds + [last]);
        return -I2C_NOK_TOUT, cmds + [last];
      }
      var _ := Delay();
      taken := TakeByte(buf, i);
      ret, last := CheckStatus(0x58);
      run := cmds + [taken] + [last];
      TookOutcome(ReceiveOnly(), taken, last, ret);
      OneStored(old(buf[..]), buf[..], i, cmds, taken.at, buf[i], last);
    }

    /** The end of a multi-byte step: flag, busy-wait, data register, then polling of the status,
        with the counter set again before or not. */
    method TakePolled(buf: array<u8>, i: nat, wanted: nat, again: bool, ghost step: Step)
      returns (ret: int, ghost run: seq<Event>)
      requires i < buf.Length && step.takes && step.tries == (if again then TRIES else DELAY) && step.wanted == wanted
      requires forall e :: e in step.commands ==> !e.Took?
      requires Valid()
      modifies `now, `log, buf
      ensures Valid()
      ensures step.commands <= run && log == old(log) + run[|step.commands|..]
      ensures Outcome(step, run, ret) && Stored(old(buf[..]), buf[..], i, run) && |Received(run)| <= 1
      ensures ret == 0 ==> |Received(run)| == 1
      ensures ret == 0 <==> Acknowledged(ctlAt, statusAt, old(now), wanted, step.tries)
    {
      hide Outcome, Stored, Seen;
      ghost var from := now;
      var ok;
      ghost var last;
      ok, last := AwaitFlag();
      if !ok {
        TimedOut(step, last.at);
        run := step.commands + [last];
        assert run[|step.commands|..] == [last];
        NothingStored(buf[..], i, run);
        return -I2C_NOK_TOUT, run;
      }
      var time := Delay();
      FirstFlagIs(ctlAt, statusAt, from, now - 1, wanted, step.tries);
      if again {
        time := TRIES;
      }
      ret, run := TakeAndPoll(buf, i, wanted, time, step);
    }

    method TakeAndPoll(buf: array<u8>, i: nat, wanted: nat, time: nat, ghost step: Step)
      returns (ret: int, ghost run: seq<Event>)
      requires i < buf.Length && step.takes && step.tries == time > 0 && step.wanted == wanted
      requires forall e :: e in step.commands ==> !e.Took?
      requires Valid()
      modifies `now, `log, buf
      ensures Valid()
      ensures step.commands <= run && log == old(log) + run[|step.commands|..]
      ensures Outcome(step, run, ret) && Stored(old(buf[..]), buf[..], i, run) && |Received(run)| == 1
      ensures ret == 0 <==> Seen(statusAt, wanted, old(now) + 1, time)
    {
      hide Stored;
      ghost var taken := TakeByte(buf, i);
      var ok;
      ghost var last;
      ok, last := AwaitStatus(wanted, time);
      ret := if ok then 0 else -I2C_NOK_TOUT;
      run := step.commands + [taken] + [last];
      assert run[|step.commands|..] == [taken] + [last];
      TookOutcome(step, taken, last, ret);
      OneStored(old(buf[..]), buf[..], i, step.commands, taken.at, buf[i], last);
    }

    method GetMore(buf: array<u8>, i: nat) returns (ret: int, ghost run: seq<Event>)
      requires i < buf.Length
      requires Valid()
      modifies `now, `log, buf
      ensures Valid()
      ensures log == old(log) + run && Outcome(ReceiveMore(), run, ret)
      ensures Stored(old(buf[..]), buf[..], i, run) && |Received(run)| <= 1
      ensures ret == 0 ==> |Received(run)| == 1
      ensures ret == 0 <==> Acknowledged(ctlAt, statusAt, old(now) + 2, 0x50, 65535)
    {
      now := now + 1;
      OrCtl(INTFLG + ACK);
      ret, run := TakePolled(buf, i, 0x50, true, ReceiveMore());
      assert ReceiveMore().commands + run[1..] == run;
    }

    /** The last of several bytes is acknowledged exactly when its flag comes in time and status 58
        is seen within the first 99 reads. */
    method GetLast(buf: array<u8>, i: nat) returns (ret: int, ghost run: seq<Event>)
      requires i < buf.Length
      requires Valid()
      modifies `now, `log, buf
      ensures Valid()
      ensures log == old(log) + run && Outcome(ReceiveLast(), run, ret)
      ensures Stored(old(buf[..]), buf[..], i, run) && |Received(run)| <= 1
      ensures ret == 0 ==> |Received(run)| == 1
      ensures ret == 0 <==> Acknowledged(ctlAt, statusAt, old(now) + 2, 0x58, 100)
    {
      now := now + 1;
      log := log + [ClearCtl(ACK)];
      OrCtl(INTFLG);
      ret, run := TakePolled(buf, i, 0x58, false, ReceiveLast());
      assert ReceiveLast().commands + run[2..] == run;
    }

    method GetData(buf: array<u8>, count: nat) returns (ret: int, ghost run: seq<Event>)
      requires 1 <= count <= buf.Length
      requires Valid()
      modifies `now, `log, buf
      ensures Valid()
      ensures log == old(log) + run && Attempt(ReceiveSteps(count), run, ret)
      ensures Stored(old(buf[..]), buf[..], 0, run)
      ensures ret == 0 ==> |Received(run)| == count
    {
      if count == 1 {
        ret, run := GetOnly(buf, 0);
        Single(ReceiveOnly(), run, ret);
      } else {
        ret, run := GetSeveral(buf, count);
      }
    }

    method GetSeveral(buf: array<u8>, count: nat) returns (ret: int, ghost run: seq<Event>)
      requires 2 <= count <= buf.Length
      requires Valid()
      modifies `now, `log, buf
      ensures Valid()
      ensures log == old(log) + run && Attempt(MoreSteps(count - 1) + [ReceiveLast()], run, ret)
      ensures Stored(old(buf[..]), buf[..], 0, run)
      ensures ret == 0 ==> |Received(run)| == count
    {
      ghost var was := buf[..];
      ret, run := GetAllButLast(buf, count);
      ret, run := GetLastAfter(MoreSteps(count - 1), was, ret, run, buf, count - 1);
    }

    /** The last byte, after an attempt of the steps `head` on a buffer that held `was`. */
    method GetLastAfter(ghost head: seq<Step>, ghost was: seq<u8>, ret0: int, ghost before: seq<Event>,
                        buf: array<u8>, i: nat)
      returns (ret: int, ghost run: seq<Event>)
      requires i < buf.Length && Attempt(head, before, ret0)
      requires Stored(was, buf[..], 0, before) && (ret0 == 0 ==> |Received(before)| == i)
      requires Valid()
      modifies `now, `log, buf
      ensures Valid()
      ensures before <= run && log == old(log) + run[|before|..]
      ensures Attempt(head + [ReceiveLast()], run, ret) && Stored(was, buf[..], 0, run)
      ensures ret == 0 ==> |Received(run)| == i + 1
    {
      if ret0 != 0 {
        Stopped(head, [ReceiveLast()], before, ret0);
        return ret0, before;
      }
      ghost var mid, more := buf[..], [];
      ret, more := GetLast(buf, i);
      Extend(head, before, ReceiveLast(), more, ret);
      StoredNext(was, mid, buf[..], before, more);
      run := before + more;
    }

    method GetAllButLast(buf: array<u8>, count: nat) returns (ret: int, ghost run: seq<Event>)
      requires 2 <= count <= buf.Length
      requires Valid()
      modifies `now, `log, buf
      ensures Valid()
      ensures log == old(log) + run && Attempt(MoreSteps(count - 1), run, ret)
      ensures Stored(old(buf[..]), buf[..], 0, run)
      ensures ret == 0 ==> |Received(run)| == count - 1
    {
      hide Attempt, Stored;
      ghost var was := buf[..];
      run := [];
      ret := 0;
      NothingStored(was, 0, run);
      NoneYet();
      var i := 0;
      while i < count - 1
        invariant 0 <= i <= count - 1 && ret == 0
        invariant Valid() && log == old(log) + run && Attempt(MoreSteps(i), run, 0)
        invariant Stored(was, buf[..], 0, run) && |Received(run)| == i
      {
        ret, run := GetNext(buf, i, count, was, run);
        if ret != 0 {
          return;
        }
        i := i + 1;
      }
    }

    /** One pass of the loop; `before` is what the earlier passes did. */
    method GetNext(buf: array<u8>, i: nat, count: nat, ghost was: seq<u8>, ghost before: seq<Event>)
      returns (ret: int, ghost run: seq<Event>)
      requires i < count - 1 < buf.Length && Attempt(MoreSteps(i), before, 0)
      requires Stored(was, buf[..], 0, before) && |Received(before)| == i
      requires Valid()
      modifies `now, `log, buf
      ensures Valid()
      ensures before <= run && log == old(log) + run[|before|..]
      ensures Attempt(MoreSteps(if ret == 0 then i + 1 else count - 1), run, ret)
      ensures Stored(was, buf[..], 0, run) && (ret == 0 ==> |Received(run)| == i + 1)
    {
      ghost var mid, more := buf[..], [];
      ret, more := GetMore(buf, i);
      NextReceived(was, mid, buf[..], count - 1, i, before, more, ret);
      run := before + more;
    }

    method SendData(data: array<u8>, count: nat) returns (ret: int, ghost run: seq<Event>)
      requires count <= data.Length
      requires Valid()
      modifies `now, `log
      ensures Valid()
      ensures log == old(log) + run && Attempt(ByteSteps(data[..count], true), run, ret)
    {
      hide Attempt, ByteSteps;
      ghost var all := data[..count];
      run := [];
      ret := 0;
      NothingYet(true);
      var i := 0;
      while i < count
        invariant 0 <= i <= count && ret == 0
        invariant Valid() && log == old(log) + run && Attempt(ByteSteps(all[..i], true), run, 0)
      {
        ret, run := SendOne(data[i], all, i, run);
        if ret != 0 {
          return;
        }
        i := i + 1;
      }
      assert all[..count] == all;
    }

    /** One pass of the loop, for byte i of `all`; `before` is what the earlier passes did. */
    method SendOne(b: u8, ghost all: seq<u8>, ghost i: nat, ghost before: seq<Event>)
      returns (ret: int, ghost run: seq<Event>)
      requires i < |all| && all[i] == b && Attempt(ByteSteps(all[..i], true), before, 0)
      requires Valid()
      modifies `now, `log
      ensures Valid()
      ensures before <= run && log == old(log) + run[|before|..]
      ensures Attempt(if ret == 0 then ByteSteps(all[..i + 1], true) else ByteSteps(all, true), run, ret)
    {
      ghost var more;
      ret, more := SendPolled(b);
      ByteNext(all, true, i, before, more, ret);
      run := before + more;
    }

    method SendPolled(b: u8) returns (ret: int, ghost run: seq<Event>)
      requires Valid()
      modifies `now, `log
      ensures Valid()
      ensures log == old(log) + run && Outcome(PutByte(b, true), run, ret)
    {
      WriteData(b);
      OrCtl(INTFLG);
      var ok;
      ghost var last;
      ok, last := AwaitFlag();
      if ok {
        ok, last := AwaitStatus(0x28, TRIES);
      }
      ret := if ok then 0 else -I2C_NOK_TOUT;
      run := [Data(b), SetCtl(INTFLG)] + [last];
      SettledOutcome(PutByte(b, true), last, ret);
    }

    method SendRegBytes(addr: nat, alen: int) returns (ret: int, ghost run: seq<Event>)
      requires Valid()
      modifies `now, `log
      ensures Valid()
      ensures log == old(log) + run && Attempt(ByteSteps(RegBytes(addr, alen), false), run, ret)
    {
      var addrlen;
      if alen >= 3 {
        addrlen := 2;
      } else if alen <= 1 {
        addrlen := 0;
      } else {
        addrlen := 1;
      }
      var slaveReg: seq<u8> := [addr % 0x100, addr / 0x100 % 0x100, addr / 0x1_0000 % 0x100];
      ret, run := SendDownwards(slaveReg, addrlen, RegBytes(addr, alen));
    }

    /** The loop over the register address bytes; `all` are the bytes in the order sent. */
    method SendDownwards(slaveReg: seq<u8>, addrlen: nat, ghost all: seq<u8>)
      returns (ret: int, ghost run: seq<Event>)
      requires addrlen < |slaveReg| && |all| == addrlen + 1
      requires forall k :: 0 <= k <= addrlen ==> all[k] == slaveReg[addrlen - k]
      requires Valid()
      modifies `now, `log
      ensures Valid()
      ensures log == old(log) + run && Attempt(ByteSteps(all, false), run, ret)
    {
      hide Attempt, ByteSteps;
      run := [];
      ret := 0;
      NothingYet(false);
      var i: int := addrlen;
      while i >= 0
        invariant -1 <= i <= addrlen && ret == 0
        invariant Valid() && log == old(log) + run && Attempt(ByteSteps(all[..addrlen - i], false), run, 0)
      {
        ret, run := SendRegByte(slaveReg[i], all, addrlen - i, run);
        if ret != 0 {
          return;
        }
        i := i - 1;
      }
      assert all[..addrlen + 1] == all;
    }

    method SendRegByte(b: u8, ghost all: seq<u8>, ghost k: nat, ghost before: seq<Event>)
      returns (ret: int, ghost run: seq<Event>)
      requires k < |all| && all[k] == b && Attempt(ByteSteps(all[..k], false), before, 0)
      requires Valid()
      modifies `now, `log
      ensures Valid()
      ensures before <= run && log == old(log) + run[|before|..]
      ensures Attempt(if ret == 0 then ByteSteps(all[..k + 1], false) else ByteSteps(all, false), run, ret)
    {
      ghost var more;
      ret, more := SendByteAddr(b);
      ByteNext(all, false, k, before, more, ret);
      run := before + more;
    }

    method OpenChip(chip: u8) returns (ret: int, ghost run: seq<Event>)
      requires Valid()
      modifies `now, `log
      ensures Valid()
      ensures log == old(log) + run && Attempt([Start()] + [Address(chip, I2C_WRITE)], run, ret)
    {
      ret, run := SendStart();
      Single(Start(), run, ret);
      if ret != 0 {
        Stopped([Start()], [Address(chip, I2C_WRITE)], run, ret);
        return;
      }
      ghost var more;
      ret, more := SendSlaveAddr(chip, I2C_WRITE);
      Extend([Start()], run, Address(chip, I2C_WRITE), more, ret);
      run := run + more;
    }

    /** The part shared by reads and writes: start, slave address, register address. */
    method Open(chip: u8, addr: nat, alen: int) returns (ret: int, ghost run: seq<Event>)
      requires Valid()
      modifies `now, `log
      ensures Valid()
      ensures log == old(log) + run && Attempt(Opening(chip, addr, alen), run, ret)
    {
      ghost var head := [Start()] + [Address(chip, I2C_WRITE)];
      ghost var regs := ByteSteps(RegBytes(addr, alen), false);
      assert Opening(chip, addr, alen) == head + regs;
      ret, run := OpenChip(chip);
      if ret != 0 {
        Stopped(head, regs, run, ret);
        return;
      }
      ghost var more;
      ret, more := SendRegBytes(addr, alen);
      Concat(head, run, regs, more, ret);
      run := run + more;
    }

    method TurnAround(chip: u8) returns (ret: int, ghost run: seq<Event>)
      requires Valid()
      modifies `now, `log
      ensures Valid()
      ensures log == old(log) + run && Attempt(Turn(chip), run, ret)
    {
      ret, run := SendRestart();
      Single(Restart(), run, ret);
      if ret != 0 {
        Stopped([Restart()], [Address(chip, I2C_READ)], run, ret);
        return;
      }
      ghost var more;
      ret, more := SendSlaveAddr(chip, I2C_READ);
      Extend([Restart()], run, Address(chip, I2C_READ), more, ret);
      run := run + more;
    }

    method TurnAfter(ghost head: seq<Step>, ret0: int, ghost before: seq<Event>, chip: u8)
      returns (ret: int, ghost run: seq<Event>)
      requires Attempt(head, before, ret0)
      requires Valid()
      modifies `now, `log
      ensures Valid()
      ensures before <= run && log == old(log) + run[|before|..]
      ensures Attempt(head + Turn(chip), run, ret)
    {
      if ret0 != 0 {
        Stopped(head, Turn(chip), before, ret0);
        return ret0, before;
      }
      ghost var more;
      ret, more := TurnAround(chip);
      Concat(head, before, Turn(chip), more, ret);
      run := before + more;
    }

    method OpenForRead(chip: u8, addr: nat, alen: int) returns (ret: int, ghost run: seq<Event>)
      requires Valid()
      modifies `now, `log
      ensures Valid()
      ensures log == old(log) + run && Attempt(ReadOpening(chip, addr, alen), run, ret)
      ensures Received(run) == []
    {
      ret, run := Open(chip, addr, alen);
      ret, run := TurnAfter(Opening(chip, addr, alen), ret, run, chip);
      ReadOpeningSilent(chip, addr, alen, run, ret);
    }

    /** The data bytes, after the steps `head` with nothing received. */
    method GetDataAfter(ghost head: seq<Step>, ghost before: seq<Event>, buf: array<u8>, len: nat)
      returns (ret: int, ghost run: seq<Event>)
      requires 1 <= len <= buf.Length
      requires Attempt(head, before, 0) && Received(before) == []
      requires Valid()
      modifies `now, `log, buf
      ensures Valid()
      ensures before <= run && log == old(log) + run[|before|..]
      ensures Attempt(head + ReceiveSteps(len), run, ret) && Stored(old(buf[..]), buf[..], 0, run)
      ensures ret == 0 ==> |Received(run)| == len
    {
      ghost var more;
      ret, more := GetData(buf, len);
      SilentThen(head, ReceiveSteps(len), old(buf[..]), buf[..], before, more, ret);
      run := before + more;
    }

    /** What follows the attempt of the steps `head`, which receive nothing. */
    method FinishRead(ghost head: seq<Step>, ret0: int, ghost before: seq<Event>, buf: array<u8>, len: nat)
      returns (ret: int, ghost run: seq<Event>)
      requires 1 <= len <= buf.Length
      requires Attempt(head, before, ret0) && Received(before) == []
      requires Valid()
      modifies `now, `log, buf
      ensures Valid()
      ensures before <= run && log == old(log) + run[|before|..]
      ensures Attempt(head + ReceiveSteps(len), run, ret) && Stored(old(buf[..]), buf[..], 0, run)
      ensures ret == 0 ==> |Received(run)| == len
    {
      if ret0 != 0 {
        SilentStop(head, ReceiveSteps(len), buf[..], before, ret0);
        return ret0, before;
      }
      ret, run := GetDataAfter(head, before, buf, len);
    }

    method ReadSteps(chip: u8, addr: nat, alen: int, buf: array<u8>, len: nat) returns (ret: int, ghost run: seq<Event>)
      requires 1 <= len <= buf.Length
      requires Valid()
      modifies `now, `log, buf
      ensures Valid()
      ensures log == old(log) + run && Attempt(ReadProtocol(chip, addr, alen, len), run, ret)
      ensures Stored(old(buf[..]), buf[..], 0, run)
      ensures ret == 0 ==> |Received(run)| == len
    {
      hide Attempt, ReadOpening, Stored;
      ret, run := OpenForRead(chip, addr, alen);
      ghost var head := ReadOpening(chip, addr, alen);
      ret, run := FinishRead(head, ret, run, buf, len);
    }

    /** i2c_read: whatever the controller does, the call ends, and after the attempted steps comes
        exactly one stop; the buffer holds the bytes received, from its start on. */
    method Read(chip: u8, addr: nat, alen: int, buf: array<u8>, len: nat)
      returns (ret: int, ghost run: seq<Event>, ghost stop: seq<Event>)
      requires 1 <= len <= buf.Length
      requires Valid()
      modifies `now, `log, buf
      ensures Valid()
      ensures !hasInit ==> ret == -4 && log == old(log) && buf[..] == old(buf[..])
      ensures hasInit ==> log == old(log) + run + stop && IsStop(stop)
      ensures hasInit ==> Attempt(ReadProtocol(chip, addr, alen, len), run, ret)
      ensures hasInit ==> Stored(old(buf[..]), buf[..], 0, run) && (ret == 0 ==> |Received(run)| == len)
    {
      if !hasInit {
        return -I2C_NOK_TOUT, [], [];
      }
      ret, run := ReadSteps(chip, addr, alen, buf, len);
      var _, s := Stop();
      stop := s;
    }

    /** The data bytes, after an attempt of the steps `head`. */
    method FinishWrite(ghost head: seq<Step>, ret0: int, ghost before: seq<Event>, data: array<u8>, len: nat)
      returns (ret: int, ghost run: seq<Event>)
      requires len <= data.Length && Attempt(head, before, ret0)
      requires Valid()
      modifies `now, `log
      ensures Valid()
      ensures before <= run && log == old(log) + run[|before|..]
      ensures Attempt(head + ByteSteps(data[..len], true), run, ret)
    {
      if ret0 != 0 {
        Stopped(head, ByteSteps(data[..len], true), before, ret0);
        return ret0, before;
      }
      ghost var more;
      ret, more := SendData(data, len);
      Concat(head, before, ByteSteps(data[..len], true), more, ret);
      run := before + more;
    }

    method WriteSteps(chip: u8, addr: nat, alen: int, data: array<u8>, len: nat)
      returns (ret: int, ghost run: seq<Event>)
      requires len <= data.Length
      requires Valid()
      modifies `now, `log
      ensures Valid()
      ensures log == old(log) + run && Attempt(WriteProtocol(chip, addr, alen, data[..len]), run, ret)
    {
      ret, run := Open(chip, addr, alen);
      ret, run := FinishWrite(Opening(chip, addr, alen), ret, run, data, len);
    }

    /** i2c_write: as i2c_read, but every failure is reported as -1; `err` is the step's own code. */
    method Write(chip: u8, addr: nat, alen: int, data: array<u8>, len: nat)
      returns (ret0: int, ghost err: int, ghost run: seq<Event>, ghost stop: seq<Event>)
      requires len <= data.Length
      requires Valid()
      modifies `now, `log
      ensures Valid()
      ensures !hasInit ==> ret0 == -4 && log == old(log)
      ensures hasInit ==> log == old(log) + run + stop && IsStop(stop)
      ensures hasInit ==> Attempt(WriteProtocol(chip, addr, alen, data[..len]), run, err)
      ensures hasInit ==> ret0 == if err == 0 then 0 else -1
    {
      if !hasInit {
        return -I2C_NOK_TOUT, 0, [], [];
      }
      ret0 := -1;
      var ret;
      ret, run := WriteSteps(chip, addr, alen, data, len);
      err := ret;
      if ret == 0 {
        ret0 := 0;
      }
      var _, s := Stop();
      stop := s;
    }
  }
}
