/** The steps of an I2C transfer as spl/drivers/i2c.c performs them: what each step writes to the
    controller, which status acknowledges it, and what a list of steps tried in order leaves in the
    log.  The protocol is that of sections 3.1.6 and 3.1.10 of NXP UM10204. */
module I2cProtocol {
  import opened Ints

  const I2C_WRITE: nat := 0
  const I2C_READ: nat := 1
  const I2C_NOK_TOUT: int := 4

  const ACK: nat := 0x04
  const INTFLG: nat := 0x08
  const STP: nat := 0x10
  const STA: nat := 0x20
  const I2C_READY: nat := 0xf8

  /** The start value of every polling counter but one. */
  const TRIES: nat := 0xffff

  /** Where the busy-wait before a data byte is taken leaves the counter it shares with the polls. */
  const DELAY: nat := 100

  /** What passes between the driver and the controller.  `ctl |= mask` and `ctl &= ~mask` are
      SetCtl and ClearCtl; Took is a data byte read at time `at`, and Status the value read then that
      a step decides on; NoFlag and NoStatus are polls begun at `at` that ran out of tries, the
      latter with its counter starting at `tries`. */
  datatype Event =
    | ClearEft | SetSrst | SetCtl(mask: nat) | ClearCtl(mask: nat) | Data(value: nat)
    | Took(at: nat, taken: u8) | Status(at: nat, status: nat)
    | NoFlag(at: nat) | NoStatus(at: nat, missed: nat, tries: nat)

  // ------------------------------------------------------------- the protocol

  /** A step: the writes that ask the controller for it, whether a data byte is then taken, the
      counter with which the driver waits for the status to become the wanted one, 0 if it reads
      the status once, and the status that acknowledges the step. */
  datatype Step = Step(commands: seq<Event>, takes: bool, tries: nat, wanted: nat)

  function Start(): Step { Step([ClearEft, SetSrst, SetCtl(STA)], false, 0, 0x08) }

  function Address(chip: u8, rw: nat): Step {
    Step([Data(chip * 2 + rw), SetCtl(INTFLG)], false, 0, if rw == I2C_WRITE then 0x18 else 0x40)
  }

  /** A register address byte, whose status is read once, or a data byte, whose status is polled. */
  function PutByte(b: u8, polled: bool): Step {
    Step([Data(b), SetCtl(INTFLG)], false, if polled then TRIES else 0, 0x28)
  }

  function Restart(): Step { Step([SetCtl(STA)], false, 0, 0x10) }

  function ReceiveOnly(): Step { Step([SetCtl(INTFLG)], true, 0, 0x58) }

  function ReceiveMore(): Step { Step([SetCtl(INTFLG + ACK)], true, TRIES, 0x50) }

  /** The counter is not set again after the busy-wait. */
  function ReceiveLast(): Step { Step([ClearCtl(ACK), SetCtl(INTFLG)], true, DELAY, 0x58) }

  predicate IsTake(step: Step, e: seq<Event>) {
    if step.takes then |e| == 1 && e[0].Took? else e == []
  }

  function Size(step: Step): nat {
    |step.commands| + (if step.takes then 1 else 0) + 1
  }

  /** A status waited for after a byte was taken came before the last read the counter allows. */
  predicate InTime(step: Step, end: seq<Event>) {
    |end| == 2 && end[0].Took? && end[1].Status? && step.tries > 0 ==> end[1].at < end[0].at + step.tries
  }

  /** The complete trace of an acknowledged step. */
  predicate Done(step: Step, run: seq<Event>) {
    && |run| == Size(step)
    && run[..|step.commands|] == step.commands
    && IsTake(step, run[|step.commands|..|run| - 1])
    && run[|run| - 1].Status? && run[|run| - 1].status == step.wanted
    && InTime(step, run[|step.commands|..])
  }

  /** The trace of a step that failed, with the code returned for it: the interrupt flag was not
      seen in time, the status did not become the wanted one in time, or it was another one. */
  predicate Failed(step: Step, run: seq<Event>, ret: int) {
    var n := |step.commands|;
    && n < |run| && run[..n] == step.commands
    && ((|run| == n + 1 && run[n].NoFlag? && ret == -I2C_NOK_TOUT)
        || (|run| == Size(step) && IsTake(step, run[n..|run| - 1]) && Refused(step, run[|run| - 1], ret)))
  }

  /** The status did not become the wanted one in time, or was another one. */
  predicate Refused(step: Step, last: Event, ret: int) {
    if step.tries > 0 then last.NoStatus? && last.missed == step.wanted && last.tries == step.tries && ret == -I2C_NOK_TOUT
    else last.Status? && last.status != step.wanted && ret == -(step.wanted as int)
  }

  predicate Outcome(step: Step, run: seq<Event>, ret: int) {
    if ret == 0 then Done(step, run) else Failed(step, run, ret)
  }

  /** `run` is what happens when the steps are tried in order up to the first failure, and `ret`
      the code of that failure, or 0. */
  predicate Attempt(steps: seq<Step>, run: seq<Event>, ret: int)
    decreases |steps|
  {
    if steps == [] then run == [] && ret == 0
    else
      var n := Size(steps[0]);
      if |run| >= n && Done(steps[0], run[..n]) then Attempt(steps[1..], run[n..], ret)
      else ret != 0 && Failed(steps[0], run, ret)
  }

  /** What bytes denote, most significant first. */
  function BigEndian(s: seq<u8>): nat {
    if s == [] then 0 else BigEndian(s[..|s| - 1]) * 0x100 + s[|s| - 1]
  }

  /** The low bytes of the register address: one, two or three of them, most significant first. */
  predicate IsRegAddress(s: seq<u8>, addr: nat, alen: int) {
    if alen <= 1 then |s| == 1 && BigEndian(s) == addr % 0x100
    else if alen == 2 then |s| == 2 && BigEndian(s) == addr % 0x1_0000
    else |s| == 3 && BigEndian(s) == addr % 0x100_0000
  }

  function RegBytes(addr: nat, alen: int): (s: seq<u8>)
    ensures 1 <= |s| <= 3
  {
    var b0, b1, b2 := addr % 0x100, addr / 0x100 % 0x100, addr / 0x1_0000 % 0x100;
    if alen >= 3 then [b2, b1, b0] else if alen <= 1 then [b0] else [b1, b0]
  }

  lemma RegBytesDenote(addr: nat, alen: int)
    ensures IsRegAddress(RegBytes(addr, alen), addr, alen)
  {
    var b0, b1, b2 := addr % 0x100, addr / 0x100 % 0x100, addr / 0x1_0000 % 0x100;
    BigEndianIs(b0, b1, b2);
    TwoBytes(addr, addr / 0x100, addr / 0x1_0000);
    ThreeBytes(addr, addr / 0x1_0000, addr / 0x100_0000);
  }

  lemma TwoBytes(a: nat, q: nat, p: nat)
    requires q == a / 0x100 && p == a / 0x1_0000
    ensures a % 0x1_0000 == q % 0x100 * 0x100 + a % 0x100
  {
    assert q / 0x100 == p;
  }

  lemma ThreeBytes(a: nat, q: nat, p: nat)
    requires q == a / 0x1_0000 && p == a / 0x100_0000
    ensures a % 0x100_0000 == q % 0x100 * 0x1_0000 + a % 0x1_0000
  {
    assert q / 0x100 == p;
  }

  lemma BigEndianIs(b0: u8, b1: u8, b2: u8)
    ensures BigEndian([b0]) == b0 && BigEndian([b1, b0]) == b1 * 0x100 + b0
    ensures BigEndian([b2, b1, b0]) == b2 * 0x1_0000 + b1 * 0x100 + b0
  {
    BigEndianLast([], b0);
    BigEndianLast([], b1);
    BigEndianLast([b1], b0);
    BigEndianLast([], b2);
    BigEndianLast([b2], b1);
    BigEndianLast([b2, b1], b0);
    assert [] + [b0] == [b0] && [] + [b1] == [b1] && [] + [b2] == [b2];
    assert [b1] + [b0] == [b1, b0] && [b2] + [b1] == [b2, b1] && [b2, b1] + [b0] == [b2, b1, b0];
  }

  lemma BigEndianLast(s: seq<u8>, b: u8)
    ensures BigEndian(s + [b]) == BigEndian(s) * 0x100 + b
  {
    assert (s + [b])[..|s|] == s;
  }

  function ByteSteps(bytes: seq<u8>, polled: bool): (r: seq<Step>)
    ensures |r| == |bytes|
  {
    if bytes == [] then [] else ByteSteps(bytes[..|bytes| - 1], polled) + [PutByte(bytes[|bytes| - 1], polled)]
  }

  function Opening(chip: u8, addr: nat, alen: int): seq<Step> {
    [Start(), Address(chip, I2C_WRITE)] + ByteSteps(RegBytes(addr, alen), false)
  }

  function ReceiveSteps(len: nat): seq<Step>
    requires len >= 1
  {
    if len == 1 then [ReceiveOnly()] else MoreSteps(len - 1) + [ReceiveLast()]
  }

  function MoreSteps(n: nat): (r: seq<Step>)
    ensures |r| == n
    ensures forall i :: 0 <= i < n ==> r[i] == ReceiveMore()
  {
    if n == 0 then [] else MoreSteps(n - 1) + [ReceiveMore()]
  }

  function Turn(chip: u8): seq<Step> {
    [Restart()] + [Address(chip, I2C_READ)]
  }

  /** All of a read up to the data. */
  function ReadOpening(chip: u8, addr: nat, alen: int): seq<Step> {
    Opening(chip, addr, alen) + Turn(chip)
  }

  function ReadProtocol(chip: u8, addr: nat, alen: int, len: nat): seq<Step>
    requires len >= 1
  {
    ReadOpening(chip, addr, alen) + ReceiveSteps(len)
  }

  function WriteProtocol(chip: u8, addr: nat, alen: int, data: seq<u8>): seq<Step> {
    Opening(chip, addr, alen) + ByteSteps(data, true)
  }

  /** The bytes taken from the controller in a run. */
  function Received(run: seq<Event>): seq<u8>
    decreases |run|
  {
    if run == [] then [] else
      var rest := Received(run[..|run| - 1]);
      if run[|run| - 1].Took? then rest + [run[|run| - 1].taken] else rest
  }

  /** i2c_stop's writes, and the status it ends on if it gets that far. */
  predicate IsStop(e: seq<Event>) {
    && 2 <= |e| <= 3 && e[0] == SetCtl(0x10) && e[1] == SetCtl(0x08)
    && (|e| == 3 ==> e[2].Status?)
  }

  // ------------------------------------------------------------- composing attempts

  lemma Cons(step: Step, rest: seq<Step>, head: seq<Event>, tail: seq<Event>, ret: int)
    requires Done(step, head) && Attempt(rest, tail, ret)
    ensures Attempt([step] + rest, head + tail, ret)
  {
    var steps, run, n := [step] + rest, head + tail, Size(step);
    assert steps[0] == step && steps[1..] == rest;
    assert run[..n] == head && run[n..] == tail;
  }

  lemma Single(step: Step, run: seq<Event>, ret: int)
    requires Outcome(step, run, ret)
    ensures Attempt([step], run, ret)
  {
    if ret == 0 {
      Cons(step, [], run, [], 0);
      assert [step] + [] == [step] && run + [] == run;
    } else {
      assert !(|run| >= Size(step) && Done(step, run[..Size(step)]));
    }
  }

  /** Splitting an attempt that got past its first step. */
  lemma Uncons(a: seq<Step>, run: seq<Event>, ret: int) returns (head: seq<Event>, tail: seq<Event>)
    requires Attempt(a, run, ret) && a != []
    requires |run| >= Size(a[0]) && Done(a[0], run[..Size(a[0])])
    ensures run == head + tail && Done(a[0], head) && Attempt(a[1..], tail, ret)
  {
    head, tail := run[..Size(a[0])], run[Size(a[0])..];
  }

  lemma FirstDone(a: seq<Step>, run: seq<Event>)
    requires Attempt(a, run, 0) && a != []
    ensures |run| >= Size(a[0]) && Done(a[0], run[..Size(a[0])])
  {
  }

  lemma Regroup<T>(a: seq<T>, b: seq<T>, c: seq<T>)
    ensures a + (b + c) == a + b + c
  {
  }

  lemma HeadTail<T>(a: seq<T>)
    requires a != []
    ensures [a[0]] + a[1..] == a
  {
  }

  lemma {:induction false} Concat(a: seq<Step>, run: seq<Event>, b: seq<Step>, more: seq<Event>, ret: int)
    requires Attempt(a, run, 0) && Attempt(b, more, ret)
    ensures Attempt(a + b, run + more, ret)
    decreases |a|
  {
    if a == [] {
      assert a + b == b && run + more == more;
    } else {
      FirstDone(a, run);
      var head, tail := Uncons(a, run, 0);
      Concat(a[1..], tail, b, more, ret);
      Cons(a[0], a[1..] + b, head, tail + more, ret);
      HeadTail(a);
      Regroup([a[0]], a[1..], b);
      Regroup(head, tail, more);
    }
  }

  lemma Extend(a: seq<Step>, run: seq<Event>, step: Step, more: seq<Event>, ret: int)
    requires Attempt(a, run, 0) && Outcome(step, more, ret)
    ensures Attempt(a + [step], run + more, ret)
  {
    Single(step, more, ret);
    Concat(a, run, [step], more, ret);
  }

  lemma {:induction false} Stopped(a: seq<Step>, b: seq<Step>, run: seq<Event>, ret: int)
    requires Attempt(a, run, ret) && ret != 0
    ensures Attempt(a + b, run, ret)
    decreases |a|
  {
    if a != [] {
      assert (a + b)[1..] == a[1..] + b;
      var n := Size(a[0]);
      if |run| >= n && Done(a[0], run[..n]) {
        Stopped(a[1..], b, run[n..], ret);
      }
    }
  }

  lemma {:induction false} ReceivedConcat(a: seq<Event>, b: seq<Event>)
    ensures Received(a + b) == Received(a) + Received(b)
    decreases |b|
  {
    if b == [] {
      assert a + b == a;
    } else {
      assert (a + b)[..|a + b| - 1] == a + b[..|b| - 1];
      ReceivedConcat(a, b[..|b| - 1]);
    }
  }

  lemma NothingReceived(run: seq<Event>)
    requires forall e :: e in run ==> !e.Took?
    ensures Received(run) == []
    decreases |run|
  {
    if run != [] {
      NothingReceived(run[..|run| - 1]);
    }
  }

  lemma NothingYet(polled: bool)
    ensures Attempt(ByteSteps([], polled), [], 0)
  {
  }

  lemma NoneYet()
    ensures Attempt(MoreSteps(0), [], 0)
  {
  }

  lemma {:induction false} MoreStepsSplit(i: nat, n: nat)
    requires i <= n
    ensures MoreSteps(i) + MoreSteps(n)[i..] == MoreSteps(n)
  {
    assert MoreSteps(n)[..i] == MoreSteps(i);
  }

  lemma ByteStepsNext(bytes: seq<u8>, polled: bool, i: nat)
    requires i < |bytes|
    ensures ByteSteps(bytes[..i + 1], polled) == ByteSteps(bytes[..i], polled) + [PutByte(bytes[i], polled)]
  {
    assert bytes[..i + 1][..i] == bytes[..i];
  }

  lemma {:induction false} ByteStepsSplit(bytes: seq<u8>, polled: bool, i: nat)
    requires i <= |bytes|
    ensures ByteSteps(bytes[..i], polled) + ByteSteps(bytes, polled)[i..] == ByteSteps(bytes, polled)
    decreases |bytes|
  {
    if i == |bytes| {
      assert bytes[..i] == bytes;
    } else {
      var init := bytes[..|bytes| - 1];
      ByteStepsSplit(init, polled, i);
      assert init[..i] == bytes[..i];
    }
  }

  /** One more byte sent: the attempt goes on, or ends with the whole list of steps. */
  lemma ByteNext(bytes: seq<u8>, polled: bool, i: nat, run: seq<Event>, more: seq<Event>, ret: int)
    requires i < |bytes| && Attempt(ByteSteps(bytes[..i], polled), run, 0)
    requires Outcome(PutByte(bytes[i], polled), more, ret)
    ensures Attempt(if ret == 0 then ByteSteps(bytes[..i + 1], polled) else ByteSteps(bytes, polled), run + more, ret)
  {
    ByteStepsNext(bytes, polled, i);
    Extend(ByteSteps(bytes[..i], polled), run, PutByte(bytes[i], polled), more, ret);
    if ret != 0 {
      ByteStepsSplit(bytes, polled, i + 1);
      Stopped(ByteSteps(bytes[..i + 1], polled), ByteSteps(bytes, polled)[i + 1..], run + more, ret);
    }
  }

  lemma MoreNext(n: nat, i: nat, run: seq<Event>, more: seq<Event>, ret: int)
    requires i < n && Attempt(MoreSteps(i), run, 0) && Outcome(ReceiveMore(), more, ret)
    ensures Attempt(MoreSteps(if ret == 0 then i + 1 else n), run + more, ret)
  {
    Extend(MoreSteps(i), run, ReceiveMore(), more, ret);
    if ret != 0 {
      MoreStepsSplit(i + 1, n);
      Stopped(MoreSteps(i + 1), MoreSteps(n)[i + 1..], run + more, ret);
    }
  }

  // ------------------------------------------------------------- what an attempt tells

  /** A step's writes are neither statuses nor taken bytes, and none of them asks for a stop. */
  predicate Plain(step: Step) {
    forall e :: e in step.commands ==> !e.Took? && !e.Status? && e != SetCtl(STP)
  }

  lemma {:induction false} TakesNothing(steps: seq<Step>, run: seq<Event>, ret: int)
    requires Attempt(steps, run, ret)
    requires forall k :: 0 <= k < |steps| ==> Plain(steps[k]) && !steps[k].takes
    ensures forall e :: e in run ==> !e.Took?
    decreases |steps|
  {
    if steps != [] {
      var n := Size(steps[0]);
      var c := |steps[0].commands|;
      if |run| >= n && Done(steps[0], run[..n]) {
        TakesNothing(steps[1..], run[n..], ret);
        assert run[..n] == steps[0].commands + [run[n - 1]];
        assert run == run[..n] + run[n..];
      } else {
        assert run == run[..c] + run[c..];
      }
    }
  }

  lemma BytesPlain(bytes: seq<u8>, polled: bool)
    ensures forall k :: 0 <= k < |bytes| ==>
      Plain(ByteSteps(bytes, polled)[k]) && !ByteSteps(bytes, polled)[k].takes
    decreases |bytes|
  {
    if bytes != [] {
      BytesPlain(bytes[..|bytes| - 1], polled);
    }
  }

  lemma OpeningPlain(chip: u8, addr: nat, alen: int)
    ensures var o := Opening(chip, addr, alen); forall k :: 0 <= k < |o| ==> Plain(o[k]) && !o[k].takes
  {
    BytesPlain(RegBytes(addr, alen), false);
  }

  lemma ReadOpeningSilent(chip: u8, addr: nat, alen: int, run: seq<Event>, ret: int)
    requires Attempt(ReadOpening(chip, addr, alen), run, ret)
    ensures Received(run) == []
  {
    OpeningPlain(chip, addr, alen);
    TakesNothing(ReadOpening(chip, addr, alen), run, ret);
    NothingReceived(run);
  }

  /** A failed part that received nothing ends the attempt and leaves the buffer alone. */
  lemma SilentStop(head: seq<Step>, tail: seq<Step>, was: seq<u8>, run: seq<Event>, ret: int)
    requires Attempt(head, run, ret) && ret != 0 && Received(run) == []
    ensures Attempt(head + tail, run, ret) && Stored(was, was, 0, run)
  {
    Stopped(head, tail, run, ret);
    assert was == was[..0] + [] + was[0..];
  }

  lemma SilentThen(head: seq<Step>, tail: seq<Step>, was: seq<u8>, now: seq<u8>,
                   run: seq<Event>, more: seq<Event>, ret: int)
    requires Attempt(head, run, 0) && Received(run) == []
    requires Attempt(tail, more, ret) && Stored(was, now, 0, more)
    ensures Attempt(head + tail, run + more, ret) && Stored(was, now, 0, run + more)
    ensures Received(run + more) == Received(more)
  {
    Concat(head, run, tail, more, ret);
    ReceivedConcat(run, more);
  }

  /** How a step that takes no data ends after its commands. */
  predicate Settled(step: Step, last: Event, ret: int) {
    || (ret == 0 && last.Status? && last.status == step.wanted)
    || (ret == -I2C_NOK_TOUT && last.NoFlag?)
    || (ret != 0 && Refused(step, last, ret))
  }

  lemma SettledOutcome(step: Step, last: Event, ret: int)
    requires !step.takes && Settled(step, last, ret)
    ensures Outcome(step, step.commands + [last], ret)
  {
    var n, run := |step.commands|, step.commands + [last];
    assert run[..n] == step.commands;
    assert run[n..n] == [] && run[n..] == [last];
  }

  lemma TookOutcome(step: Step, taken: Event, last: Event, ret: int)
    requires step.takes && taken.Took? && !last.NoFlag? && Settled(step, last, ret) && InTime(step, [taken, last])
    ensures Outcome(step, step.commands + [taken] + [last], ret)
  {
    var n, run := |step.commands|, step.commands + [taken] + [last];
    assert run[..n] == step.commands;
    assert run[n..n + 1] == [taken] && run[n..] == [taken, last];
  }

  lemma TimedOut(step: Step, t: nat)
    ensures Outcome(step, step.commands + [NoFlag(t)], -I2C_NOK_TOUT)
  {
    assert (step.commands + [NoFlag(t)])[..|step.commands|] == step.commands;
  }

  /** The bytes received in a run went to the buffer from position i on, and nothing else did. */
  predicate Stored(was: seq<u8>, now: seq<u8>, i: nat, run: seq<Event>) {
    var got := Received(run);
    i + |got| <= |was| && now == was[..i] + got + was[i + |got|..]
  }

  lemma NothingStored(was: seq<u8>, i: nat, run: seq<Event>)
    requires i <= |was| && forall e :: e in run ==> !e.Took?
    ensures Received(run) == [] && Stored(was, was, i, run)
  {
    NothingReceived(run);
    assert was == was[..i] + [] + was[i..];
  }

  lemma OneStored(was: seq<u8>, now: seq<u8>, i: nat, before: seq<Event>, t: nat, b: u8, last: Event)
    requires i < |was| && now == was[i := b]
    requires (forall e :: e in before ==> !e.Took?) && !last.Took?
    ensures Received(before + [Took(t, b)] + [last]) == [b] && Stored(was, now, i, before + [Took(t, b)] + [last])
  {
    NothingReceived(before);
    NothingReceived([last]);
    ReceivedConcat(before, [Took(t, b)]);
    assert Received([Took(t, b)]) == [b];
    ReceivedConcat(before + [Took(t, b)], [last]);
    assert now == was[..i] + [b] + was[i + 1..];
  }

  lemma StoredNext(was: seq<u8>, mid: seq<u8>, now: seq<u8>, run: seq<Event>, more: seq<Event>)
    requires Stored(was, mid, 0, run) && Stored(mid, now, |Received(run)|, more)
    ensures Stored(was, now, 0, run + more) && Received(run + more) == Received(run) + Received(more)
  {
    ReceivedConcat(run, more);
    Overlay(was, mid, now, Received(run), Received(more));
  }

  /** One more byte received into position i of at most n. */
  lemma NextReceived(was: seq<u8>, mid: seq<u8>, now: seq<u8>, n: nat, i: nat,
                     run: seq<Event>, more: seq<Event>, ret: int)
    requires i < n && Attempt(MoreSteps(i), run, 0) && Outcome(ReceiveMore(), more, ret)
    requires Stored(was, mid, 0, run) && |Received(run)| == i && Stored(mid, now, i, more)
    requires ret == 0 ==> |Received(more)| == 1
    ensures Attempt(MoreSteps(if ret == 0 then i + 1 else n), run + more, ret)
    ensures Stored(was, now, 0, run + more) && (ret == 0 ==> |Received(run + more)| == i + 1)
  {
    MoreNext(n, i, run, more, ret);
    StoredNext(was, mid, now, run, more);
  }

  lemma Overlay(was: seq<u8>, mid: seq<u8>, now: seq<u8>, a: seq<u8>, b: seq<u8>)
    requires |a| + |b| <= |was| && mid == was[..0] + a + was[0 + |a|..]
    requires now == mid[..|a|] + b + mid[|a| + |b|..]
    ensures now == was[..0] + (a + b) + was[0 + |a + b|..]
  {
    assert mid[..|a|] == a;
    assert mid[|a| + |b|..] == was[|a| + |b|..];
  }

  // ------------------------------------------------------------- what a result means

  function StatusIn(e: Event): seq<nat> {
    if e.Status? then [e.status] else []
  }

  function DataIn(e: Event): seq<nat> {
    if e.Data? then [e.value] else []
  }

  /** The statuses the driver decided on. */
  function Statuses(run: seq<Event>): seq<nat>
    decreases |run|
  {
    if run == [] then [] else StatusIn(run[0]) + Statuses(run[1..])
  }

  /** The bytes put on the wire. */
  function Sent(run: seq<Event>): seq<nat>
    decreases |run|
  {
    if run == [] then [] else DataIn(run[0]) + Sent(run[1..])
  }

  function Expected(steps: seq<Step>): (r: seq<nat>)
    ensures |r| == |steps|
    decreases |steps|
  {
    if steps == [] then [] else [steps[0].wanted] + Expected(steps[1..])
  }

  function ToSend(steps: seq<Step>): seq<nat>
    decreases |steps|
  {
    if steps == [] then [] else Sent(steps[0].commands) + ToSend(steps[1..])
  }

  function Repeat(v: nat, n: nat): seq<nat> {
    if n == 0 then [] else [v] + Repeat(v, n - 1)
  }

  lemma {:induction false} StatusesConcat(a: seq<Event>, b: seq<Event>)
    ensures Statuses(a + b) == Statuses(a) + Statuses(b)
    decreases |a|
  {
    if a == [] {
      assert a + b == b;
    } else {
      StatusesConcat(a[1..], b);
      assert (a + b)[1..] == a[1..] + b;
      Regroup(StatusIn(a[0]), Statuses(a[1..]), Statuses(b));
    }
  }

  lemma {:induction false} SentConcat(a: seq<Event>, b: seq<Event>)
    ensures Sent(a + b) == Sent(a) + Sent(b)
    decreases |a|
  {
    if a == [] {
      assert a + b == b;
    } else {
      SentConcat(a[1..], b);
      assert (a + b)[1..] == a[1..] + b;
      Regroup(DataIn(a[0]), Sent(a[1..]), Sent(b));
    }
  }

  lemma PickConcat(a: seq<Event>, b: seq<Event>)
    ensures Statuses(a + b) == Statuses(a) + Statuses(b)
    ensures Sent(a + b) == Sent(a) + Sent(b)
  {
    StatusesConcat(a, b);
    SentConcat(a, b);
  }

  lemma {:induction false} NoStatuses(run: seq<Event>)
    requires forall e :: e in run ==> !e.Status?
    ensures Statuses(run) == []
    decreases |run|
  {
    if run != [] {
      NoStatuses(run[1..]);
    }
  }

  /** What follows the commands in the trace of a finished or failed step. */
  predicate IsTail(tail: seq<Event>) {
    && 1 <= |tail| <= 2 && (|tail| == 2 ==> tail[0].Took?)
    && (var last := tail[|tail| - 1]; last.Status? || last.NoFlag? || last.NoStatus?)
  }

  lemma TailShows(tail: seq<Event>)
    requires IsTail(tail)
    ensures Statuses(tail) == StatusIn(tail[|tail| - 1]) && Sent(tail) == []
    ensures SetCtl(STP) !in tail
  {
    var last := tail[|tail| - 1];
    assert [last][1..] == [];
    assert Statuses([last]) == StatusIn(last) + [] && Sent([last]) == [];
    if |tail| == 2 {
      assert tail[1..] == [last];
    } else {
      assert tail == [last];
    }
  }

  lemma DoneTail(step: Step, run: seq<Event>) returns (tail: seq<Event>)
    requires Done(step, run)
    ensures run == step.commands + tail && IsTail(tail) && StatusIn(tail[|tail| - 1]) == [step.wanted]
  {
    var n := |step.commands|;
    tail := run[n..];
    assert run == run[..n] + run[n..];
    assert step.takes ==> run[n] == run[n..|run| - 1][0];
  }

  lemma FailedTail(step: Step, run: seq<Event>, ret: int) returns (tail: seq<Event>)
    requires Failed(step, run, ret)
    ensures run == step.commands + tail && IsTail(tail)
    ensures tail[|tail| - 1].Status? ==> tail[|tail| - 1].status != step.wanted
  {
    var n := |step.commands|;
    tail := run[n..];
    assert run == run[..n] + run[n..];
    assert |run| == n + 2 ==> run[n] == run[n..|run| - 1][0];
  }

  lemma StepShows(step: Step, run: seq<Event>, tail: seq<Event>)
    requires Plain(step) && run == step.commands + tail && IsTail(tail)
    ensures Statuses(run) == StatusIn(tail[|tail| - 1]) && Sent(run) == Sent(step.commands) && SetCtl(STP) !in run
  {
    PickConcat(step.commands, tail);
    NoStatuses(step.commands);
    TailShows(tail);
  }

  lemma DoneShows(step: Step, run: seq<Event>)
    requires Plain(step) && Done(step, run)
    ensures Statuses(run) == [step.wanted] && Sent(run) == Sent(step.commands) && SetCtl(STP) !in run
  {
    hide Done, IsTail, Statuses, Sent, Plain;
    var tail := DoneTail(step, run);
    StepShows(step, run, tail);
  }

  lemma FailedShows(step: Step, run: seq<Event>, ret: int)
    requires Plain(step) && Failed(step, run, ret)
    ensures Sent(run) == Sent(step.commands) && SetCtl(STP) !in run
    ensures Statuses(run) == [] || (|Statuses(run)| == 1 && Statuses(run)[0] != step.wanted)
  {
    hide Failed, Statuses, Sent, Plain;
    var tail := FailedTail(step, run, ret);
    StepShows(step, run, tail);
  }

  predicate AllPlain(steps: seq<Step>) {
    forall k :: 0 <= k < |steps| ==> Plain(steps[k])
  }

  /** The statuses decide the result: a transfer succeeds exactly when they were the expected ones,
      and before a failure all but the last were.  The bytes sent are always the first of those to
      be sent, and no stop is asked for on the way. */
  lemma {:induction false} StatusesDecide(steps: seq<Step>, run: seq<Event>, ret: int)
    requires Attempt(steps, run, ret) && AllPlain(steps)
    ensures ret == 0 <==> Statuses(run) == Expected(steps)
    ensures |Statuses(run)| <= |steps|
    ensures forall k :: 0 <= k < |Statuses(run)| - 1 ==> Statuses(run)[k] == Expected(steps)[k]
    ensures Sent(run) <= ToSend(steps) && (ret == 0 ==> Sent(run) == ToSend(steps))
    ensures SetCtl(STP) !in run
    decreases |steps|
  {
    if steps != [] {
      var n := Size(steps[0]);
      if |run| >= n && Done(steps[0], run[..n]) {
        StatusesDecide(steps[1..], run[n..], ret);
        DoneShows(steps[0], run[..n]);
        Prepend(steps, run[..n], run[n..]);
        assert run == run[..n] + run[n..];
      } else {
        FailedShows(steps[0], run, ret);
      }
    }
  }

  /** The code of a failure after `run`: -4 for a flag or a polled status that did not come, and
      otherwise the negative of the status the failing step wanted. */
  predicate CodeTells(steps: seq<Step>, run: seq<Event>, ret: int) {
    run != [] && var last := run[|run| - 1];
    if last.Status? then 0 < |Statuses(run)| <= |steps| && ret == -(Expected(steps)[|Statuses(run)| - 1] as int)
    else (last.NoFlag? || last.NoStatus?) && ret == -4
  }

  lemma {:induction false} FailureCode(steps: seq<Step>, run: seq<Event>, ret: int)
    requires Attempt(steps, run, ret) && AllPlain(steps) && ret != 0
    ensures CodeTells(steps, run, ret)
    decreases |steps|
  {
    hide Done, Failed, Plain, Statuses, CodeTells;
    var n := Size(steps[0]);
    if |run| >= n && Done(steps[0], run[..n]) {
      FailureCode(steps[1..], run[n..], ret);
      DoneShows(steps[0], run[..n]);
      CodeAfter(steps, run[..n], run[n..], ret);
      assert run == run[..n] + run[n..];
    } else {
      LastFails(steps[0], run, ret);
      FirstCode(steps, run, ret);
    }
  }

  lemma CodeAfter(steps: seq<Step>, head: seq<Event>, tail: seq<Event>, ret: int)
    requires steps != [] && |Statuses(head)| == 1 && CodeTells(steps[1..], tail, ret)
    ensures CodeTells(steps, head + tail, ret)
  {
    StatusesConcat(head, tail);
    assert (head + tail)[|head + tail| - 1] == tail[|tail| - 1];
  }

  lemma FirstCode(steps: seq<Step>, run: seq<Event>, ret: int)
    requires steps != [] && run != []
    requires var last := run[|run| - 1];
      && (last.NoFlag? || last.NoStatus? || last.Status?)
      && (if last.Status? then |Statuses(run)| == 1 && ret == -(steps[0].wanted as int) else ret == -4)
    ensures CodeTells(steps, run, ret)
  {
  }

  lemma LastFails(step: Step, run: seq<Event>, ret: int)
    requires Plain(step) && Failed(step, run, ret)
    ensures run != [] && var last := run[|run| - 1];
      && (last.NoFlag? || last.NoStatus? || last.Status?)
      && (if last.Status? then |Statuses(run)| == 1 && ret == -(step.wanted as int) else ret == -4)
  {
    var tail := FailedTail(step, run, ret);
    StepShows(step, run, tail);
    assert run[|run| - 1] == tail[|tail| - 1];
  }

  lemma ConsPrefix(w: nat, st: seq<nat>, ex: seq<nat>)
    requires |st| <= |ex| && forall k :: 0 <= k < |st| - 1 ==> st[k] == ex[k]
    ensures [w] + st == [w] + ex <==> st == ex
    ensures forall k :: 0 <= k < |[w] + st| - 1 ==> ([w] + st)[k] == ([w] + ex)[k]
  {
    if [w] + st == [w] + ex {
      assert st == ([w] + st)[1..] == ([w] + ex)[1..] == ex;
    }
  }

  lemma SamePrefix(a: seq<nat>, st: seq<nat>, ex: seq<nat>)
    requires st <= ex
    ensures a + st <= a + ex
  {
  }

  lemma Prepend(steps: seq<Step>, head: seq<Event>, tail: seq<Event>)
    requires steps != []
    requires Statuses(head) == [steps[0].wanted] && Sent(head) == Sent(steps[0].commands)
    requires |Statuses(tail)| <= |steps| - 1
    requires forall k :: 0 <= k < |Statuses(tail)| - 1 ==> Statuses(tail)[k] == Expected(steps[1..])[k]
    requires Sent(tail) <= ToSend(steps[1..])
    ensures |Statuses(head + tail)| == 1 + |Statuses(tail)|
    ensures Statuses(head + tail) == Expected(steps) <==> Statuses(tail) == Expected(steps[1..])
    ensures forall k :: 0 <= k < |Statuses(head + tail)| - 1 ==> Statuses(head + tail)[k] == Expected(steps)[k]
    ensures Sent(head + tail) <= ToSend(steps)
    ensures Sent(tail) == ToSend(steps[1..]) ==> Sent(head + tail) == ToSend(steps)
  {
    PickConcat(head, tail);
    ConsPrefix(steps[0].wanted, Statuses(tail), Expected(steps[1..]));
    SamePrefix(Sent(head), Sent(tail), ToSend(steps[1..]));
  }

  lemma {:induction false} StepsConcat(a: seq<Step>, b: seq<Step>)
    ensures Expected(a + b) == Expected(a) + Expected(b)
    ensures ToSend(a + b) == ToSend(a) + ToSend(b)
    decreases |a|
  {
    if a == [] {
      assert a + b == b;
    } else {
      assert (a + b)[1..] == a[1..] + b;
      StepsConcat(a[1..], b);
      Regroup([a[0].wanted], Expected(a[1..]), Expected(b));
      Regroup(Sent(a[0].commands), ToSend(a[1..]), ToSend(b));
    }
  }

  lemma {:induction false} RepeatLast(v: nat, n: nat)
    ensures Repeat(v, n) + [v] == Repeat(v, n + 1)
  {
    if n > 0 {
      RepeatLast(v, n - 1);
      assert Repeat(v, n) + [v] == [v] + (Repeat(v, n - 1) + [v]);
    }
  }

  lemma OneStep(step: Step)
    ensures Expected([step]) == [step.wanted] && ToSend([step]) == Sent(step.commands)
  {
    assert [step][1..] == [];
    assert Expected([step]) == [step.wanted] + [];
    assert ToSend([step]) == Sent(step.commands) + [];
  }

  lemma SentSingle(e: Event)
    ensures Sent([e]) == if e.Data? then [e.value] else []
  {
    assert [e][1..] == [];
    assert Sent([e][1..]) == [];
  }

  lemma SentOne(value: nat, e: Event)
    requires !e.Data?
    ensures Sent([Data(value), e]) == [value]
  {
    SentSingle(Data(value));
    SentSingle(e);
    SentConcat([Data(value)], [e]);
    assert [Data(value)] + [e] == [Data(value), e];
  }

  lemma SentNone(e: Event, f: Event, g: Event)
    requires !e.Data? && !f.Data? && !g.Data?
    ensures Sent([e]) == [] && Sent([e, f]) == [] && Sent([e, f, g]) == []
  {
    SentSingle(e);
    SentSingle(f);
    SentSingle(g);
    SentConcat([e], [f]);
    SentConcat([e, f], [g]);
    assert [e] + [f] == [e, f] && [e, f] + [g] == [e, f, g];
  }

  lemma PutExpected(b: u8, polled: bool)
    ensures Expected([PutByte(b, polled)]) == [0x28] && ToSend([PutByte(b, polled)]) == [b]
  {
    OneStep(PutByte(b, polled));
    SentOne(b, SetCtl(INTFLG));
  }

  lemma {:induction false} BytesExpected(bytes: seq<u8>, polled: bool)
    ensures Expected(ByteSteps(bytes, polled)) == Repeat(0x28, |bytes|)
    ensures ToSend(ByteSteps(bytes, polled)) == bytes
    decreases |bytes|
  {
    if bytes != [] {
      var n := |bytes| - 1;
      BytesExpected(bytes[..n], polled);
      StepsConcat(ByteSteps(bytes[..n], polled), [PutByte(bytes[n], polled)]);
      PutExpected(bytes[n], polled);
      RepeatLast(0x28, n);
    }
  }

  lemma {:induction false} MoreExpected(n: nat)
    ensures Expected(MoreSteps(n)) == Repeat(0x50, n) && ToSend(MoreSteps(n)) == []
  {
    if n > 0 {
      MoreExpected(n - 1);
      StepsConcat(MoreSteps(n - 1), [ReceiveMore()]);
      OneStep(ReceiveMore());
      RepeatLast(0x50, n - 1);
      SentNone(SetCtl(INTFLG + ACK), SetSrst, SetSrst);
    }
  }

  lemma ReceiveExpected(len: nat)
    requires len >= 1
    ensures Expected(ReceiveSteps(len)) == Repeat(0x50, len - 1) + [0x58]
    ensures ToSend(ReceiveSteps(len)) == []
  {
    if len == 1 {
      OneStep(ReceiveOnly());
      SentNone(SetCtl(INTFLG), SetSrst, SetSrst);
    } else {
      MoreExpected(len - 1);
      StepsConcat(MoreSteps(len - 1), [ReceiveLast()]);
      OneStep(ReceiveLast());
      SentNone(ClearCtl(ACK), SetCtl(INTFLG), SetSrst);
    }
  }

  lemma PairExpected(s: Step, t: Step)
    ensures Expected([s, t]) == [s.wanted, t.wanted] && ToSend([s, t]) == Sent(s.commands) + Sent(t.commands)
  {
    assert [s, t][1..] == [t];
    OneStep(t);
    assert Expected([s, t]) == [s.wanted] + Expected([t]);
    assert ToSend([s, t]) == Sent(s.commands) + ToSend([t]);
  }

  lemma StartExpected(chip: u8)
    ensures var s := [Start(), Address(chip, I2C_WRITE)];
      Expected(s) == [0x08, 0x18] && ToSend(s) == [chip * 2 + I2C_WRITE]
  {
    PairExpected(Start(), Address(chip, I2C_WRITE));
    SentNone(ClearEft, SetSrst, SetCtl(STA));
    SentOne(chip * 2 + I2C_WRITE, SetCtl(INTFLG));
  }

  lemma TurnExpected(chip: u8)
    ensures Expected(Turn(chip)) == [0x10, 0x40] && ToSend(Turn(chip)) == [chip * 2 + I2C_READ]
  {
    assert Turn(chip) == [Restart(), Address(chip, I2C_READ)];
    PairExpected(Restart(), Address(chip, I2C_READ));
    SentNone(SetCtl(STA), SetSrst, SetSrst);
    SentOne(chip * 2 + I2C_READ, SetCtl(INTFLG));
  }

  lemma OpeningExpected(chip: u8, addr: nat, alen: int)
    ensures Expected(Opening(chip, addr, alen)) == [0x08, 0x18] + Repeat(0x28, |RegBytes(addr, alen)|)
    ensures ToSend(Opening(chip, addr, alen)) == [chip * 2 + I2C_WRITE] + RegBytes(addr, alen)
  {
    var bytes := RegBytes(addr, alen);
    StepsConcat([Start(), Address(chip, I2C_WRITE)], ByteSteps(bytes, false));
    StartExpected(chip);
    BytesExpected(bytes, false);
  }

  lemma ReadExpected(chip: u8, addr: nat, alen: int, len: nat)
    requires len >= 1
    ensures Expected(ReadProtocol(chip, addr, alen, len)) ==
      [0x08, 0x18] + Repeat(0x28, |RegBytes(addr, alen)|) + [0x10, 0x40] + (Repeat(0x50, len - 1) + [0x58])
    ensures ToSend(ReadProtocol(chip, addr, alen, len)) ==
      [chip * 2 + I2C_WRITE] + RegBytes(addr, alen) + [chip * 2 + I2C_READ]
  {
    var o, t, r := Opening(chip, addr, alen), Turn(chip), ReceiveSteps(len);
    OpeningExpected(chip, addr, alen);
    TurnExpected(chip);
    ReceiveExpected(len);
    StepsConcat(o, t);
    StepsConcat(o + t, r);
    assert ToSend(o + t) + [] == ToSend(o + t);
  }

  lemma WriteExpected(chip: u8, addr: nat, alen: int, data: seq<u8>)
    ensures Expected(WriteProtocol(chip, addr, alen, data)) ==
      [0x08, 0x18] + Repeat(0x28, |RegBytes(addr, alen)|) + Repeat(0x28, |data|)
    ensures ToSend(WriteProtocol(chip, addr, alen, data)) ==
      [chip * 2 + I2C_WRITE] + RegBytes(addr, alen) + data
  {
    OpeningExpected(chip, addr, alen);
    StepsConcat(Opening(chip, addr, alen), ByteSteps(data, true));
    BytesExpected(data, true);
  }

  lemma ReceivePlain(len: nat)
    requires len >= 1
    ensures AllPlain(ReceiveSteps(len))
  {
  }

  /** A read succeeds exactly when the statuses were 08, 18, 28 for each register byte, 10, 40, 50
      for each data byte but the last, and 58.  It sends the write address, the register bytes and
      the read address, or the first of these, and asks for no stop on the way. */
  lemma ReadResult(chip: u8, addr: nat, alen: int, len: nat, run: seq<Event>, ret: int) returns (reg: seq<u8>)
    requires len >= 1 && Attempt(ReadProtocol(chip, addr, alen, len), run, ret)
    ensures IsRegAddress(reg, addr, alen)
    ensures var want := [0x08, 0x18] + Repeat(0x28, |reg|) + [0x10, 0x40] + (Repeat(0x50, len - 1) + [0x58]);
      ret == 0 <==> Statuses(run) == want
    ensures var wire := [chip * 2] + reg + [chip * 2 + 1];
      Sent(run) <= wire && (ret == 0 ==> Sent(run) == wire)
    ensures SetCtl(0x10) !in run
  {
    reg := RegBytes(addr, alen);
    RegBytesDenote(addr, alen);
    OpeningPlain(chip, addr, alen);
    ReceivePlain(len);
    assert AllPlain(ReadProtocol(chip, addr, alen, len));
    StatusesDecide(ReadProtocol(chip, addr, alen, len), run, ret);
    ReadExpected(chip, addr, alen, len);
  }

  lemma {:induction false} LastDone(a: seq<Step>, step: Step, run: seq<Event>) returns (before: seq<Event>, last: seq<Event>)
    requires Attempt(a + [step], run, 0)
    ensures run == before + last && Done(step, last)
    decreases |a|
  {
    FirstDone(a + [step], run);
    var head, tail := Uncons(a + [step], run, 0);
    if a == [] {
      assert (a + [step])[1..] == [];
      before, last := [], head;
    } else {
      assert (a + [step])[1..] == a[1..] + [step];
      before, last := LastDone(a[1..], step, tail);
      Regroup(head, before, last);
      before := head + before;
    }
  }

  /** After a successful read of several bytes the last byte's status came within 99 reads of the
      byte itself. */
  lemma LastByteInTime(chip: u8, addr: nat, alen: int, len: nat, run: seq<Event>)
    requires len >= 2 && Attempt(ReadProtocol(chip, addr, alen, len), run, 0)
    ensures |run| >= 2 && var taken, last := run[|run| - 2], run[|run| - 1];
      taken.Took? && last.Status? && last.status == 0x58 && last.at <= taken.at + 99
  {
    var a := ReadOpening(chip, addr, alen) + MoreSteps(len - 1);
    Regroup(ReadOpening(chip, addr, alen), MoreSteps(len - 1), [ReceiveLast()]);
    var before, last := LastDone(a, ReceiveLast(), run);
    assert last[2..][0] == last[2..3][0];
  }

  /** A write succeeds exactly when the statuses were 08, 18 and 28 for each register and data
      byte. */
  lemma WriteResult(chip: u8, addr: nat, alen: int, data: seq<u8>, run: seq<Event>, ret: int) returns (reg: seq<u8>)
    requires Attempt(WriteProtocol(chip, addr, alen, data), run, ret)
    ensures IsRegAddress(reg, addr, alen)
    ensures var want := [0x08, 0x18] + Repeat(0x28, |reg|) + Repeat(0x28, |data|);
      ret == 0 <==> Statuses(run) == want
    ensures var wire := [chip * 2] + reg + data;
      Sent(run) <= wire && (ret == 0 ==> Sent(run) == wire)
    ensures SetCtl(0x10) !in run
  {
    reg := RegBytes(addr, alen);
    RegBytesDenote(addr, alen);
    OpeningPlain(chip, addr, alen);
    BytesPlain(data, true);
    assert AllPlain(WriteProtocol(chip, addr, alen, data));
    StatusesDecide(WriteProtocol(chip, addr, alen, data), run, ret);
    WriteExpected(chip, addr, alen, data);
  }
}
