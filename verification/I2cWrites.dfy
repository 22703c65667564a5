/** What the transfers of spl/drivers/i2c.c write to the controller, in order: every control and
    data register access of a read and of a write. */
module I2cWrites {
  import opened Ints
  import opened I2cProtocol

  predicate IsWrite(e: Event) {
    e.ClearEft? || e.SetSrst? || e.SetCtl? || e.ClearCtl? || e.Data?
  }

  /** The driver's writes in a run. */
  function Writes(run: seq<Event>): seq<Event>
    decreases |run|
  {
    if run == [] then [] else (if IsWrite(run[0]) then [run[0]] else []) + Writes(run[1..])
  }

  function Commands(steps: seq<Step>): seq<Event>
    decreases |steps|
  {
    if steps == [] then [] else steps[0].commands + Commands(steps[1..])
  }

  predicate OnlyWrites(steps: seq<Step>) {
    forall k, e :: 0 <= k < |steps| && e in steps[k].commands ==> IsWrite(e)
  }

  lemma {:induction false} WritesConcat(a: seq<Event>, b: seq<Event>)
    ensures Writes(a + b) == Writes(a) + Writes(b)
    decreases |a|
  {
    if a == [] {
      assert a + b == b;
    } else {
      WritesConcat(a[1..], b);
      assert (a + b)[1..] == a[1..] + b;
      Regroup(if IsWrite(a[0]) then [a[0]] else [], Writes(a[1..]), Writes(b));
    }
  }

  lemma {:induction false} AllWrites(run: seq<Event>)
    requires forall e :: e in run ==> IsWrite(e)
    ensures Writes(run) == run
    decreases |run|
  {
    if run != [] {
      AllWrites(run[1..]);
    }
  }

  lemma TailWrites(tail: seq<Event>)
    requires IsTail(tail)
    ensures Writes(tail) == []
  {
    assert Writes(tail[|tail|..]) == [];
    if |tail| == 2 {
      assert tail[1..][1..] == tail[2..];
    }
  }

  lemma StepWrites(step: Step, run: seq<Event>, tail: seq<Event>)
    requires run == step.commands + tail && IsTail(tail) && forall e :: e in step.commands ==> IsWrite(e)
    ensures Writes(run) == step.commands
  {
    WritesConcat(step.commands, tail);
    AllWrites(step.commands);
    TailWrites(tail);
  }

  /** The writes are those of the steps in order, up to the step that fails, and all of them when
      none does. */
  lemma {:induction false} WritesFollow(steps: seq<Step>, run: seq<Event>, ret: int)
    requires Attempt(steps, run, ret) && OnlyWrites(steps)
    ensures Writes(run) <= Commands(steps) && (ret == 0 ==> Writes(run) == Commands(steps))
    decreases |steps|
  {
    if steps != [] {
      var n := Size(steps[0]);
      if |run| >= n && Done(steps[0], run[..n]) {
        assert OnlyWrites(steps[1..]);
        WritesFollow(steps[1..], run[n..], ret);
        var tail := DoneTail(steps[0], run[..n]);
        StepWrites(steps[0], run[..n], tail);
        WritesConcat(run[..n], run[n..]);
        assert run == run[..n] + run[n..];
      } else {
        var tail := FailedTail(steps[0], run, ret);
        StepWrites(steps[0], run, tail);
      }
    }
  }

  lemma {:induction false} CommandsConcat(a: seq<Step>, b: seq<Step>)
    ensures Commands(a + b) == Commands(a) + Commands(b)
    decreases |a|
  {
    if a == [] {
      assert a + b == b;
    } else {
      CommandsConcat(a[1..], b);
      assert (a + b)[1..] == a[1..] + b;
      Regroup(a[0].commands, Commands(a[1..]), Commands(b));
    }
  }

  lemma OneCommand(step: Step)
    ensures Commands([step]) == step.commands
  {
    assert [step][1..] == [];
  }

  // ------------------------------------------------------------- the sequences

  /** Each byte into the data register, then the interrupt flag. */
  function Puts(bytes: seq<u8>): seq<Event> {
    if bytes == [] then [] else Puts(bytes[..|bytes| - 1]) + [Data(bytes[|bytes| - 1]), SetCtl(0x08)]
  }

  function Times(e: Event, n: nat): seq<Event> {
    if n == 0 then [] else Times(e, n - 1) + [e]
  }

  /** Start, write address, register bytes. */
  function OpeningWrites(chip: u8, reg: seq<u8>): seq<Event> {
    [ClearEft, SetSrst, SetCtl(0x20)] + [Data(chip * 2), SetCtl(0x08)] + Puts(reg)
  }

  /** Flag and acknowledge bit for every byte but the last, whose acknowledge bit is cleared first;
      for a single byte only the flag. */
  function ReceiveWrites(len: nat): seq<Event>
    requires len >= 1
  {
    if len == 1 then [SetCtl(0x08)] else Times(SetCtl(0x0C), len - 1) + [ClearCtl(0x04), SetCtl(0x08)]
  }

  function ReadWrites(chip: u8, reg: seq<u8>, len: nat): seq<Event>
    requires len >= 1
  {
    OpeningWrites(chip, reg) + ([SetCtl(0x20)] + [Data(chip * 2 + 1), SetCtl(0x08)]) + ReceiveWrites(len)
  }

  function WriteWrites(chip: u8, reg: seq<u8>, data: seq<u8>): seq<Event> {
    OpeningWrites(chip, reg) + Puts(data)
  }

  lemma {:induction false} BytesCommands(bytes: seq<u8>, polled: bool)
    ensures Commands(ByteSteps(bytes, polled)) == Puts(bytes) && OnlyWrites(ByteSteps(bytes, polled))
    decreases |bytes|
  {
    if bytes != [] {
      var n := |bytes| - 1;
      BytesCommands(bytes[..n], polled);
      CommandsConcat(ByteSteps(bytes[..n], polled), [PutByte(bytes[n], polled)]);
      OneCommand(PutByte(bytes[n], polled));
    }
  }

  lemma {:induction false} MoreCommands(n: nat)
    ensures Commands(MoreSteps(n)) == Times(SetCtl(0x0C), n)
  {
    if n > 0 {
      MoreCommands(n - 1);
      CommandsConcat(MoreSteps(n - 1), [ReceiveMore()]);
      OneCommand(ReceiveMore());
    }
  }

  lemma ReceiveCommands(len: nat)
    requires len >= 1
    ensures Commands(ReceiveSteps(len)) == ReceiveWrites(len) && OnlyWrites(ReceiveSteps(len))
  {
    if len == 1 {
      OneCommand(ReceiveOnly());
    } else {
      MoreCommands(len - 1);
      CommandsConcat(MoreSteps(len - 1), [ReceiveLast()]);
      OneCommand(ReceiveLast());
    }
  }

  lemma PairCommands(s: Step, t: Step)
    ensures Commands([s, t]) == s.commands + t.commands
  {
    assert [s, t][1..] == [t];
    OneCommand(t);
  }

  lemma OpeningCommands(chip: u8, addr: nat, alen: int)
    ensures Commands(Opening(chip, addr, alen)) == OpeningWrites(chip, RegBytes(addr, alen))
    ensures OnlyWrites(Opening(chip, addr, alen))
  {
    PairCommands(Start(), Address(chip, I2C_WRITE));
    BytesCommands(RegBytes(addr, alen), false);
    CommandsConcat([Start(), Address(chip, I2C_WRITE)], ByteSteps(RegBytes(addr, alen), false));
  }

  /** A read writes its start, address, register bytes, repeated start and receive commands to the
      controller in this order and with these bits, up to the step that fails. */
  lemma ReadAsksFor(chip: u8, addr: nat, alen: int, len: nat, run: seq<Event>, ret: int) returns (reg: seq<u8>)
    requires len >= 1 && Attempt(ReadProtocol(chip, addr, alen, len), run, ret)
    ensures IsRegAddress(reg, addr, alen)
    ensures Writes(run) <= ReadWrites(chip, reg, len) && (ret == 0 ==> Writes(run) == ReadWrites(chip, reg, len))
  {
    reg := RegBytes(addr, alen);
    RegBytesDenote(addr, alen);
    OpeningCommands(chip, addr, alen);
    assert Turn(chip) == [Restart(), Address(chip, I2C_READ)];
    PairCommands(Restart(), Address(chip, I2C_READ));
    CommandsConcat(Opening(chip, addr, alen), Turn(chip));
    ReceiveCommands(len);
    CommandsConcat(ReadOpening(chip, addr, alen), ReceiveSteps(len));
    WritesFollow(ReadProtocol(chip, addr, alen, len), run, ret);
  }

  /** So does a write, with the data bytes after the register bytes. */
  lemma WriteAsksFor(chip: u8, addr: nat, alen: int, data: seq<u8>, run: seq<Event>, ret: int) returns (reg: seq<u8>)
    requires Attempt(WriteProtocol(chip, addr, alen, data), run, ret)
    ensures IsRegAddress(reg, addr, alen)
    ensures Writes(run) <= WriteWrites(chip, reg, data) && (ret == 0 ==> Writes(run) == WriteWrites(chip, reg, data))
  {
    reg := RegBytes(addr, alen);
    RegBytesDenote(addr, alen);
    OpeningCommands(chip, addr, alen);
    BytesCommands(data, true);
    CommandsConcat(Opening(chip, addr, alen), ByteSteps(data, true));
    WritesFollow(WriteProtocol(chip, addr, alen, data), run, ret);
  }
}
