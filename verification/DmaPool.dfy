/** The DMA channel pool of spl/drivers/sunxi_dma.c: which channels are handed out, which have
    their package-end interrupt enabled, and the count of those. */
module DmaPool {

  /** Channel number standing for the null handle. */
  const NONE: int := -1

  /** Channels 0 .. 7 have their interrupt bits in irq_en0, the others in irq_en1. */
  const PER_REGISTER: nat := 8

  /** The pool as a value: `enabled` are the channels whose DMA_PKG_END_INT bit is set, `init` is
      the dma_init counter. */
  datatype Pool = Pool(max: nat, used: set<nat>, enabled: set<nat>, intCnt: int, init: int)

  /** Interrupts are enabled only on channels in use and are counted exactly. */
  ghost predicate Consistent(p: Pool) {
    && (forall c :: c in p.used ==> c < p.max)
    && p.enabled <= p.used
    && p.intCnt == |p.enabled|
  }

  function Lowest(p: Pool, c: nat): (r: int)
    requires c <= p.max
    ensures r == NONE || (c <= r < p.max && r !in p.used)
    ensures forall k: nat :: c <= k < (if r == NONE then p.max else r) ==> k in p.used
    decreases p.max - c
  {
    if c == p.max then NONE else if c !in p.used then c else Lowest(p, c + 1)
  }

  function Highest(p: Pool, c: nat): (r: int)
    requires c <= p.max
    ensures r == NONE || (0 <= r < c && r !in p.used)
    ensures forall k: nat :: (if r == NONE then 0 else r + 1) <= k < c ==> k in p.used
    decreases c
  {
    if c == 0 then NONE else if c - 1 !in p.used then c - 1 else Highest(p, c - 1)
  }

  function Take(p: Pool, h: int): Pool
    requires h == NONE || 0 <= h
  {
    if h == NONE then p else p.(used := p.used + {h as nat})
  }

  function Enable(p: Pool, h: nat): Pool {
    if h !in p.used || h in p.enabled then p
    else p.(enabled := p.enabled + {h}, intCnt := p.intCnt + 1)
  }

  /** The count is kept from going below zero, which Consistent shows is never needed. */
  function Disable(p: Pool, h: nat): Pool {
    if h !in p.used || h !in p.enabled then p
    else p.(enabled := p.enabled - {h}, intCnt := if p.intCnt > 0 then p.intCnt - 1 else p.intCnt)
  }

  /** Enabling a channel in use sets its bit and no other, and counts it exactly when the bit was
      clear; disabling is the reverse.  A channel that is not in use is left alone by both. */
  lemma EnableSetsBit(p: Pool, h: nat)
    ensures var q := Enable(p, h);
      && q.used == p.used && q.max == p.max && q.init == p.init
      && (h in p.used ==> q.enabled == p.enabled + {h} && q.intCnt - p.intCnt == if h in p.enabled then 0 else 1)
      && (h !in p.used ==> q == p)
  {
    if h in p.enabled {
      assert p.enabled + {h} == p.enabled;
    }
  }

  lemma DisableClearsBit(p: Pool, h: nat)
    ensures var q := Disable(p, h);
      && q.used == p.used && q.max == p.max && q.init == p.init
      && (h in p.used ==>
            && q.enabled == p.enabled - {h}
            && p.intCnt - q.intCnt == if h in p.enabled && p.intCnt > 0 then 1 else 0)
      && (h !in p.used ==> q == p)
  {
    if h !in p.enabled {
      assert p.enabled - {h} == p.enabled;
    }
  }

  /** Releasing a channel in use takes it out of use with its bit clear, and touches no other. */
  lemma ReleaseClears(p: Pool, h: nat)
    requires h in p.used
    ensures Released(p, h).used == p.used - {h} && Released(p, h).enabled == p.enabled - {h}
  {
    DisableClearsBit(p, h);
  }

  function Released(p: Pool, h: nat): Pool {
    if h !in p.used then p else Disable(p, h).(used := p.used - {h})
  }

  /** Channels 0 .. c - 1 are released if they are in use. */
  function ReleaseBelow(p: Pool, c: nat): Pool
    decreases c
  {
    if c == 0 then p else Released(ReleaseBelow(p, c - 1), c - 1)
  }

  /** Both writes that should clear the two enable registers go to irq_en0. */
  function HighEnabled(p: Pool): set<nat> {
    set c | c in p.enabled && c >= PER_REGISTER
  }

  function Exited(p: Pool): Pool {
    var q := ReleaseBelow(p, p.max);
    q.(enabled := HighEnabled(q), init := q.init - 1)
  }

  function Initialised(p: Pool): Pool {
    if p.init > 0 then p else Pool(p.max, {}, HighEnabled(p), 0, 1)
  }

  // ------------------------------------------------------------- what every call keeps

  lemma TakeKeeps(p: Pool, h: int)
    requires Consistent(p) && (h == NONE || (0 <= h < p.max && h !in p.used))
    ensures Consistent(Take(p, h))
  {
  }

  lemma EnableKeeps(p: Pool, h: nat)
    requires Consistent(p)
    ensures Consistent(Enable(p, h))
  {
  }

  lemma DisableKeeps(p: Pool, h: nat)
    requires Consistent(p)
    ensures Consistent(Disable(p, h))
  {
    if h in p.enabled {
      assert |p.enabled - {h}| == |p.enabled| - 1;
    }
  }

  lemma ReleaseKeeps(p: Pool, h: nat)
    requires Consistent(p)
    ensures Consistent(Released(p, h))
  {
    DisableKeeps(p, h);
  }

  lemma {:induction false} ReleaseBelowKeeps(p: Pool, c: nat)
    requires Consistent(p) && c <= p.max
    ensures Consistent(ReleaseBelow(p, c)) && ReleaseBelow(p, c).max == p.max && ReleaseBelow(p, c).init == p.init
    ensures ReleaseBelow(p, c).used == set k | k in p.used && k >= c
    decreases c
  {
    if c > 0 {
      ReleaseBelowKeeps(p, c - 1);
      ReleaseKeeps(ReleaseBelow(p, c - 1), c - 1);
    }
  }

  /** After exit nothing is in use, nothing is enabled and the count is zero. */
  lemma ExitEmpties(p: Pool)
    requires Consistent(p)
    ensures Exited(p) == Pool(p.max, {}, {}, 0, p.init - 1)
  {
    ReleaseBelowKeeps(p, p.max);
    var q := ReleaseBelow(p, p.max);
    assert q.used == {};
    assert q.enabled == {};
    assert HighEnabled(q) == {};
  }

  /** An init that takes effect leaves a consistent pool exactly when no interrupt of a channel
      from 8 on was enabled, since irq_en1 is never cleared. */
  lemma InitConsistentIff(p: Pool)
    requires p.init <= 0
    ensures Consistent(Initialised(p)) <==> forall c :: c in p.enabled ==> c < 8
  {
    if forall c :: c in p.enabled ==> c < PER_REGISTER {
      assert HighEnabled(p) == {};
      assert Initialised(p) == Pool(p.max, {}, {}, 0, 1);
    }
    forall c | Consistent(Initialised(p)) && c in p.enabled ensures c < PER_REGISTER {
      assert c >= PER_REGISTER ==> c in HighEnabled(p);
    }
  }

  /** Both scan directions fail only when every channel is in use, and then both do. */
  lemma ScansFailTogether(p: Pool)
    requires Consistent(p)
    ensures Lowest(p, 0) == NONE <==> |p.used| == p.max
    ensures Highest(p, p.max) == NONE <==> |p.used| == p.max
  {
    var all := Upto(p.max);
    assert p.used <= all;
    if Lowest(p, 0) == NONE || Highest(p, p.max) == NONE {
      assert forall k: nat :: k < p.max ==> k in p.used;
      assert p.used == all;
    }
    if |p.used| == p.max {
      SameSize(p.used, all);
      assert forall k: nat :: k < p.max ==> k in p.used;
    }
  }

  function Upto(n: nat): (r: set<nat>)
    ensures |r| == n && forall k: nat :: k in r <==> k < n
    decreases n
  {
    if n == 0 then {} else Upto(n - 1) + {n - 1}
  }

  lemma SameSize(a: set<nat>, b: set<nat>)
    requires a <= b && |a| == |b|
    ensures a == b
  {
    assert |b - a| == |b| - |a|;
  }

  // ------------------------------------------------------------- runs

  datatype Call =
    | RequestCall | RequestFromLastCall | ReleaseCall(h: nat)
    | EnableCall(h: nat) | DisableCall(h: nat) | ExitCall | InitCall

  /** The pool and the handles given out and not released, in order of request. */
  datatype Client = Client(pool: Pool, held: seq<nat>)

  function Without(held: seq<nat>, h: nat): seq<nat>
    decreases |held|
  {
    if held == [] then [] else if held[0] == h then Without(held[1..], h) else [held[0]] + Without(held[1..], h)
  }

  function Grant(s: Client, h: int): Client
    requires h == NONE || 0 <= h
  {
    Client(Take(s.pool, h), if h == NONE then s.held else s.held + [h as nat])
  }

  /** One driver call; an exit, and an init that takes effect, end the life of every handle. */
  function Step(s: Client, c: Call): Client {
    match c
    case RequestCall => Grant(s, Lowest(s.pool, 0))
    case RequestFromLastCall => Grant(s, Highest(s.pool, s.pool.max))
    case ReleaseCall(h) => Client(Released(s.pool, h), Without(s.held, h))
    case EnableCall(h) => s.(pool := Enable(s.pool, h))
    case DisableCall(h) => s.(pool := Disable(s.pool, h))
    case ExitCall => Client(Exited(s.pool), [])
    case InitCall => Client(Initialised(s.pool), if s.pool.init > 0 then s.held else [])
  }

  function Run(s: Client, calls: seq<Call>): Client
    decreases |calls|
  {
    if calls == [] then s else Run(Step(s, calls[0]), calls[1..])
  }

  /** Held handles are pairwise different and are exactly the channels in use. */
  ghost predicate Exclusive(s: Client) {
    && Consistent(s.pool)
    && (forall i, j :: 0 <= i < j < |s.held| ==> s.held[i] != s.held[j])
    && (forall h: nat :: h in s.held <==> h in s.pool.used)
  }

  lemma {:induction false} WithoutDrops(held: seq<nat>, h: nat)
    requires forall i, j :: 0 <= i < j < |held| ==> held[i] != held[j]
    ensures forall k :: k in Without(held, h) <==> k in held && k != h
    ensures forall i, j :: 0 <= i < j < |Without(held, h)| ==> Without(held, h)[i] != Without(held, h)[j]
    decreases |held|
  {
    if held != [] {
      WithoutDrops(held[1..], h);
      assert held == [held[0]] + held[1..];
      assert held[0] !in held[1..];
    }
  }

  /** An init that takes effect meets no enabled interrupt of a channel from 8 on. */
  predicate Clean(s: Client, c: Call) {
    c.InitCall? && s.pool.init <= 0 ==> forall k :: k in s.pool.enabled ==> k < 8
  }

  lemma GrantExclusive(s: Client, h: int)
    requires Exclusive(s) && (h == NONE || (0 <= h < s.pool.max && h !in s.pool.used))
    ensures Exclusive(Grant(s, h)) && Grant(s, h).pool.max == s.pool.max
  {
    TakeKeeps(s.pool, h);
  }

  lemma ReleaseExclusive(s: Client, h: nat)
    requires Exclusive(s)
    ensures Exclusive(Step(s, ReleaseCall(h))) && Step(s, ReleaseCall(h)).pool.max == s.pool.max
  {
    ReleaseKeeps(s.pool, h);
    WithoutDrops(s.held, h);
  }

  lemma InterruptExclusive(s: Client, h: nat)
    requires Exclusive(s)
    ensures Exclusive(Step(s, EnableCall(h))) && Step(s, EnableCall(h)).pool.max == s.pool.max
    ensures Exclusive(Step(s, DisableCall(h))) && Step(s, DisableCall(h)).pool.max == s.pool.max
  {
    EnableKeeps(s.pool, h);
    DisableKeeps(s.pool, h);
  }

  lemma ExitExclusive(s: Client)
    requires Exclusive(s)
    ensures Exclusive(Step(s, ExitCall)) && Step(s, ExitCall).pool.max == s.pool.max
  {
    ExitEmpties(s.pool);
  }

  lemma InitExclusiveIff(s: Client)
    requires Exclusive(s)
    ensures Exclusive(Step(s, InitCall)) <==> Clean(s, InitCall)
    ensures Step(s, InitCall).pool.max == s.pool.max
  {
    if s.pool.init <= 0 {
      InitConsistentIff(s.pool);
    }
  }

  /** A call keeps the handles exclusive exactly when it is clean, for any number of channels. */
  lemma StepExclusiveIff(s: Client, c: Call)
    requires Exclusive(s)
    ensures Exclusive(Step(s, c)) <==> Clean(s, c)
    ensures Step(s, c).pool.max == s.pool.max
  {
    hide Exclusive, Grant, Enable, Disable, Released, Exited, Initialised, Without, Lowest, Highest;
    match c
    case RequestCall => GrantExclusive(s, Lowest(s.pool, 0));
    case RequestFromLastCall => GrantExclusive(s, Highest(s.pool, s.pool.max));
    case ReleaseCall(h) => ReleaseExclusive(s, h);
    case EnableCall(h) => InterruptExclusive(s, h);
    case DisableCall(h) => InterruptExclusive(s, h);
    case ExitCall => ExitExclusive(s);
    case InitCall => InitExclusiveIff(s);
  }

  predicate CleanRun(s: Client, calls: seq<Call>)
    decreases |calls|
  {
    calls == [] || (Clean(s, calls[0]) && CleanRun(Step(s, calls[0]), calls[1..]))
  }

  /** The handles are exclusive before and after every call of the run. */
  ghost predicate ExclusiveThroughout(s: Client, calls: seq<Call>)
    decreases |calls|
  {
    Exclusive(s) && (calls == [] || ExclusiveThroughout(Step(s, calls[0]), calls[1..]))
  }

  /** Over every run of driver calls, with stale and repeated releases among them, on a pool of any
      size: no channel is ever held twice, enabled interrupts belong to held channels and the
      count is exact throughout the run, if and only if every call of it is clean. */
  lemma {:induction false} RunExclusiveIff(s: Client, calls: seq<Call>)
    requires Exclusive(s)
    ensures ExclusiveThroughout(s, calls) <==> CleanRun(s, calls)
    decreases |calls|
  {
    if calls != [] {
      StepExclusiveIff(s, calls[0]);
      if Clean(s, calls[0]) {
        RunExclusiveIff(Step(s, calls[0]), calls[1..]);
      }
    }
  }

  /** On at most eight channels every run is clean. */
  lemma {:induction false} EightChannelsExclusive(s: Client, calls: seq<Call>)
    requires Exclusive(s) && s.pool.max <= 8
    ensures ExclusiveThroughout(s, calls)
    decreases |calls|
  {
    if calls != [] {
      assert Clean(s, calls[0]);
      StepExclusiveIff(s, calls[0]);
      EightChannelsExclusive(Step(s, calls[0]), calls[1..]);
    }
  }

  /** The first init makes a power-on pool of any size a valid start exactly when no interrupt from
      channel 8 on is enabled, and on at most eight channels every run from there is exclusive. */
  lemma BootExclusive(p: Pool, calls: seq<Call>)
    requires p.init <= 0
    ensures Exclusive(Client(Initialised(p), [])) <==> forall c :: c in p.enabled ==> c < 8
    ensures p.max <= 8 && (forall c :: c in p.enabled ==> c < p.max) ==>
      ExclusiveThroughout(Client(Initialised(p), []), calls)
  {
    InitConsistentIff(p);
    if p.max <= 8 && forall c :: c in p.enabled ==> c < p.max {
      EightChannelsExclusive(Client(Initialised(p), []), calls);
    }
  }

  /** With the ten channels of the larger build the count can be wrong: a channel requested and
      enabled after an exit keeps its interrupt bit through the next init, given that the bit
      outlives the reset and the clock gating of the controller in between. */
  lemma TenChannelsMiscount()
    ensures var start := Client(Pool(10, {}, {}, 0, 1), []);
      var end := Run(start, [ExitCall, RequestFromLastCall, EnableCall(9), InitCall]);
      Exclusive(start) && !Exclusive(end) && end.pool.intCnt == 0 && end.pool.enabled == {9} && end.held == []
  {
    var start := Client(Pool(10, {}, {}, 0, 1), []);
    var calls := [ExitCall, RequestFromLastCall, EnableCall(9), InitCall];
    ExitEmpties(start.pool);
    var a := Step(start, ExitCall);
    var b := Step(a, RequestFromLastCall);
    assert Highest(a.pool, 10) == 9;
    assert b == Client(Pool(10, {9}, {}, 0, 0), [9]);
    var c := Step(b, EnableCall(9));
    assert c == Client(Pool(10, {9}, {9}, 1, 0), [9]);
    var d := Step(c, InitCall);
    assert HighEnabled(c.pool) == {9};
    assert calls[1..] == [RequestFromLastCall, EnableCall(9), InitCall];
    assert calls[1..][1..] == [EnableCall(9), InitCall];
    assert calls[1..][1..][1..] == [InitCall];
    assert Run(start, calls) == Run(a, calls[1..]) == Run(b, calls[1..][1..]);
    assert Run(b, calls[1..][1..]) == Run(c, [InitCall]);
    assert [InitCall][1..] == [];
    assert Run(c, [InitCall]) == Run(d, []) == d;
  }

  /** A bit of irq_en1 that an earlier boot stage left set is enough: the first init keeps it, and
      enabling it again is not counted.  No call but the three below is made. */
  lemma LeftoverBitMiscounts()
    ensures var start := Client(Pool(10, {}, {9}, 0, 0), []);
      var end := Run(start, [InitCall, RequestFromLastCall, EnableCall(9)]);
      end.held == [9] && end.pool.used == end.pool.enabled == {9} && end.pool.intCnt == 0
  {
    var start := Client(Pool(10, {}, {9}, 0, 0), []);
    var calls := [InitCall, RequestFromLastCall, EnableCall(9)];
    assert HighEnabled(start.pool) == {9};
    var a := Step(start, InitCall);
    assert a == Client(Pool(10, {}, {9}, 0, 1), []);
    var b := Step(a, RequestFromLastCall);
    assert Highest(a.pool, 10) == 9;
    assert b == Client(Pool(10, {9}, {9}, 0, 1), [9]);
    assert Step(b, EnableCall(9)) == b;
    assert calls[1..] == [RequestFromLastCall, EnableCall(9)];
    assert calls[1..][1..] == [EnableCall(9)];
    assert [EnableCall(9)][1..] == [];
    assert Run(start, calls) == Run(a, calls[1..]) == Run(b, calls[1..][1..]);
    assert Run(b, [EnableCall(9)]) == Run(b, []) == b;
  }

  // ------------------------------------------------------------- the driver

  datatype Channel = Channel(used: bool, number: nat)

  /** The driver's static state.  en0 and en1 hold the channel positions whose DMA_PKG_END_INT
      bit is set in irq_en0 and irq_en1. */
  class DmaDriver {
    const channels: array<Channel>
    var en0: set<nat>
    var en1: set<nat>
    var intCnt: int
    var init: int

    /** A channel in use carries its own index in channal_count. */
    ghost predicate Valid()
      reads this, channels
    {
      channels.Length <= 2 * PER_REGISTER &&
      forall c :: 0 <= c < channels.Length && channels[c].used ==> channels[c].number == c
    }

    predicate Bit(c: nat)
      reads this
    {
      if c < PER_REGISTER then c in en0 else c - PER_REGISTER in en1
    }

    ghost function Used(): set<nat>
      reads this, channels
    {
      set c: nat | c < channels.Length && channels[c].used
    }

    ghost function Enabled(): set<nat>
      reads this, channels
    {
      set c: nat | c < channels.Length && Bit(c)
    }

    ghost function Abs(): Pool
      reads this, channels
    {
      Pool(channels.Length, Used(), Enabled(), intCnt, init)
    }

    /** Static storage before the first init; the enable registers hold anything. */
    constructor (max: nat, en0: set<nat>, en1: set<nat>)
      requires max <= 2 * PER_REGISTER
      ensures Valid() && fresh(channels) && channels.Length == max && Used() == {}
      ensures this.en0 == en0 && this.en1 == en1 && intCnt == 0 && init == -1
    {
      channels := new Channel[max](i => Channel(false, 0));
      this.en0 := en0;
      this.en1 := en1;
      intCnt := 0;
      init := -1;
    }

    method Init()
      requires Valid()
      modifies this, channels
      ensures Valid() && Abs() == Initialised(old(Abs()))
      ensures old(init) <= 0 ==> Used() == {} && intCnt == 0 && init == 1
      ensures old(init) > 0 ==> Abs() == old(Abs())
    {
      if init > 0 {
        return;
      }
      ghost var was := Abs();
      en0 := {};
      en0 := {};
      for i := 0 to channels.Length
        invariant forall c :: 0 <= c < i ==> !channels[c].used
        invariant en0 == {} && en1 == old(en1)
      {
        channels[i] := Channel(false, 0);
      }
      intCnt := 0;
      init := 1;
      assert Used() == {};
      assert Enabled() == HighEnabled(was);
    }

    method Request() returns (h: int)
      requires Valid()
      modifies channels
      ensures Valid() && h == Lowest(old(Abs()), 0) && Abs() == Take(old(Abs()), h)
      ensures Used() == old(Used()) + if h == NONE then {} else {h as nat}
    {
      ghost var was := Abs();
      var i := 0;
      while i < channels.Length
        invariant 0 <= i <= channels.Length && Valid() && Abs() == was
        invariant Lowest(was, i) == Lowest(was, 0)
      {
        if !channels[i].used {
          channels[i] := Channel(true, i);
          assert Used() == was.used + {i};
          assert Enabled() == was.enabled;
          return i;
        }
        i := i + 1;
      }
      return NONE;
    }

    method RequestFromLast() returns (h: int)
      requires Valid()
      modifies channels
      ensures Valid() && h == Highest(old(Abs()), channels.Length) && Abs() == Take(old(Abs()), h)
      ensures Used() == old(Used()) + if h == NONE then {} else {h as nat}
    {
      ghost var was := Abs();
      var i := channels.Length - 1;
      while i >= 0
        invariant -1 <= i < channels.Length && Valid() && Abs() == was
        invariant Highest(was, i + 1) == Highest(was, channels.Length)
      {
        if !channels[i].used {
          channels[i] := Channel(true, i);
          assert Used() == was.used + {i};
          assert Enabled() == was.enabled;
          return i;
        }
        i := i - 1;
      }
      return NONE;
    }

    method EnableInt(h: nat) returns (ret: int)
      requires Valid() && h < channels.Length
      modifies `en0, `en1, `intCnt
      ensures Valid() && Abs() == Enable(old(Abs()), h)
      ensures ret == if h in Used() then 0 else -1
      ensures h in Used() ==> Enabled() == old(Enabled()) + {h}
      ensures intCnt == old(intCnt) + if h in Used() && h !in old(Enabled()) then 1 else 0
    {
      EnableSetsBit(Abs(), h);
      if !channels[h].used {
        return -1;
      }
      ghost var was := Abs();
      var number := channels[h].number;
      if number < PER_REGISTER {
        if number in en0 {
          return 0;
        }
        en0 := en0 + {number};
      } else {
        if number - PER_REGISTER in en1 {
          return 0;
        }
        en1 := en1 + {number - PER_REGISTER};
      }
      intCnt := intCnt + 1;
      assert Used() == was.used;
      assert Enabled() == was.enabled + {h};
      return 0;
    }

    method DisableInt(h: nat) returns (ret: int)
      requires Valid() && h < channels.Length
      modifies `en0, `en1, `intCnt
      ensures Valid() && Abs() == Disable(old(Abs()), h)
      ensures ret == if h in Used() then 0 else -1
      ensures h in Used() ==> Enabled() == old(Enabled()) - {h}
      ensures intCnt == old(intCnt) - if h in Used() && h in old(Enabled()) && old(intCnt) > 0 then 1 else 0
    {
      DisableClearsBit(Abs(), h);
      if !channels[h].used {
        return -1;
      }
      ghost var was := Abs();
      var number := channels[h].number;
      if number < PER_REGISTER {
        if number !in en0 {
          return 0;
        }
        en0 := en0 - {number};
      } else {
        if number - PER_REGISTER !in en1 {
          return 0;
        }
        en1 := en1 - {number - PER_REGISTER};
      }
      if intCnt > 0 {
        intCnt := intCnt - 1;
      }
      assert Used() == was.used;
      assert Enabled() == was.enabled - {h};
      return 0;
    }

    method Release(h: nat) returns (ret: int)
      requires Valid() && h < channels.Length
      modifies this, channels
      ensures Valid() && Abs() == Released(old(Abs()), h)
      ensures ret == if h in old(Used()) then 0 else -1
      ensures Used() == old(Used()) - {h} && (ret == 0 ==> Enabled() == old(Enabled()) - {h})
    {
      if !channels[h].used {
        return -1;
      }
      ReleaseClears(Abs(), h);
      var _ := DisableInt(h);
      ghost var was := Abs();
      channels[h] := channels[h].(used := false);
      assert Used() == was.used - {h};
      assert Enabled() == was.enabled;
      return 0;
    }

    method Exit()
      requires Valid()
      modifies this, channels
      ensures Valid() && Abs() == Exited(old(Abs()))
      ensures Consistent(old(Abs())) ==> Used() == {} && Enabled() == {} && intCnt == 0 && init == old(init) - 1
    {
      ghost var was := Abs();
      for i := 0 to channels.Length
        invariant Valid() && Abs() == ReleaseBelow(was, i)
      {
        if channels[i].used {
          var _ := Release(i);
        }
      }
      ghost var q := Abs();
      en0 := {};
      en0 := {};
      init := init - 1;
      assert Used() == q.used;
      assert Enabled() == HighEnabled(q);
      if Consistent(was) {
        ExitEmpties(was);
      }
    }
  }
}
