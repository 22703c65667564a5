/** What boot_set_gpio (spl/drivers/pinmux.c) leaves in the registers of a pin, by address and bit:
    the function select, pull and drive fields and the data bit of every pin. */
module PinBits {
  import opened BitVectors
  import opened Ints
  import opened PinMux
  import opened PinFields

  // ------------------------------------------------------------- bits of a word

  predicate Meets(w: word, m: word) {
    w & m != 0
  }

  predicate BitAt(w: word, k: nat)
    requires k < 32
  {
    Meets(w, Shl(1, k))
  }

  /** The number that n bits of a word spell from bit `shift` up. */
  function Value(w: word, shift: nat, n: nat): nat
    requires shift + n <= 32
    decreases n
  {
    if n == 0 then 0 else (if BitAt(w, shift) then 1 else 0) + 2 * Value(w, shift + 1, n - 1)
  }

  lemma TopBit()
    ensures Shl(1, 31) == 0x8000_0000
  {
    assert Shl(1, 8) == 0x100;
    ShlAdd(1, 8, 8);
    assert Shl(0x100, 8) == 0x1_0000;
    ShlAdd(1, 16, 8);
    assert Shl(0x1_0000, 8) == 0x100_0000;
    ShlAdd(1, 24, 7);
    assert Shl(0x100_0000, 7) == 0x8000_0000;
  }

  lemma OneBit(k: nat)
    requires k < 32
    ensures Shl(1, k) != 0
  {
    ShlAdd(1, k, 31 - k);
    TopBit();
    if Shl(1, k) == 0 {
      ShlZero(Shl(1, k), 31 - k);
    }
  }

  lemma SmallBit(b: nat, width: int, m: word)
    requires (width == 1 || width == 2 || width == 4) && b < width && m == Shl(1, b)
    ensures m & Ones(width) == m
  {
  }

  predicate IsAnd(x: word, w: word, m: word) {
    w & m == x
  }

  /** Bit b of a small number. */
  predicate Odd(v: int, b: nat) {
    (if b == 0 then v else if b == 1 then v / 2 else if b == 2 then v / 4 else v / 8) % 2 == 1
  }

  lemma SmallTest(v: int, b: nat, w: word, m: word)
    requires 0 <= v < 16 && b < 4 && w == Bits4(v) && m == Shl(1, b)
    ensures IsAnd(if Odd(v, b) then m else 0, w, m)
  {
  }

  lemma SameInside(r: word, mask: word, f: word, m: word)
    requires f == Masked(r, mask) && m & mask == m
    ensures Meets(r, m) <==> Meets(f, m)
  {
  }

  /** A bit of a field can be read off the field. */
  lemma BitOfField(r: word, shift: nat, width: int, b: nat)
    requires FieldOk(shift, width) && b < width
    ensures BitAt(r, shift + b) <==> Meets(Field(r, shift, width), Shl(1, shift + b))
  {
    hide Shl, Ones, Meets, Masked;
    var m, mask := Shl(1, shift + b), Shl(Ones(width), shift);
    ShlAdd(1, b, shift);
    SmallBit(b, width, Shl(1, b));
    ShlAnd(Shl(1, b), Ones(width), Shl(1, b), shift, m, mask, m);
    SameInside(r, mask, Field(r, shift, width), m);
  }

  lemma BitOfValue(v: int, shift: nat, b: nat, f: word)
    requires 0 <= v < 16 && b < 4 && shift + b < 32 && f == Shl(Bits4(v), shift)
    ensures Meets(f, Shl(1, shift + b)) <==> Odd(v, b)
  {
    hide Shl, Bits4, Meets, Odd;
    hide IsAnd;
    var m, one := Shl(1, shift + b), Shl(1, b);
    ShlAdd(1, b, shift);
    SmallTest(v, b, Bits4(v), one);
    if Odd(v, b) {
      ShiftedMeets(Bits4(v), one, one, shift, f, m, m);
      OneBit(shift + b);
    } else {
      ShlZero(0, shift);
      ShiftedMeets(Bits4(v), one, 0, shift, f, m, 0);
    }
  }

  lemma ShiftedMeets(w: word, m: word, x: word, s: int, ws: word, ms: word, xs: word)
    requires 0 <= s < 32 && IsAnd(x, w, m) && ws == Shl(w, s) && ms == Shl(m, s) && xs == Shl(x, s)
    ensures Meets(ws, ms) <==> xs != 0
  {
    hide Shl, IsAnd, Meets;
    ShiftedAnd(w, m, x, s, ws, ms, xs);
    MeetsAnd(ws, ms, xs);
  }

  lemma ShiftedAnd(w: word, m: word, x: word, s: int, ws: word, ms: word, xs: word)
    requires 0 <= s < 32 && IsAnd(x, w, m) && ws == Shl(w, s) && ms == Shl(m, s) && xs == Shl(x, s)
    ensures IsAnd(xs, ws, ms)
  {
    hide Shl;
    ShlAnd(w, m, x, s, ws, ms, xs);
  }

  lemma MeetsAnd(w: word, m: word, x: word)
    requires IsAnd(x, w, m)
    ensures Meets(w, m) <==> x != 0
  {
  }

  lemma SpeltBits(v: int, w: word, shift: nat, width: nat)
    requires FieldOk(shift, width) && 0 <= v < (if width == 1 then 2 else if width == 2 then 4 else 16)
    requires forall b: nat {:trigger Odd(v, b)} :: b < width ==> (BitAt(w, shift + b) <==> Odd(v, b))
    ensures Value(w, shift, width) == v
  {
    hide BitAt;
    assert BitAt(w, shift + 0) <==> Odd(v, 0);
    if width >= 2 {
      assert BitAt(w, shift + 1) <==> Odd(v, 1);
      assert Value(w, shift + 2, 0) == 0;
    }
    if width == 4 {
      assert BitAt(w, shift + 2) <==> Odd(v, 2);
      assert BitAt(w, shift + 3) <==> Odd(v, 3);
      FourBits(w, shift);
    }
  }

  lemma FourBits(w: word, shift: nat)
    requires shift + 4 <= 32
    ensures Value(w, shift, 4) ==
      (if BitAt(w, shift) then 1 else 0) + (if BitAt(w, shift + 1) then 2 else 0)
      + (if BitAt(w, shift + 2) then 4 else 0) + (if BitAt(w, shift + 3) then 8 else 0)
  {
    hide BitAt;
    assert Value(w, shift + 4, 0) == 0;
    assert Value(w, shift + 3, 1) == if BitAt(w, shift + 3) then 1 else 0;
    assert Value(w, shift + 2, 2) == (if BitAt(w, shift + 2) then 1 else 0) + 2 * Value(w, shift + 3, 1);
  }

  /** A field that holds v spells v. */
  lemma FieldSpells(w: word, shift: nat, width: nat, v: int)
    requires FieldOk(shift, width) && 0 <= v < (if width == 1 then 2 else if width == 2 then 4 else 16)
    requires Field(w, shift, width) == Shl(Bits4(v), shift)
    ensures Value(w, shift, width) == v
  {
    hide Field, Shl, Bits4, Meets, Odd;
    forall b: nat {:trigger Odd(v, b)} | b < width
      ensures BitAt(w, shift + b) <==> Odd(v, b)
    {
      BitOfField(w, shift, width, b);
      BitOfValue(v, shift, b, Field(w, shift, width));
    }
    SpeltBits(v, w, shift, width);
  }

  lemma {:induction false} SameBits(w: word, u: word, shift: nat, width: nat, n: nat)
    requires FieldOk(shift, width) && Field(w, shift, width) == Field(u, shift, width) && n <= width
    ensures Value(w, shift + width - n, n) == Value(u, shift + width - n, n)
    decreases n
  {
    hide Field, Shl, Meets;
    if n > 0 {
      SameBits(w, u, shift, width, n - 1);
      BitOfField(w, shift, width, width - n);
      BitOfField(u, shift, width, width - n);
    }
  }

  /** What a field shows, as a number. */
  lemma ShownValue(w: word, orig: word, shift: nat, width: nat, v: int)
    requires FieldOk(shift, width) && Shows(w, orig, shift, width, v)
    requires v < (if width == 1 then 2 else if width == 2 then 4 else 16)
    ensures Value(w, shift, width) == if v < 0 then Value(orig, shift, width) else v
  {
    if v < 0 {
      SameBits(w, orig, shift, width, width);
    } else {
      FieldSpells(w, shift, width, v);
    }
  }

  // ------------------------------------------------------------- entries of the list

  /** The n entries from `first` on are the ones the code looks at: everything before them has port
      0, none of them has, and the list or the next entry's port 0 ends them. */
  predicate Stretch(list: seq<Pin>, first: nat, n: nat) {
    && 0 < n && first + n <= |list|
    && (forall j :: 0 <= j < first ==> list[j].port == 0)
    && (forall j :: first <= j < first + n ==> list[j].port != 0)
    && (first + n < |list| ==> list[first + n].port == 0)
  }

  lemma {:induction false} SkipTo(list: seq<Pin>, first: nat)
    requires first < |list| && list[first].port != 0
    requires forall j :: 0 <= j < first ==> list[j].port == 0
    ensures SkipUnused(list) == list[first..]
    decreases first
  {
    if first > 0 {
      SkipTo(list[1..], first - 1);
      assert list[1..][first - 1..] == list[first..];
    }
  }

  lemma {:induction false} UpTo(list: seq<Pin>, n: nat)
    requires n <= |list| && (n < |list| ==> list[n].port == 0)
    requires forall j :: 0 <= j < n ==> list[j].port != 0
    ensures UpToUnused(list) == list[..n]
    decreases n
  {
    if n > 0 {
      UpTo(list[1..], n - 1);
      assert list[..n] == [list[0]] + list[1..][..n - 1];
    }
  }

  lemma ActiveIs(list: seq<Pin>, first: nat, n: nat)
    requires Stretch(list, first, n)
    ensures Active(list) == list[first..first + n]
  {
    SkipTo(list, first);
    UpTo(list[first..], n);
  }

  /** The entries of ports 12 and up, if any, come first and share one function register. */
  predicate OwnBlocks(list: seq<Pin>, first: nat, n: nat)
    requires first + n <= |list|
  {
    forall j :: first <= j < first + n && list[j].port >= 12 ==>
      forall i :: first <= i <= j ==> list[i].port == list[first].port && list[i].num / 8 == list[first].num / 8
  }

  lemma BlocksAreHome(list: seq<Pin>, first: nat, n: nat)
    requires Stretch(list, first, n) && OwnBlocks(list, first, n)
    ensures var act := list[first..first + n]; forall k :: 0 <= k < |act| ==> act[k].port < 12 || LeadRun(act, k)
  {
    var act := list[first..first + n];
    forall k | 0 <= k < |act| && act[k].port >= 12
      ensures LeadRun(act, k)
    {
      assert act[k] == list[first + k];
      forall j | 0 <= j <= k
        ensures SameFunc(act[j], act[0])
      {
        assert act[j] == list[first + j];
      }
    }
  }

  predicate IsPin(p: Pin, port: u8, num: u8) {
    p.port == port && p.num == num
  }

  lemma LastSetterIs(act: seq<Pin>, kind: Kind, q: Pin, k: int)
    requires -1 <= k < |act|
    requires k >= 0 ==> SamePin(act[k], q) && Sets(kind, act[k], k == 0)
    requires forall j :: k < j < |act| ==> !(SamePin(act[j], q) && Sets(kind, act[j], j == 0))
    ensures LastSetter(act, |act|, kind, q) == k
  {
  }

  lemma ExpectedIs(list: seq<Pin>, first: nat, n: nat, kind: Kind, q: Pin, k: int, setGpio: bool)
    requires 0 < n && first + n <= |list| && (k == -1 || first <= k < first + n)
    requires k >= 0 ==> SamePin(list[k], q) && Sets(kind, list[k], k == first)
    requires forall j :: first <= j < first + n && j > k ==> !(SamePin(list[j], q) && Sets(kind, list[j], j == first))
    ensures Expected(list[first..first + n], n, kind, q, setGpio) == if k < 0 then -1 else Setting(kind, list[k], setGpio)
  {
    hide SamePin, Sets, Setting, LastSetter;
    var act := list[first..first + n];
    assert forall j :: 0 <= j < n ==> act[j] == list[first + j];
    LastSetterIs(act, kind, q, if k < 0 then -1 else k - first);
  }

  lemma SettingFits(kind: Kind, p: Pin, setGpio: bool)
    ensures 0 <= Setting(kind, p, setGpio) < (if Width(kind) == 1 then 2 else if Width(kind) == 2 then 4 else 16)
  {
  }

  /** The field of a pin after the call, as a number, by what the last entry that sets it says. */
  lemma FieldValue(start: Registers, list: seq<Pin>, setGpio: bool, first: nat, n: nat, kind: Kind, q: Pin, k: int)
    returns (a: int)
    requires AllOnChip(start) && ListOk(list) && Stretch(list, first, n) && OwnBlocks(list, first, n)
    requires 0 < q.port && q.num < 32 && (k == -1 || first <= k < first + n)
    requires k >= 0 ==> SamePin(list[k], q) && Sets(kind, list[k], k == first)
    requires forall j :: first <= j < first + n && j > k ==> !(SamePin(list[j], q) && Sets(kind, list[j], j == first))
    ensures a == Addr(HomeSel(q), kind) && a in start && a in Configured(start, list, setGpio)
    ensures FieldOk(Shift(kind, q), Width(kind)) &&
      Value(Configured(start, list, setGpio)[a], Shift(kind, q), Width(kind)) ==
        if k < 0 then Value(start[a], Shift(kind, q), Width(kind)) else Setting(kind, list[k], setGpio)
  {
    ActiveIs(list, first, n);
    BlocksAreHome(list, first, n);
    ExpectedIs(list, first, n, kind, q, k, setGpio);
    hide Stretch, OwnBlocks, AllOnChip, ListOk, LeadRun, Active, Configured, Shows, Value, Sets, Setting, HomeSel;
    hide SamePin, Expected;
    var act := list[first..first + n];
    FieldHoldsLastSetting(start, list, setGpio, kind, q);
    a := Addr(HomeSel(q), kind);
    if k >= 0 {
      SettingFits(kind, list[k], setGpio);
    }
    ShownValue(Configured(start, list, setGpio)[a], start[a], Shift(kind, q), Width(kind), Expected(act, n, kind, q, setGpio));
  }

  // ------------------------------------------------------------- the four fields

  /** Where the registers of a port start. */
  function Block(port: u8): int {
    if port < 12 then 0x0200_0000 + (port - 1) * 0x30 else 0x0702_2000 + (port - 12) * 0x30
  }

  function PinOf(port: u8, num: u8): Pin {
    Pin(port, num, 0, 0, 0, 0)
  }

  /** The function select of a pin is four bits at num / 8 * 4 from the start of its port.  When k is
      the last entry for the pin that is the first of all or has a mul_sel that is not negative,
      they are the low four bits of its mul_sel, or 0 when set_gpio is 0; without such an entry
      (k = -1) they are as before. */
  lemma FunctionSelect(start: Registers, list: seq<Pin>, setGpio: bool, first: nat, n: nat, port: u8, num: u8, k: int)
    requires AllOnChip(start) && ListOk(list) && Stretch(list, first, n) && OwnBlocks(list, first, n)
    requires 0 < port && num < 32 && (k == -1 || first <= k < first + n)
    requires k >= 0 ==> IsPin(list[k], port, num) && (k == first || list[k].mulSel >= 0)
    requires forall j :: first <= j < first + n && j > k && IsPin(list[j], port, num) ==> j != first && list[j].mulSel < 0
    ensures var a := Block(port) + num / 8 * 4;
      a in start && a in Configured(start, list, setGpio) &&
      Value(Configured(start, list, setGpio)[a], num % 8 * 4, 4) ==
        if k < 0 then Value(start[a], num % 8 * 4, 4) else if setGpio then list[k].mulSel % 16 else 0
  {
    hide Value, Configured, Stretch, OwnBlocks, AllOnChip, ListOk;
    var _ := FieldValue(start, list, setGpio, first, n, Func, PinOf(port, num), k);
  }

  /** The pull of a pin is two bits at offset 0x24 + num / 16 * 4 of its port, the low bits of the last
      `pull` that is not negative. */
  lemma PullSelect(start: Registers, list: seq<Pin>, setGpio: bool, first: nat, n: nat, port: u8, num: u8, k: int)
    requires AllOnChip(start) && ListOk(list) && Stretch(list, first, n) && OwnBlocks(list, first, n)
    requires 0 < port && num < 32 && (k == -1 || first <= k < first + n)
    requires k >= 0 ==> IsPin(list[k], port, num) && list[k].pull >= 0
    requires forall j :: first <= j < first + n && j > k && IsPin(list[j], port, num) ==> list[j].pull < 0
    ensures var a := Block(port) + 0x24 + num / 16 * 4;
      a in start && a in Configured(start, list, setGpio) &&
      Value(Configured(start, list, setGpio)[a], num % 16 * 2, 2) ==
        if k < 0 then Value(start[a], num % 16 * 2, 2) else list[k].pull % 4
  {
    hide Value, Configured, Stretch, OwnBlocks, AllOnChip, ListOk;
    var _ := FieldValue(start, list, setGpio, first, n, Pull, PinOf(port, num), k);
  }

  /** The drive level is two bits at offset 0x14 + num / 16 * 4, the low bits of the last `drv` that is
      not negative. */
  lemma DriveLevel(start: Registers, list: seq<Pin>, setGpio: bool, first: nat, n: nat, port: u8, num: u8, k: int)
    requires AllOnChip(start) && ListOk(list) && Stretch(list, first, n) && OwnBlocks(list, first, n)
    requires 0 < port && num < 32 && (k == -1 || first <= k < first + n)
    requires k >= 0 ==> IsPin(list[k], port, num) && list[k].drv >= 0
    requires forall j :: first <= j < first + n && j > k && IsPin(list[j], port, num) ==> list[j].drv < 0
    ensures var a := Block(port) + 0x14 + num / 16 * 4;
      a in start && a in Configured(start, list, setGpio) &&
      Value(Configured(start, list, setGpio)[a], num % 16 * 2, 2) ==
        if k < 0 then Value(start[a], num % 16 * 2, 2) else list[k].drv % 4
  {
    hide Value, Configured, Stretch, OwnBlocks, AllOnChip, ListOk;
    var _ := FieldValue(start, list, setGpio, first, n, Drv, PinOf(port, num), k);
  }

  /** The data of a pin is bit num at offset 0x10, the low bit of the last `data` that is not negative
      in an entry that makes the pin an output (mul_sel 1). */
  lemma DataBit(start: Registers, list: seq<Pin>, setGpio: bool, first: nat, n: nat, port: u8, num: u8, k: int)
    requires AllOnChip(start) && ListOk(list) && Stretch(list, first, n) && OwnBlocks(list, first, n)
    requires 0 < port && num < 32 && (k == -1 || first <= k < first + n)
    requires k >= 0 ==> IsPin(list[k], port, num) && list[k].mulSel == 1 && list[k].data >= 0
    requires forall j :: first <= j < first + n && j > k && IsPin(list[j], port, num) ==>
      !(list[j].mulSel == 1 && list[j].data >= 0)
    ensures var a := Block(port) + 0x10;
      a in start && a in Configured(start, list, setGpio) &&
      Value(Configured(start, list, setGpio)[a], num, 1) == if k < 0 then Value(start[a], num, 1) else list[k].data % 2
  {
    hide Value, Configured, Stretch, OwnBlocks, AllOnChip, ListOk;
    var _ := FieldValue(start, list, setGpio, first, n, Data, PinOf(port, num), k);
  }

  // ------------------------------------------------------------- everything else

  lemma {:induction false} ApplyKeeps(regs: Registers, ws: seq<FieldWrite>, a: int)
    requires Mapped(regs, ws) && a in regs && forall k :: 0 <= k < |ws| ==> ws[k].addr != a
    ensures Apply(regs, ws)[a] == regs[a]
    decreases |ws|
  {
    if ws != [] {
      assert forall k :: 0 <= k < |ws[1..]| ==> ws[1..][k] == ws[k + 1];
      ApplyKeeps(WriteField(regs, ws[0]), ws[1..], a);
    }
  }

  /** None of the registers of a pin of ports 1 to 11, save that its data register counts only when the
      entry writes it. */
  predicate Elsewhere(p: Pin, a: int) {
    var port := 0x0200_0000 + (p.port - 1) * 0x30;
    && a != port + p.num / 8 * 4 && a != port + 0x24 + p.num / 16 * 4 && a != port + 0x14 + p.num / 16 * 4
    && (a != port + 0x10 || p.mulSel != 1 || p.data < 0)
  }

  lemma {:induction false} NoWrites(act: seq<Pin>, n: nat, setGpio: bool, a: int)
    requires Usable(act) && n <= |act| && forall k :: 0 <= k < |act| ==> act[k].port < 12 && Elsewhere(act[k], a)
    ensures forall k :: 0 <= k < |AllWrites(act, n, setGpio)| ==> AllWrites(act, n, setGpio)[k].addr != a
    decreases n
  {
    if n > 0 {
      NoWrites(act, n - 1, setGpio, a);
      CodeSelIs(act, n - 1);
      EntryElsewhere(act[n - 1], setGpio, n == 1, a);
    }
  }

  lemma EntryElsewhere(p: Pin, setGpio: bool, first: bool, a: int)
    requires p.port < 12 && Elsewhere(p, a)
    ensures forall k :: 0 <= k < |Writes(p, HomeSel(p), setGpio, first)| ==> Writes(p, HomeSel(p), setGpio, first)[k].addr != a
  {
  }

  /** A register that no entry configures keeps its value. */
  lemma OthersKept(start: Registers, list: seq<Pin>, setGpio: bool, first: nat, n: nat, a: int)
    requires AllOnChip(start) && ListOk(list) && Stretch(list, first, n) && a in start
    requires forall j :: first <= j < first + n ==> list[j].port < 12 && Elsewhere(list[j], a)
    ensures a in Configured(start, list, setGpio) && Configured(start, list, setGpio)[a] == start[a]
  {
    ActiveIs(list, first, n);
    ActiveUsable(list);
    var act := list[first..first + n];
    assert forall j :: 0 <= j < n ==> act[j] == list[first + j];
    AllWritesMapped(start, act, n, setGpio);
    NoWrites(act, n, setGpio, a);
    ApplyKeeps(start, AllWrites(act, n, setGpio), a);
  }
}
