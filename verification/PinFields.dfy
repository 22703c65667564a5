/** What the pin registers hold after boot_set_gpio (spl/drivers/pinmux.c): every field of
    every pin, listed or not. */
module PinFields {
  import opened BitVectors
  import opened Ints
  import opened PinMux

  // ------------------------------------------------------------- fields of one register

  /** The field of `width` bits at bit `shift`, left in place. */
  function Field(w: word, shift: int, width: int): word
    requires FieldOk(shift, width)
  {
    Masked(w, Shl(Ones(width), shift))
  }

  function Masked(w: word, mask: word): word {
    w & mask
  }

  lemma {:induction false} ShlAdd(w: word, i: int, j: int)
    requires 0 <= i && 0 <= j && i + j < 32
    ensures Shl(Shl(w, i), j) == Shl(w, i + j)
    decreases j
  {
    if j > 0 {
      ShlAdd(w, i, j - 1);
    }
  }

  lemma ShiftAnd(x: word, y: word, z: word, x1: word, y1: word, z1: word)
    requires z == x & y && x1 == x << 1 && y1 == y << 1 && z1 == z << 1
    ensures x1 & y1 == z1
  {
  }

  lemma Unshift(w: word, s: int, r: word) returns (h: word)
    requires 0 < s < 32 && r == Shl(w, s)
    ensures h == Shl(w, s - 1) && r == h << 1
  {
    h := Shl(w, s - 1);
  }

  lemma {:induction false} ShlAnd(x: word, y: word, z: word, s: int, a: word, b: word, c: word)
    requires 0 <= s < 32 && z == x & y && a == Shl(x, s) && b == Shl(y, s) && c == Shl(z, s)
    ensures a & b == c
    decreases s
  {
    if s > 0 {
      var x1 := Unshift(x, s, a);
      var y1 := Unshift(y, s, b);
      var z1 := Unshift(z, s, c);
      ShlAnd(x, y, z, s - 1, x1, y1, z1);
      ShiftAnd(x1, y1, z1, a, b, c);
    } else {
      SameAnd(x, y, z, a, b, c);
    }
  }

  lemma SameAnd(x: word, y: word, z: word, a: word, b: word, c: word)
    requires z == x & y && x == a && y == b && z == c
    ensures a & b == c
  {
  }

  lemma {:induction false} ShlZero(z: word, s: int)
    requires 0 <= s < 32 && z == 0
    ensures Shl(z, s) == 0
    decreases s
  {
    if s > 0 {
      ShlZero(z, s - 1);
    }
  }

  lemma FourUp(x: word, a: word, b: word, c: word, d: word)
    requires a == x << 1 && b == a << 1 && c == b << 1 && d == c << 1
    ensures d & 0xF == 0
  {
  }

  lemma TwoUp(x: word, a: word, b: word)
    requires a == x << 1 && b == a << 1
    ensures b & 3 == 0
  {
  }

  lemma OneUp(x: word, a: word)
    requires a == x << 1
    ensures a & 1 == 0
  {
  }

  /** A field of n bits at the bottom and one shifted up by at least n do not meet. */
  lemma BottomApart(w: word, m: word, n: int, s: int, r: word)
    requires (n == 4 && m == 0xF) || (n == 2 && m == 3) || (n == 1 && m == 1)
    requires n <= s < 32 && r == Shl(w, s)
    ensures r & m == 0
  {
    var c := Unshift(w, s, r);
    if n == 4 {
      var b := Unshift(w, s - 1, c);
      var a := Unshift(w, s - 2, b);
      var x := Unshift(w, s - 3, a);
      FourUp(x, a, b, c, r);
    } else if n == 2 {
      var b := Unshift(w, s - 1, c);
      TwoUp(b, c, r);
    } else {
      OneUp(c, r);
    }
  }

  lemma AndSwap(x: word, y: word, z: word)
    requires x & y == z
    ensures y & x == z
  {
  }

  /** Masks of n bits at different multiples of n do not meet. */
  lemma MasksApartAt(m: word, n: int, i: int, j: int, mi: word, mj: word)
    requires (n == 4 && m == 0xF) || (n == 2 && m == 3) || (n == 1 && m == 1)
    requires 0 <= i && i + n <= j && j + n <= 32
    requires mi == Shl(m, i) && mj == Shl(m, j)
    ensures mj & mi == 0
  {
    var u := Shl(m, j - i);
    BottomApart(m, m, n, j - i, u);
    ShlAdd(m, j - i, i);
    ShlZero(0, i);
    ShlAnd(u, m, 0, i, mj, mi, 0);
  }

  lemma SmallWord(v: int, w: word)
    requires 0 <= v < 16 && w == Bits4(v)
    ensures w & 0xF == w && (v < 4 ==> w & 3 == w) && (v < 2 ==> w & 1 == w)
  {
  }

  lemma UpdateInside(w: word, mask: word, bits: word, r: word, f: word)
    requires bits & mask == bits && r == SetMasked(w, mask, bits) && f == Masked(r, mask)
    ensures f == bits
  {
  }

  lemma UpdateOutside(w: word, mask: word, bits: word, m: word, r: word, f: word, x: word)
    requires bits & mask == bits && mask & m == 0 && r == SetMasked(w, mask, bits) && f == Masked(r, m) && x == Masked(w, m)
    ensures f == x
  {
  }

  lemma SettingInMask(fw: FieldWrite, bits: word, mask: word)
    requires WriteOk(fw) && bits == Shl(Bits4(fw.value), fw.shift) && mask == Shl(Ones(fw.width), fw.shift)
    ensures bits & mask == bits
  {
    SmallWord(fw.value, Bits4(fw.value));
    ShlAnd(Bits4(fw.value), Ones(fw.width), Bits4(fw.value), fw.shift, bits, mask, bits);
  }

  /** A field write sets its field. */
  lemma WriteSets(w: word, fw: FieldWrite)
    requires WriteOk(fw)
    ensures Field(Update(w, fw.shift, fw.width, fw.value), fw.shift, fw.width) == Shl(Bits4(fw.value), fw.shift)
  {
    var mask, bits := Shl(Ones(fw.width), fw.shift), Shl(Bits4(fw.value), fw.shift);
    var r := Update(w, fw.shift, fw.width, fw.value);
    SettingInMask(fw, bits, mask);
    UpdateInside(w, mask, bits, r, Field(r, fw.shift, fw.width));
  }

  lemma FieldMasksApart(width: int, i: int, j: int, mi: word, mj: word)
    requires FieldOk(i, width) && FieldOk(j, width) && (i + width <= j || j + width <= i)
    requires mi == Shl(Ones(width), i) && mj == Shl(Ones(width), j)
    ensures mi & mj == 0
  {
    if j < i {
      MasksApartAt(Ones(width), width, j, i, mj, mi);
    } else {
      MasksApartAt(Ones(width), width, i, j, mi, mj);
      AndSwap(mj, mi, 0);
    }
  }

  /** A field write leaves the other fields alone. */
  lemma WriteKeeps(w: word, fw: FieldWrite, shift: int)
    requires WriteOk(fw) && FieldOk(shift, fw.width)
    requires fw.shift + fw.width <= shift || shift + fw.width <= fw.shift
    ensures Field(Update(w, fw.shift, fw.width, fw.value), shift, fw.width) == Field(w, shift, fw.width)
  {
    var mask, bits := Shl(Ones(fw.width), fw.shift), Shl(Bits4(fw.value), fw.shift);
    var r, m := Update(w, fw.shift, fw.width, fw.value), Shl(Ones(fw.width), shift);
    SettingInMask(fw, bits, mask);
    FieldMasksApart(fw.width, fw.shift, shift, mask, m);
    UpdateOutside(w, mask, bits, m, r, Field(r, shift, fw.width), Field(w, shift, fw.width));
  }

  // ------------------------------------------------------------- fields of the register file

  /** A write to register a sets exactly the field at `shift`, or a field apart from it. */
  predicate Tidy(fw: FieldWrite, a: int, shift: int, width: int) {
    WriteOk(fw) && (fw.addr == a ==>
      fw.width == width && (fw.shift == shift || fw.shift + width <= shift || shift + width <= fw.shift))
  }

  predicate AllTidy(ws: seq<FieldWrite>, a: int, shift: int, width: int)
    decreases |ws|
  {
    ws == [] || (Tidy(ws[0], a, shift, width) && AllTidy(ws[1..], a, shift, width))
  }

  /** The value of the last write that sets the field at (a, shift); v when there is none. */
  function LastHit(ws: seq<FieldWrite>, a: int, shift: int, v: int): int
    decreases |ws|
  {
    if ws == [] then v
    else LastHit(ws[1..], a, shift, if ws[0].addr == a && ws[0].shift == shift then ws[0].value else v)
  }

  /** The field at `shift` of w holds v, or is as in the original register when v is -1. */
  predicate Shows(w: word, orig: word, shift: int, width: int, v: int)
    requires FieldOk(shift, width)
  {
    -1 <= v < 16 && Field(w, shift, width) == if v < 0 then Field(orig, shift, width) else Shl(Bits4(v), shift)
  }

  lemma OneWrite(regs: Registers, fw: FieldWrite, a: int, shift: int, width: int, orig: word, v: int)
    requires fw.addr in regs && a in regs && FieldOk(shift, width) && Tidy(fw, a, shift, width)
    requires Shows(regs[a], orig, shift, width, v)
    ensures Shows(WriteField(regs, fw)[a], orig, shift, width, if fw.addr == a && fw.shift == shift then fw.value else v)
  {
    if fw.addr == a {
      if fw.shift == shift {
        WriteSets(regs[a], fw);
      } else {
        WriteKeeps(regs[a], fw, shift);
      }
    }
  }

  lemma {:induction false} LastWriteWins(regs: Registers, ws: seq<FieldWrite>, a: int, shift: int, width: int, orig: word, v: int)
    requires Mapped(regs, ws) && a in regs && FieldOk(shift, width) && AllTidy(ws, a, shift, width)
    requires Shows(regs[a], orig, shift, width, v)
    ensures Shows(Apply(regs, ws)[a], orig, shift, width, LastHit(ws, a, shift, v))
    decreases |ws|
  {
    if ws != [] {
      OneWrite(regs, ws[0], a, shift, width, orig, v);
      assert forall k :: 0 <= k < |ws[1..]| ==> ws[1..][k] == ws[k + 1];
      LastWriteWins(WriteField(regs, ws[0]), ws[1..], a, shift, width, orig,
        if ws[0].addr == a && ws[0].shift == shift then ws[0].value else v);
    }
  }

  // ------------------------------------------------------------- fields of pins

  predicate SamePin(p: Pin, q: Pin) {
    p.port == q.port && p.num == q.num
  }

  /** How many 0x30-byte ports lie between the two address blocks, less the twelve ports of the
      first. */
  const BANK_GAP: int := 0x1AB600 - 12

  /** The offset of a register in its port's 0x30 bytes. */
  function Offset(k: Kind, num: int): int {
    match k
    case Func => num / 8 * 4
    case Pull => 0x24 + num / 16 * 4
    case Drv => 0x14 + num / 16 * 4
    case Data => 0x10
  }

  lemma OffsetTells(k: Kind, m: int, l: Kind, n: int)
    requires 0 <= m < 32 && 0 <= n < 32 && Offset(k, m) == Offset(l, n)
    ensures k == l && (k == Func ==> m / 8 == n / 8) && (k == Pull || k == Drv ==> m / 16 == n / 16)
  {
  }

  lemma OffsetFits(k: Kind, num: int)
    requires 0 <= num < 32
    ensures 0 <= Offset(k, num) < 0x30
  {
  }

  lemma AddrSplits(k: Kind, p: Pin) returns (bank: int)
    requires p.port != 0 && p.num < 32
    ensures Addr(HomeSel(p), k) == bank * 0x30 + Offset(k, p.num) + PIO_BASE
    ensures if p.port < 12 then bank == p.port as int - 1 else bank >= 12 && bank == p.port as int + BANK_GAP
  {
    bank := if p.port < 12 then p.port as int - 1 else p.port as int + BANK_GAP;
  }

  /** The register addresses are distinct: one of them determines the kind of register, the
      port and the register number. */
  lemma AddressTells(k: Kind, p: Pin, l: Kind, q: Pin)
    requires p.port != 0 && q.port != 0 && p.num < 32 && q.num < 32
    requires Addr(HomeSel(p), k) == Addr(HomeSel(q), l)
    ensures k == l && p.port == q.port
    ensures k == Func ==> p.num / 8 == q.num / 8
    ensures k == Pull || k == Drv ==> p.num / 16 == q.num / 16
  {
    hide Addr, HomeSel, Offset;
    var b := AddrSplits(k, p);
    var c := AddrSplits(l, q);
    OffsetFits(k, p.num);
    OffsetFits(l, q.num);
    SameOffset(b, Offset(k, p.num), c, Offset(l, q.num));
    OffsetTells(k, p.num, l, q.num);
  }

  lemma SameOffset(b: int, x: int, c: int, y: int)
    requires 0 <= x < 0x30 && 0 <= y < 0x30 && b * 0x30 + x == c * 0x30 + y
    ensures b == c && x == y
  {
  }


  /** The last of the first n entries that sets the field of pin q, or -1. */
  function LastSetter(act: seq<Pin>, n: nat, kind: Kind, q: Pin): (k: int)
    requires n <= |act|
    ensures -1 <= k < n
    ensures k >= 0 ==> SamePin(act[k], q) && Sets(kind, act[k], k == 0)
    ensures forall j :: k < j < n ==> !(SamePin(act[j], q) && Sets(kind, act[j], j == 0))
    decreases n
  {
    if n == 0 then -1
    else if SamePin(act[n - 1], q) && Sets(kind, act[n - 1], n == 1) then n - 1
    else LastSetter(act, n - 1, kind, q)
  }

  /** What the field of pin q must hold after the first n entries: the setting of the last
      entry that sets it, or -1 for what it held before. */
  function Expected(act: seq<Pin>, n: nat, kind: Kind, q: Pin, setGpio: bool): int
    requires n <= |act|
  {
    var k := LastSetter(act, n, kind, q);
    if k < 0 then -1 else Setting(kind, act[k], setGpio)
  }

  lemma {:induction false} LastHitAppend(x: seq<FieldWrite>, y: seq<FieldWrite>, a: int, shift: int, v: int)
    ensures LastHit(x + y, a, shift, v) == LastHit(y, a, shift, LastHit(x, a, shift, v))
    decreases |x|
  {
    if x == [] {
      assert x + y == y;
    } else {
      assert (x + y)[1..] == x[1..] + y;
      LastHitAppend(x[1..], y, a, shift, if x[0].addr == a && x[0].shift == shift then x[0].value else v);
    }
  }

  lemma {:induction false} TidyAppend(x: seq<FieldWrite>, y: seq<FieldWrite>, a: int, shift: int, width: int)
    requires AllTidy(x, a, shift, width) && AllTidy(y, a, shift, width)
    ensures AllTidy(x + y, a, shift, width)
    decreases |x|
  {
    if x == [] {
      assert x + y == y;
    } else {
      assert (x + y)[1..] == x[1..] + y;
      TidyAppend(x[1..], y, a, shift, width);
    }
  }

  /** The writes of one entry to one kind of register, seen from the field of pin q. */
  lemma KindHits(l: Kind, p: Pin, setGpio: bool, first: bool, kind: Kind, q: Pin, v: int)
    requires p.port != 0 && q.port != 0 && p.num < 32 && q.num < 32
    ensures var ws, a := FieldWrites(l, p, HomeSel(p), setGpio, first), Addr(HomeSel(q), kind);
      AllTidy(ws, a, Shift(kind, q), Width(kind)) &&
      LastHit(ws, a, Shift(kind, q), v) == if l == kind && SamePin(p, q) && Sets(l, p, first) then Setting(l, p, setGpio) else v
  {
    if Addr(HomeSel(p), l) == Addr(HomeSel(q), kind) {
      AddressTells(l, p, kind, q);
    }
  }

  lemma EntryHits(p: Pin, sel: Sel, setGpio: bool, first: bool, kind: Kind, q: Pin, a: int, v: int)
    requires p.port != 0 && q.port != 0 && p.num < 32 && q.num < 32 && sel == HomeSel(p)
    requires a == Addr(HomeSel(q), kind)
    ensures AllTidy(Writes(p, sel, setGpio, first), a, Shift(kind, q), Width(kind))
    ensures LastHit(Writes(p, sel, setGpio, first), a, Shift(kind, q), v) ==
      if SamePin(p, q) && Sets(kind, p, first) then Setting(kind, p, setGpio) else v
  {
    var f, u := FieldWrites(Func, p, sel, setGpio, first), FieldWrites(Pull, p, sel, setGpio, first);
    var d, t := FieldWrites(Drv, p, sel, setGpio, first), FieldWrites(Data, p, sel, setGpio, first);
    var s, n := Shift(kind, q), Width(kind);
    var v1 := LastHit(f, a, s, v);
    var v2 := LastHit(u, a, s, v1);
    var v3 := LastHit(d, a, s, v2);
    KindHits(Func, p, setGpio, first, kind, q, v);
    KindHits(Pull, p, setGpio, first, kind, q, v1);
    KindHits(Drv, p, setGpio, first, kind, q, v2);
    KindHits(Data, p, setGpio, first, kind, q, v3);
    LastHitAppend(f, u, a, s, v);
    LastHitAppend(f + u, d, a, s, v);
    LastHitAppend(f + u + d, t, a, s, v);
    TidyAppend(f, u, a, s, n);
    TidyAppend(f + u, d, a, s, n);
    TidyAppend(f + u + d, t, a, s, n);
  }

  lemma {:induction false} RunHits(act: seq<Pin>, n: nat, setGpio: bool, kind: Kind, q: Pin, a: int)
    requires Usable(act) && n <= |act| && q.port != 0 && q.num < 32
    requires forall k :: 0 <= k < |act| ==> CodeSel(act, k) == HomeSel(act[k])
    requires a == Addr(HomeSel(q), kind)
    ensures AllTidy(AllWrites(act, n, setGpio), a, Shift(kind, q), Width(kind))
    ensures LastHit(AllWrites(act, n, setGpio), a, Shift(kind, q), -1) == Expected(act, n, kind, q, setGpio)
    decreases n
  {
    hide HomeSel, Shift, Width, Sets, Setting, SamePin, Writes, CodeSel;
    if n > 0 {
      RunHits(act, n - 1, setGpio, kind, q, a);
      var ws := Writes(act[n - 1], CodeSel(act, n - 1), setGpio, n == 1);
      EntryHits(act[n - 1], CodeSel(act, n - 1), setGpio, n == 1, kind, q, a, Expected(act, n - 1, kind, q, setGpio));
      LastHitAppend(AllWrites(act, n - 1, setGpio), ws, a, Shift(kind, q), -1);
      TidyAppend(AllWrites(act, n - 1, setGpio), ws, a, Shift(kind, q), Width(kind));
    }
  }

  /** After boot_set_gpio every field of every pin, listed or not, holds the setting of the last
      entry that sets it, and what it held before when there is none. */
  lemma FieldHoldsLastSetting(start: Registers, list: seq<Pin>, setGpio: bool, kind: Kind, q: Pin)
    requires AllOnChip(start) && ListOk(list) && q.port != 0 && q.num < 32
    requires var act := Active(list); forall k :: 0 <= k < |act| ==> act[k].port < 12 || LeadRun(act, k)
    ensures var a, act := Addr(HomeSel(q), kind), Active(list);
      a in start && a in Configured(start, list, setGpio) &&
      Shows(Configured(start, list, setGpio)[a], start[a], Shift(kind, q), Width(kind), Expected(act, |act|, kind, q, setGpio))
  {
    var a, act := Addr(HomeSel(q), kind), Active(list);
    ActiveUsable(list);
    HomeBankIff(act);
    assert OnChip(a);
    AllWritesMapped(start, act, |act|, setGpio);
    RunHits(act, |act|, setGpio, kind, q, a);
    LastWriteWins(start, AllWrites(act, |act|, setGpio), a, Shift(kind, q), Width(kind), start[a], -1);
  }
}
