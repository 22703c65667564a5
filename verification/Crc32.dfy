/** CRC-32 as the boot loader computes it (spl/common/crc32.c), refined against bit-at-a-time
    division, with its error detection. */
module Crc32 {
  import opened BitVectors
  import opened CrcTable

  const ONES: word := 0xFFFFFFFF

  /** The final inversion of the register. */
  function Complement(crc: word): word {
    crc ^ ONES
  }

  // ------------------------------------------------------------- bit-serial reference

  /** Shift one message bit into the division register. */
  function BitStep(reg: word, bit: bool): word {
    Shift(if bit then reg ^ 1 else reg)
  }

  function Divide(reg: word, bits: seq<bool>): word
    decreases |bits|
  {
    if bits == [] then reg else Divide(BitStep(reg, bits[0]), bits[1..])
  }

  /** The low n bits of a word, least significant first. */
  function LowBits(w: word, n: nat): (bits: seq<bool>)
    ensures |bits| == n
    decreases n
  {
    if n == 0 then [] else [w & 1 != 0] + LowBits(w >> 1, n - 1)
  }

  function ByteBits(b: byte): (bits: seq<bool>)
    ensures |bits| == 8
  {
    LowBits(b as word, 8)
  }

  /** A message's bits in transmission order: bytes in order, least significant bit first. */
  function Bits(data: seq<byte>): (bits: seq<bool>)
    ensures |bits| == 8 * |data|
  {
    if data == [] then [] else ByteBits(data[0]) + Bits(data[1..])
  }

  // ------------------------------------------------------------- the code

  /** The loop body of crc32_0. */
  function ByteStep(crc: word, b: byte): word {
    Lookup((crc >> 8) & 0x00FFFFFF, ((crc ^ b as word) & 0x000000FF) as byte)
  }

  function Lookup(high: word, i: byte): word {
    high ^ Table(i)
  }

  function Fold(crc: word, data: seq<byte>): word
    decreases |data|
  {
    if data == [] then crc else Fold(ByteStep(crc, data[0]), data[1..])
  }

  function Crc(data: seq<byte>): word {
    Complement(Fold(ONES, data))
  }

  /** crc32_0 */
  method Crc32_0(data: array<byte>, length: nat) returns (r: word)
    requires length <= data.Length
    ensures r == Crc(data[..length])
  {
    var crc: word := ONES;
    var i := 0;
    while i < length
      invariant 0 <= i <= length
      invariant Fold(ONES, data[..length]) == Fold(crc, data[i..length])
    {
      assert data[i..length][1..] == data[i + 1..length];
      crc := ByteStep(crc, data[i]);
      i := i + 1;
    }
    r := Complement(crc);
  }

  /** crc32: the running value passed in is ignored. */
  method Crc32(crc: word, buf: array<byte>, len: nat) returns (r: word)
    requires len <= buf.Length
    ensures r == Crc(buf[..len])
  {
    r := Crc32_0(buf, len);
  }

  // ------------------------------------------------------------- registers

  /** n steps with no message bit coming in. */
  function Shifts(reg: word, n: nat): word
    decreases n
  {
    if n == 0 then reg else Shifts(Shift(reg), n - 1)
  }

  function Halves(w: word, n: nat): word
    decreases n
  {
    if n == 0 then w else Halves(w >> 1, n - 1)
  }

  /** w, read from its lowest bit up, is exactly bits. */
  predicate Spells(w: word, bits: seq<bool>)
    decreases |bits|
  {
    if bits == [] then w == 0 else (w & 1 != 0) == bits[0] && Spells(w >> 1, bits[1..])
  }

  // The solver handles equations between xors badly; these names keep them apart.

  predicate IsXor(x: word, a: word, b: word) {
    x == a ^ b
  }

  predicate IsHalf(h: word, w: word) {
    h == w >> 1
  }

  predicate LowBit(w: word) {
    w & 1 == 1
  }

  function Xor(a: word, b: word): (x: word)
    ensures IsXor(x, a, b)
  {
    a ^ b
  }

  function Half(w: word): (h: word)
    ensures IsHalf(h, w)
  {
    w >> 1
  }

  lemma LowBitIs(w: word)
    ensures LowBit(w) == (w & 1 != 0)
  {
  }

  lemma LowOfXor(s: word, t: word, c: word)
    requires IsXor(s, t, c)
    ensures LowBit(s) == (LowBit(t) != LowBit(c))
  {
  }

  lemma HalfOfXor(s: word, t: word, c: word, s1: word, t1: word, c1: word)
    requires IsXor(s, t, c) && IsHalf(s1, s) && IsHalf(t1, t) && IsHalf(c1, c)
    ensures IsXor(s1, t1, c1)
  {
  }

  lemma LowFlipped(s: word, u: word, h: word)
    requires u == s ^ 1 && IsHalf(h, u)
    ensures LowBit(u) == !LowBit(s) && IsHalf(h, s)
  {
  }

  lemma XorPast(a: word, b: word, p: word, ap: word, ab: word, abp: word, apb: word)
    requires IsXor(ap, a, p) && IsXor(ab, a, b) && IsXor(abp, ab, p) && IsXor(apb, ap, b)
    ensures abp == apb
  {
  }

  lemma XorUnique(a: word, b: word, x: word, y: word)
    requires IsXor(x, a, b) && IsXor(y, a, b)
    ensures x == y
  {
  }

  lemma ShiftIs(w: word, h: word, s: word, hp: word)
    requires IsHalf(h, w) && s == Shift(w) && IsXor(hp, h, POLY)
    ensures s == if LowBit(w) then hp else h
  {
  }

  /** Shifting u, whose upper bits are those of t ^ c and whose lowest bit is that of t. */
  lemma ShiftAhead(t: word, c1: word, u: word, t1: word, r: word, h: word, th: word)
    requires LowBit(u) == LowBit(t) && IsXor(h, th, c1) && t1 == Shift(t) && IsXor(r, t1, c1)
    requires IsHalf(h, u) && IsHalf(th, t)
    ensures Shift(u) == r
  {
    var hp, thp := Xor(h, POLY), Xor(th, POLY);
    ShiftIs(u, h, Shift(u), hp);
    ShiftIs(t, th, t1, thp);
    hide Shift, IsXor, IsHalf, LowBit, Xor;
    if LowBit(t) {
      XorPast(th, c1, POLY, t1, h, hp, r);
    } else {
      XorUnique(th, c1, h, r);
    }
  }

  lemma StepWithOne(s: word, t: word, c: word, c1: word, t1: word, r: word, u: word)
    requires IsXor(s, t, c) && IsHalf(c1, c) && LowBit(c) && t1 == Shift(t) && IsXor(r, t1, c1) && u == s ^ 1
    ensures Shift(u) == r
  {
    var h, th := Half(u), Half(t);
    LowFlipped(s, u, h);
    hide Shift, IsXor, IsHalf, LowBit, Half;
    LowOfXor(s, t, c);
    HalfOfXor(s, t, c, h, th, c1);
    ShiftAhead(t, c1, u, t1, r, h, th);
  }

  lemma StepWithZero(s: word, t: word, c: word, c1: word, t1: word, r: word)
    requires IsXor(s, t, c) && IsHalf(c1, c) && !LowBit(c) && t1 == Shift(t) && IsXor(r, t1, c1)
    ensures Shift(s) == r
  {
    hide Shift, IsXor, IsHalf, LowBit, Half;
    var h, th := Half(s), Half(t);
    LowOfXor(s, t, c);
    HalfOfXor(s, t, c, h, th, c1);
    ShiftAhead(t, c1, s, t1, r, h, th);
  }

  /** One step of a register s that still has the coming message bits c xored in. */
  lemma BitAhead(s: word, t: word, c: word, bit: bool) returns (s1: word, t1: word, c1: word)
    requires IsXor(s, t, c) && bit == LowBit(c)
    ensures s1 == BitStep(s, bit) && t1 == Shift(t) && IsHalf(c1, c) && IsXor(s1, t1, c1)
  {
    hide Shift, LowBit, IsXor, IsHalf, Half, Xor;
    t1, c1 := Shift(t), Half(c);
    s1 := Xor(t1, c1);
    if bit {
      StepWithOne(s, t, c, c1, t1, s1, s ^ 1);
    } else {
      StepWithZero(s, t, c, c1, t1, s1);
    }
  }

  lemma XorZero(s: word, t: word, z: word)
    requires IsXor(s, t, z) && z == 0
    ensures s == t
  {
  }

  lemma SpellsNext(w: word, bits: seq<bool>, h: word)
    requires Spells(w, bits) && bits != [] && IsHalf(h, w)
    ensures bits[0] == LowBit(w) && Spells(h, bits[1..])
  {
    LowBitIs(w);
  }

  /** Feeding bits one by one is xoring them in as a word and shifting. */
  lemma {:induction false} Absorb(s: word, t: word, w: word, bits: seq<bool>)
    requires Spells(w, bits) && IsXor(s, t, w)
    ensures Divide(s, bits) == Shifts(t, |bits|)
    decreases |bits|
  {
    hide IsXor, IsHalf, Shift, BitStep, LowBit, Half;
    if bits == [] {
      XorZero(s, t, w);
    } else {
      SpellsNext(w, bits, Half(w));
      var s1, t1, w1 := BitAhead(s, t, w, bits[0]);
      SpellsNext(w, bits, w1);
      Absorb(s1, t1, w1, bits[1..]);
    }
  }

  // ------------------------------------------------------------- halving

  lemma TwoHalves(w: word, h: word, h2: word, w2: word)
    requires h == w >> 1 && h2 == h >> 1 && w2 == w >> 2
    ensures h2 == w2
  {
  }

  lemma FourHalves(w: word, w2: word, v: word, w4: word)
    requires w2 == w >> 2 && v == w2 >> 2 && w4 == w >> 4
    ensures v == w4
  {
  }

  lemma HalfOf(w: word) returns (h: word)
    ensures h == w >> 1
  {
    h := w >> 1;
  }

  lemma HalvesTwo(w: word, w2: word, n: nat)
    requires n >= 2 && w2 == w >> 2
    ensures Halves(w, n) == Halves(w2, n - 2)
  {
    var h := HalfOf(w);
    var h2 := HalfOf(h);
    TwoHalves(w, h, h2, w2);
    assert Halves(w, n) == Halves(h, n - 1);
  }

  lemma HalvesFour(w: word, w4: word, n: nat)
    requires n >= 4 && w4 == w >> 4
    ensures Halves(w, n) == Halves(w4, n - 4)
  {
    var w2 := w >> 2;
    var v := w2 >> 2;
    HalvesTwo(w, w2, n);
    HalvesTwo(w2, v, n - 2);
    FourHalves(w, w2, v, w4);
  }

  lemma HalvesEight(w: word, w4: word, w8: word, n: nat)
    requires n >= 8 && w4 == w >> 4 && w8 == w4 >> 4
    ensures Halves(w, n) == Halves(w8, n - 8)
  {
    HalvesFour(w, w4, n);
    HalvesFour(w4, w8, n - 4);
  }

  lemma {:induction false} LowBitsSpell(w: word, n: nat)
    requires Halves(w, n) == 0
    ensures Spells(w, LowBits(w, n))
    decreases n
  {
    if n > 0 {
      LowBitsSpell(w >> 1, n - 1);
      assert LowBits(w, n)[1..] == LowBits(w >> 1, n - 1);
    }
  }

  lemma ByteGone(b: byte, w: word, w4: word, w8: word)
    requires w == b as word && w4 == w >> 4 && w8 == w4 >> 4
    ensures w8 == 0
  {
  }

  lemma ByteSpells(b: byte)
    ensures Spells(b as word, LowBits(b as word, 8))
  {
    var w := b as word;
    var w4 := w >> 4;
    HalvesEight(w, w4, w4 >> 4, 8);
    ByteGone(b, w, w4, w4 >> 4);
    LowBitsSpell(w, 8);
  }

  // ------------------------------------------------------------- table look-up

  /** The low n bits of c are clear. */
  predicate Even(c: word, n: nat)
    decreases n
  {
    n == 0 || (c & 1 == 0 && Even(c >> 1, n - 1))
  }

  lemma EvenNext(c: word, n: nat, h: word)
    requires Even(c, n) && n > 0 && IsHalf(h, c)
    ensures !LowBit(c) && Even(h, n - 1) && Halves(c, n) == Halves(h, n - 1)
  {
    LowBitIs(c);
  }

  /** n steps on t ^ c, when c has its low n bits clear, only shift c down. */
  lemma {:induction false} ShiftsSplit(s: word, t: word, c: word, n: nat, u: word, v: word, r: word)
    requires IsXor(s, t, c) && Even(c, n)
    requires u == Shifts(t, n) && v == Halves(c, n) && IsXor(r, u, v)
    ensures Shifts(s, n) == r
    decreases n
  {
    hide IsXor, IsHalf, LowBit, Half, Even, Halves, Shift;
    if n == 0 {
      NoHalves(c);
      XorUnique(t, c, s, r);
    } else {
      EvenNext(c, n, Half(c));
      var s1, t1, c1 := BitAhead(s, t, c, false);
      EvenNext(c, n, c1);
      assert s1 == Shift(s);
      ShiftsSplit(s1, t1, c1, n - 1, u, v, r);
    }
  }

  lemma NoHalves(c: word)
    ensures Halves(c, 0) == c
  {
  }

  lemma HalfClears(c: word, m: word, h: word, m1: word)
    requires c & m == 0 && m & 1 == 1 && h == c >> 1 && m1 == m >> 1
    ensures c & 1 == 0 && h & m1 == 0
  {
  }

  lemma {:induction false} EvenByMask(c: word, m: word, n: nat)
    requires c & m == 0 && Odd(m, n)
    ensures Even(c, n)
    decreases n
  {
    if n > 0 {
      var h := HalfOf(c);
      var m1 := HalfOf(m);
      HalfClears(c, m, h, m1);
      EvenByMask(h, m1, n - 1);
    }
  }

  predicate Odd(m: word, n: nat)
    decreases n
  {
    n == 0 || (m & 1 == 1 && Odd(m >> 1, n - 1))
  }

  lemma ByteMaskOdd()
    ensures Odd(0xFF, 8)
  {
    assert Odd(0xF, 4);
  }

  lemma EightIsShifts(t: word)
    ensures Shifts(t, 8) == Eight(t)
  {
    var t2 := Shift(Shift(t));
    var t4 := Shift(Shift(t2));
    assert Shifts(t, 8) == Shifts(t2, 6);
    assert Shifts(t2, 6) == Shifts(t4, 4);
    assert Shifts(t4, 4) == Shifts(Shift(Shift(t4)), 2);
  }

  lemma HighByHalves(x: word, hi: word, w4: word, w8: word, high: word)
    requires hi == x & 0xFFFFFF00 && w4 == hi >> 4 && w8 == w4 >> 4 && high == (x >> 8) & 0x00FFFFFF
    ensures w8 == high && hi & 0xFF == 0
  {
  }

  lemma LowAndHigh(x: word, lo: word, hi: word)
    requires lo == x & 0xFF && hi == x & 0xFFFFFF00
    ensures x == lo ^ hi
  {
  }

  lemma IndexIsLow(x: word, i: byte, lo: word)
    requires lo == x & 0xFF && i == (x & 0xFF) as byte
    ensures i as word == lo
  {
  }

  /** The upper 24 bits and the low byte of a register, and what they become in eight steps. */
  lemma Parts(x: word, high: word, i: byte) returns (lo: word, hi: word)
    requires high == (x >> 8) & 0x00FFFFFF && i == (x & 0xFF) as byte
    ensures i as word == lo && IsXor(x, lo, hi) && Even(hi, 8) && Halves(hi, 8) == high
  {
    lo, hi := x & 0xFF, x & 0xFFFFFF00;
    LowAndHigh(x, lo, hi);
    IndexIsLow(x, i, lo);
    var w4 := hi >> 4;
    HighByHalves(x, hi, w4, w4 >> 4, high);
    HalvesEight(hi, w4, w4 >> 4, 8);
    ByteMaskOdd();
    EvenByMask(hi, 0xFF, 8);
  }

  lemma XorFlip(a: word, b: word, r: word, r': word)
    requires IsXor(r, a, b) && IsXor(r', b, a)
    ensures r == r'
  {
  }

  /** Eight steps shift the upper 24 bits down and look the low byte up in the table. */
  lemma EightIsLookup(x: word, high: word, i: byte, e: word, r: word)
    requires high == (x >> 8) & 0x00FFFFFF && i == (x & 0xFF) as byte
    requires e == Table(i) && IsXor(r, high, e)
    ensures Shifts(x, 8) == r
  {
    var lo, hi := Parts(x, high, i);
    hide IsXor, Xor, Even, Halves, Table, Shift, Eight;
    TableIsEightSteps(i);
    EightIsShifts(lo);
    var r' := Xor(e, high);
    XorFlip(high, e, r, r');
    ShiftsSplit(x, lo, hi, 8, e, high, r');
  }

  // ------------------------------------------------------------- refinement

  lemma XorBack(t: word, reg: word, c: word)
    requires IsXor(t, reg, c)
    ensures IsXor(reg, t, c)
  {
  }

  lemma SameHigh(reg: word, t: word, b: byte, high: word)
    requires t == reg ^ b as word && high == (reg >> 8) & 0x00FFFFFF
    ensures high == (t >> 8) & 0x00FFFFFF
  {
  }

  lemma LookupIsShifts(t: word, high: word, i: byte)
    requires high == (t >> 8) & 0x00FFFFFF && i == (t & 0xFF) as byte
    ensures Shifts(t, 8) == Lookup(high, i)
  {
    EightIsLookup(t, high, i, Table(i), Lookup(high, i));
  }

  lemma ByteStepIsShifts(reg: word, b: byte)
    ensures ByteStep(reg, b) == Shifts(reg ^ b as word, 8)
  {
    SameHigh(reg, reg ^ b as word, b, (reg >> 8) & 0x00FFFFFF);
    LookupIsShifts(reg ^ b as word, (reg >> 8) & 0x00FFFFFF, ((reg ^ b as word) & 0x000000FF) as byte);
  }

  lemma ByteBitsAreShifts(reg: word, b: byte)
    ensures Divide(reg, LowBits(b as word, 8)) == Shifts(reg ^ b as word, 8)
  {
    hide Divide, Shifts, LowBits;
    ByteAbsorbed(reg, b, b as word, reg ^ b as word);
  }

  lemma ByteAbsorbed(reg: word, b: byte, c: word, t: word)
    requires c == b as word && IsXor(t, reg, c)
    ensures Divide(reg, LowBits(c, 8)) == Shifts(t, 8)
  {
    hide IsXor, Spells, Divide, Shifts, LowBits;
    XorBack(t, reg, c);
    ByteSpells(b);
    Absorb(reg, t, c, LowBits(c, 8));
  }

  /** One table look-up is eight steps of bit-serial division. */
  lemma ByteStepIsDivision(reg: word, b: byte)
    ensures ByteStep(reg, b) == Divide(reg, ByteBits(b))
  {
    ByteStepIsShifts(reg, b);
    ByteBitsAreShifts(reg, b);
  }

  lemma {:induction false} DivideAppend(reg: word, a: seq<bool>, b: seq<bool>)
    ensures Divide(reg, a + b) == Divide(Divide(reg, a), b)
    decreases |a|
  {
    if a == [] {
      assert a + b == b;
    } else {
      assert (a + b)[1..] == a[1..] + b;
      DivideAppend(BitStep(reg, a[0]), a[1..], b);
    }
  }

  /** For every byte sequence the table-driven loop is bit-at-a-time division. */
  lemma {:induction false} FoldIsDivision(reg: word, data: seq<byte>)
    ensures Fold(reg, data) == Divide(reg, Bits(data))
    decreases |data|
  {
    if data != [] {
      ByteStepIsDivision(reg, data[0]);
      DivideAppend(reg, ByteBits(data[0]), Bits(data[1..]));
      FoldIsDivision(ByteStep(reg, data[0]), data[1..]);
    }
  }

  /** The loop is a fold: the register carried over from a continues into b. */
  lemma {:induction false} FoldAppend(reg: word, a: seq<byte>, b: seq<byte>)
    ensures Fold(reg, a + b) == Fold(Fold(reg, a), b)
    decreases |a|
  {
    if a == [] {
      assert a + b == b;
    } else {
      assert (a + b)[1..] == a[1..] + b;
      FoldAppend(ByteStep(reg, a[0]), a[1..], b);
    }
  }

  // ------------------------------------------------------------- error detection

  lemma ShiftInjective(a: word, b: word)
    requires Shift(a) == Shift(b)
    ensures a == b
  {
  }

  lemma {:induction false} ShiftsInjective(a: word, b: word, n: nat)
    requires Shifts(a, n) == Shifts(b, n)
    ensures a == b
    decreases n
  {
    if n > 0 {
      ShiftsInjective(Shift(a), Shift(b), n - 1);
      ShiftInjective(a, b);
    }
  }

  lemma BitStepInjective(a: word, b: word, bit: bool)
    requires BitStep(a, bit) == BitStep(b, bit)
    ensures a == b
  {
    var a', b' := if bit then a ^ 1 else a, if bit then b ^ 1 else b;
    ShiftInjective(a', b');
  }

  /** Two registers that differ still differ after any common message. */
  lemma {:induction false} DivideInjective(a: word, b: word, bits: seq<bool>)
    requires Divide(a, bits) == Divide(b, bits)
    ensures a == b
    decreases |bits|
  {
    if bits != [] {
      DivideInjective(BitStep(a, bits[0]), BitStep(b, bits[0]), bits[1..]);
      BitStepInjective(a, b, bits[0]);
    }
  }

  function Dropped(bits: seq<bool>, n: nat): seq<bool> {
    if |bits| <= n then [] else bits[n..]
  }

  lemma HalfSpells(w: word, h: word, bits: seq<bool>)
    requires Spells(w, bits) && h == w >> 1
    ensures Spells(h, Dropped(bits, 1))
  {
    if bits == [] {
      ZeroHalf(w, h);
    } else if |bits| == 1 {
      assert bits[1..] == [];
    }
  }

  lemma ZeroHalf(w: word, h: word)
    requires w == 0 && h == w >> 1
    ensures h == 0
  {
  }

  /** Dropping n bits of the spelling is halving n times. */
  lemma {:induction false} HalvesSpell(w: word, bits: seq<bool>, n: nat)
    requires Spells(w, bits)
    ensures Spells(Halves(w, n), Dropped(bits, n))
    decreases n
  {
    if n > 0 {
      var h := HalfOf(w);
      HalfSpells(w, h, bits);
      HalvesSpell(h, Dropped(bits, 1), n - 1);
      assert Dropped(Dropped(bits, 1), n - 1) == Dropped(bits, n);
    } else {
      assert Dropped(bits, 0) == bits;
    }
  }

  /** A word spelt with at most 31 bits has its top bit clear. */
  lemma TopClear(w: word, bits: seq<bool>)
    requires Spells(w, bits) && |bits| <= 31
    ensures w & 0x80000000 == 0
  {
    HalvesSpell(w, bits, 31);
    var a := w >> 4;
    var b := a >> 4;
    var c := b >> 4;
    var d := c >> 4;
    var e := d >> 4;
    var f := e >> 4;
    HalvesEight(w, a, b, 31);
    HalvesEight(b, c, d, 23);
    HalvesEight(d, e, f, 15);
    HalvesSeven(f);
    TopFromHalves(w, a, b, c, d, e, f);
  }

  lemma HalvesSeven(f: word)
    requires Halves(f, 7) == 0
    ensures f >> 7 == 0
  {
    var g := f >> 4;
    HalvesFour(f, g, 7);
    var h := g >> 2;
    HalvesTwo(g, h, 3);
    assert Halves(h, 1) == Halves(h >> 1, 0) == h >> 1;
    SevenHalves(f, g, h);
  }

  lemma SevenHalves(f: word, g: word, h: word)
    requires g == f >> 4 && h == g >> 2 && h >> 1 == 0
    ensures f >> 7 == 0
  {
  }

  lemma TopFromHalves(w: word, a: word, b: word, c: word, d: word, e: word, f: word)
    requires a == w >> 4 && b == a >> 4 && c == b >> 4 && d == c >> 4 && e == d >> 4 && f == e >> 4 && f >> 7 == 0
    ensures w & 0x80000000 == 0
  {
  }

  lemma ShiftBack(w: word, v: word, bit: bool)
    requires w & 0x80000000 == 0 && v == (if bit then (w << 1) | 1 else w << 1)
    ensures v >> 1 == w && (v & 1 != 0) == bit
  {
    if bit {
      ShiftBackOdd(w, v);
    } else {
      ShiftBackEven(w, v);
    }
  }

  lemma ShiftBackOdd(w: word, v: word)
    requires w & 0x80000000 == 0 && v == (w << 1) | 1
    ensures v >> 1 == w && v & 1 == 1
  {
  }

  lemma ShiftBackEven(w: word, v: word)
    requires w & 0x80000000 == 0 && v == w << 1
    ensures v >> 1 == w && v & 1 == 0
  {
  }

  lemma PushBit(w: word, bit: bool) returns (v: word)
    requires w & 0x80000000 == 0
    ensures v >> 1 == w && (v & 1 != 0) == bit
  {
    v := if bit then (w << 1) | 1 else w << 1;
    ShiftBack(w, v, bit);
  }

  /** Every string of at most 32 bits is spelt by a word. */
  lemma {:induction false} Spelling(bits: seq<bool>) returns (w: word)
    requires |bits| <= 32
    ensures Spells(w, bits)
    decreases |bits|
  {
    if bits == [] {
      w := 0;
    } else {
      var rest := Spelling(bits[1..]);
      TopClear(rest, bits[1..]);
      w := PushBit(rest, bits[0]);
    }
  }

  lemma {:induction false} SpellsOnce(w: word, x: seq<bool>, y: seq<bool>)
    requires Spells(w, x) && Spells(w, y) && |x| == |y|
    ensures x == y
    decreases |x|
  {
    if x != [] {
      SpellsOnce(w >> 1, x[1..], y[1..]);
      assert x == [x[0]] + x[1..] && y == [y[0]] + y[1..];
    }
  }

  lemma XorCancels(r: word, x: word, y: word, t: word)
    requires IsXor(t, r, x) && IsXor(t, r, y)
    ensures x == y
  {
  }

  /** Two different windows of at most 32 bits leave different registers. */
  lemma WindowDiffers(reg: word, x: seq<bool>, y: seq<bool>)
    requires |x| == |y| <= 32 && Divide(reg, x) == Divide(reg, y)
    ensures x == y
  {
    var wx := Spelling(x);
    var wy := Spelling(y);
    hide Xor, IsXor, Spells, Divide, Shifts, LowBit, IsHalf;
    var tx, ty := Xor(reg, wx), Xor(reg, wy);
    XorBack(tx, reg, wx);
    XorBack(ty, reg, wy);
    Absorb(reg, tx, wx, x);
    Absorb(reg, ty, wy, y);
    ShiftsInjective(tx, ty, |x|);
    XorCancels(reg, wx, wy, tx);
    SpellsOnce(wx, x, y);
  }

  lemma BurstMovesRegister(reg: word, p: seq<bool>, x: seq<bool>, y: seq<bool>, q: seq<bool>)
    requires |x| == |y| <= 32 && Divide(reg, p + x + q) == Divide(reg, p + y + q)
    ensures x == y
  {
    DivideAppend(reg, p + x, q);
    DivideAppend(reg, p + y, q);
    DivideAppend(reg, p, x);
    DivideAppend(reg, p, y);
    var r := Divide(reg, p);
    DivideInjective(Divide(r, x), Divide(r, y), q);
    WindowDiffers(r, x, y);
  }

  lemma Reassociate(x: seq<bool>, y: seq<bool>, z: seq<bool>)
    ensures (x + y) + z == x + (y + z)
  {
  }

  lemma {:induction false} BitsAppend(a: seq<byte>, b: seq<byte>)
    ensures Bits(a + b) == Bits(a) + Bits(b)
    decreases |a|
  {
    if a == [] {
      assert a + b == b;
    } else {
      assert (a + b)[1..] == a[1..] + b && (a + b)[0] == a[0];
      BitsAppend(a[1..], b);
      Reassociate(ByteBits(a[0]), Bits(a[1..]), Bits(b));
    }
  }

  lemma LowBitsInjective(a: byte, b: byte)
    requires ByteBits(a) == ByteBits(b)
    ensures a == b
  {
    ByteSpells(a);
    ByteSpells(b);
    SpelledOnce(a as word, b as word, LowBits(a as word, 8));
    SameByte(a, b);
  }

  lemma SameByte(a: byte, b: byte)
    requires a as word == b as word
    ensures a == b
  {
  }

  lemma SameByHalves(v: word, w: word, v1: word, w1: word)
    requires (v & 1 != 0) == (w & 1 != 0) && v1 == v >> 1 && w1 == w >> 1 && v1 == w1
    ensures v == w
  {
  }

  lemma {:induction false} SpelledOnce(v: word, w: word, bits: seq<bool>)
    requires Spells(v, bits) && Spells(w, bits)
    ensures v == w
    decreases |bits|
  {
    if bits != [] {
      var v1 := HalfOf(v);
      var w1 := HalfOf(w);
      SpelledOnce(v1, w1, bits[1..]);
      SameByHalves(v, w, v1, w1);
    }
  }

  lemma {:induction false} BitsInjective(a: seq<byte>, b: seq<byte>)
    requires |a| == |b| && Bits(a) == Bits(b)
    ensures a == b
    decreases |a|
  {
    if a != [] {
      var x, y := ByteBits(a[0]), ByteBits(b[0]);
      assert Bits(a)[..8] == x && Bits(b)[..8] == y;
      assert Bits(a)[8..] == Bits(a[1..]) && Bits(b)[8..] == Bits(b[1..]);
      LowBitsInjective(a[0], b[0]);
      BitsInjective(a[1..], b[1..]);
    }
  }

  lemma ComplementTwice(x: word)
    ensures Complement(Complement(x)) == x
  {
    XorBack(Complement(x), x, ONES);
  }

  lemma SameCrc(a: seq<byte>, b: seq<byte>)
    ensures Crc(a) == Crc(b) <==> Fold(ONES, a) == Fold(ONES, b)
  {
    ComplementTwice(Fold(ONES, a));
    ComplementTwice(Fold(ONES, b));
  }

  lemma ZeroCrc(a: seq<byte>)
    ensures Crc(a) == 0 <==> Fold(ONES, a) == ONES
  {
    ComplementTwice(Fold(ONES, a));
    assert Complement(0) == ONES && Complement(ONES) == 0;
  }

  lemma CrcSeesWindow(a: seq<byte>, b: seq<byte>, p: seq<bool>, x: seq<bool>, y: seq<bool>, q: seq<bool>)
    requires |a| == |b| && |x| == |y| <= 32
    requires Bits(a) == p + x + q && Bits(b) == p + y + q
    requires Crc(a) == Crc(b)
    ensures a == b
  {
    SameCrc(a, b);
    FoldIsDivision(ONES, a);
    FoldIsDivision(ONES, b);
    BurstMovesRegister(ONES, p, x, y, q);
    BitsInjective(a, b);
  }

  lemma WindowOf(s: seq<bool>, t: seq<bool>, i: nat) returns (p: seq<bool>, x: seq<bool>, y: seq<bool>, q: seq<bool>)
    requires |s| == |t|
    requires forall k :: 0 <= k < |s| && !(i <= k < i + 32) ==> s[k] == t[k]
    ensures s == p + x + q && t == p + y + q && |x| == |y| <= 32
  {
    var lo, hi := if i < |s| then i else |s|, if i + 32 < |s| then i + 32 else |s|;
    p, x, y, q := s[..lo], s[lo..hi], t[lo..hi], s[hi..];
    assert p == t[..lo] && q == t[hi..];
  }

  /** Two messages of equal length that differ, but only inside some 32 consecutive bits,
      always have different CRCs. */
  lemma DetectsBurst(a: seq<byte>, b: seq<byte>, i: nat)
    requires |a| == |b| && a != b
    requires forall k :: 0 <= k < 8 * |a| && !(i <= k < i + 32) ==> Bits(a)[k] == Bits(b)[k]
    ensures Crc(a) != Crc(b)
  {
    var p, x, y, q := WindowOf(Bits(a), Bits(b), i);
    if Crc(a) == Crc(b) {
      CrcSeesWindow(a, b, p, x, y, q);
    }
  }

  /** In particular any change confined to four consecutive bytes is detected. */
  lemma DetectsFourBytes(p: seq<byte>, x: seq<byte>, y: seq<byte>, q: seq<byte>)
    requires |x| == |y| <= 4 && x != y
    ensures Crc(p + x + q) != Crc(p + y + q)
  {
    var a, b := p + x + q, p + y + q;
    assert a[|p|..|p| + |x|] == x && b[|p|..|p| + |y|] == y;
    BitsAppend(p + x, q);
    BitsAppend(p + y, q);
    BitsAppend(p, x);
    BitsAppend(p, y);
    if Crc(a) == Crc(b) {
      CrcSeesWindow(a, b, Bits(p), Bits(x), Bits(y), Bits(q));
    }
  }

  lemma {:induction false} FoldInjective(r: word, s: word, data: seq<byte>)
    requires Fold(r, data) == Fold(s, data)
    ensures r == s
  {
    FoldIsDivision(r, data);
    FoldIsDivision(s, data);
    DivideInjective(r, s, Bits(data));
  }

  /** Since crc32 ignores the value passed in, a second call on b gives the CRC of a followed
      by b exactly when the CRC of a is zero. */
  lemma ChainedCallIsConcatenation(a: seq<byte>, b: seq<byte>)
    ensures Crc(b) == Crc(a + b) <==> Crc(a) == 0
  {
    FoldAppend(ONES, a, b);
    SameCrc(b, a + b);
    ZeroCrc(a);
    if Crc(b) == Crc(a + b) {
      FoldInjective(ONES, Fold(ONES, a), b);
    }
  }

  // ------------------------------------------------------------- the residue

  lemma {:induction false} ShiftsAdd(reg: word, m: nat, n: nat)
    ensures Shifts(reg, m + n) == Shifts(Shifts(reg, m), n)
    decreases m
  {
    hide Shift;
    if m > 0 {
      ShiftsAdd(Shift(reg), m - 1, n);
    }
  }

  lemma EightOnes()
    ensures Eight(0xFFFFFFFF) == 0x2DFD1072 && Eight(0x2DFD1072) == 0xBE26ED00
    ensures Eight(0xBE26ED00) == 0x00BE26ED && Eight(0x00BE26ED) == 0xDEBB20E3
  {
  }

  lemma ThirtyTwoOnes()
    ensures Shifts(0xFFFFFFFF, 32) == 0xDEBB20E3
  {
    EightOnes();
    hide Eight, Shifts;
    EightIsShifts(0xFFFFFFFF);
    EightIsShifts(0x2DFD1072);
    EightIsShifts(0xBE26ED00);
    EightIsShifts(0x00BE26ED);
    ShiftsAdd(0xFFFFFFFF, 8, 24);
    ShiftsAdd(0x2DFD1072, 8, 16);
    ShiftsAdd(0xBE26ED00, 8, 8);
  }

  lemma AllGone(w: word, a: word, b: word, c: word, d: word, e: word, f: word, g: word, h: word)
    requires a == w >> 4 && b == a >> 4 && c == b >> 4 && d == c >> 4 && e == d >> 4 && f == e >> 4 && g == f >> 4 && h == g >> 4
    ensures h == 0
  {
  }

  lemma WordSpells(w: word)
    ensures Spells(w, LowBits(w, 32))
  {
    var a := w >> 4;
    var b := a >> 4;
    var c := b >> 4;
    var d := c >> 4;
    var e := d >> 4;
    var f := e >> 4;
    var g := f >> 4;
    var h := g >> 4;
    hide Spells, LowBits;
    HalvesEight(w, a, b, 32);
    HalvesEight(b, c, d, 24);
    HalvesEight(d, e, f, 16);
    HalvesEight(f, g, h, 8);
    AllGone(w, a, b, c, d, e, f, g, h);
    LowBitsSpell(w, 32);
  }

  lemma CrcXors(r: word, crc: word)
    requires crc == r ^ 0xFFFFFFFF
    ensures IsXor(r, 0xFFFFFFFF, crc)
  {
  }

  /** A message followed by its own CRC, lowest bit first, always has the same CRC. */
  lemma Residue(data: seq<byte>, tail: seq<byte>)
    requires Bits(tail) == LowBits(Crc(data), 32)
    ensures Crc(data + tail) == 0x2144DF1C
  {
    var r, crc := Fold(0xFFFFFFFF, data), Crc(data);
    CrcOf(data, r, crc);
    hide Fold, Bits, LowBits, Crc, IsXor;
    ResidueOf(r, crc, tail);
    FoldAppend(0xFFFFFFFF, data, tail);
    CrcOfResidue(data + tail);
  }

  lemma CrcOf(data: seq<byte>, r: word, crc: word)
    requires r == Fold(0xFFFFFFFF, data) && crc == Crc(data)
    ensures IsXor(r, 0xFFFFFFFF, crc)
  {
    hide Fold;
    CrcXors(r, crc);
  }

  lemma CrcOfResidue(data: seq<byte>)
    requires Fold(0xFFFFFFFF, data) == 0xDEBB20E3
    ensures Crc(data) == 0x2144DF1C
  {
    hide Fold;
  }

  lemma ResidueOf(r: word, crc: word, tail: seq<byte>)
    requires IsXor(r, 0xFFFFFFFF, crc) && Bits(tail) == LowBits(crc, 32)
    ensures Fold(r, tail) == 0xDEBB20E3
  {
    hide IsXor, Spells, LowBits, Shifts, Fold, Divide;
    WordSpells(crc);
    FoldIsDivision(r, tail);
    Absorb(r, 0xFFFFFFFF, crc, LowBits(crc, 32));
    ThirtyTwoOnes();
  }
}
