/** The number printers of the boot library: spl/common/printf.c, which finds digits by repeated
    subtraction, and spl/common/console.c, which uses remainders.  Both print the numeral that the
    tiny printf of src/10.peripheral_timer/printf.c prints. */
module SplPrint {
  import opened PrintfSpec
  import PrintfField
  import PrintfParse

  /** The decimal text of a number. */
  function Decimal(n: int): string {
    (if n < 0 then "-" else "") + Numeral(PrintfParse.Magnitude(n), 10, false)
  }

  /** What is printed before `num` is split further: nothing until the first non-zero digit. */
  function Upper(q: nat, base: nat): string
    requires 2 <= base <= 16
  {
    if q == 0 then "" else Numeral(q, base, false)
  }

  // ------------------------------------------------------------- numerals, highest digit first

  lemma NumeralNext(q: nat, d: nat, base: nat)
    requires 2 <= base <= 16 && d < base && (q > 0 || d > 0)
    ensures Numeral(q * base + d, base, false) == Upper(q, base) + [DigitChar(d, false)]
  {
    hide DigitChar;
    var v := q * base + d;
    QuotIs(v, base);
    DivUnique(v, base, q, d);
    var c := DigitChar(d, false);
    if q == 0 {
      assert RevDigits(v, base, false) == [c];
      assert Reverse([c]) == [c];
    } else {
      assert RevDigits(v, base, false) == [c] + RevDigits(q, base, false);
      PrintfField.ReverseConcat([c], RevDigits(q, base, false));
    }
  }

  lemma ZeroNumeral(base: nat)
    requires 2 <= base <= 16
    ensures Numeral(0, base, false) == "0"
  {
    assert Quot(0, base) == 0 && Rem(0, base) == 0;
    assert RevDigits(0, base, false) == ['0'];
  }

  /** Moving one digit from the remainder to the quotient. */
  lemma Shift(orig: nat, q: nat, base: nat, unit: nat, num: nat, d: nat, rest: nat)
    requires orig == q * (base * unit) + num && num == d * unit + rest
    ensures orig == (q * base + d) * unit + rest
  {
    assert q * (base * unit) == (q * base) * unit;
    assert (q * base + d) * unit == (q * base) * unit + d * unit;
  }

  lemma DigitBelow(num: nat, base: nat, unit: nat, d: nat, rest: nat)
    requires num < base * unit && num == d * unit + rest && unit > 0
    ensures d < base
  {
    if d >= base {
      PrintfField.MulMono(unit, base, d);
    }
  }

  lemma DivExact(base: nat, unit: nat)
    requires base >= 2
    ensures (base * unit) / base == unit
  {
    DivUnique(base * unit, base, unit, 0);
  }

  lemma PowPositive(base: nat, n: nat)
    requires base >= 1
    ensures PrintfField.Pow(base, n) >= 1
  {
  }

  // ------------------------------------------------------------- spl/common/printf.c

  /** struct printf_info, with its 12-byte digit buffer and the characters given to putc. */
  class PrintfInfo {
    const buf: array<char>
    var bf: nat
    var zs: bool
    var console: string

    constructor (console: string)
      ensures fresh(buf) && buf.Length == 12 && bf == 0 && !zs && this.console == console
    {
      buf := new char[12];
      bf := 0;
      zs := false;
      this.console := console;
    }

    /** One character into the digit buffer. */
    method Out(c: char)
      requires bf < buf.Length
      modifies `bf, buf
      ensures bf == old(bf) + 1 && buf[..bf] == old(buf[..bf]) + [c]
    {
      buf[bf] := c;
      bf := bf + 1;
    }

    method OutDgt(dgt: nat)
      requires bf < buf.Length && dgt < 16
      modifies `bf, `zs, buf
      ensures zs && bf == old(bf) + 1 && buf[..bf] == old(buf[..bf]) + [DigitChar(dgt, false)]
    {
      Out(if dgt < 10 then '0' + dgt as char else 'a' + (dgt - 10) as char);
      zs := true;
    }

    /** Takes the highest digit off num0 by subtraction and prints it unless it is a leading zero. */
    method DivOut(num0: nat, div: nat) returns (num: nat, ghost digit: nat)
      requires bf < buf.Length && 0 < div && num0 < 16 * div
      modifies `bf, `zs, buf
      ensures num0 == digit * div + num && num < div && digit < 16
      ensures zs == (old(zs) || digit > 0) && bf <= old(bf) + 1
      ensures bf <= buf.Length && buf[..bf] == old(buf[..bf]) + if zs then [DigitChar(digit, false)] else []
    {
      var dgt: nat := 0;
      num := num0;
      while num >= div
        invariant num0 == dgt * div + num
        modifies {}
      {
        num := num - div;
        SplitOne(dgt, div);
        dgt := dgt + 1;
      }
      DigitBelow(num0, 16, div, dgt, num);
      digit := dgt;
      if zs || dgt > 0 {
        OutDgt(dgt);
      }
    }

    /** The division loop of a numeric case, from the power base^k on. */
    method PutNumber(num0: nat, div0: nat, base: nat, ghost k: nat)
      requires 2 <= base <= 16 && div0 == PrintfField.Pow(base, k) && 0 < num0 < PrintfField.Pow(base, k + 1)
      requires bf + k < buf.Length && !zs
      modifies `bf, `zs, buf
      ensures bf <= old(bf) + k + 1 && bf <= buf.Length
      ensures buf[..bf] == old(buf[..bf]) + Numeral(num0, base, false)
    {
      hide Numeral, DigitChar, PrintfField.Pow;
      var num: nat, div: nat := num0, div0;
      ghost var e: nat, q: nat := k + 1, 0;
      PowNext(base, k);
      while div > 0
        invariant e <= k + 1 && num < PrintfField.Pow(base, e) && num0 == q * PrintfField.Pow(base, e) + num
        invariant div == if e == 0 then 0 else PrintfField.Pow(base, e - 1)
        invariant bf + e <= old(bf) + k + 1 && bf <= buf.Length
        invariant (zs <==> q > 0) && (div == 0 <==> e == 0)
        invariant buf[..bf] == old(buf[..bf]) + Upper(q, base)
        decreases e
      {
        ghost var was, d := num, 0;
        UnitFits(base, e, num);
        num, d := DivOut(num, div);
        q := NextDigit(num0, q, base, e, was, d, num);
        e := e - 1;
        NextDiv(base, e);
        div := div / base;
      }
      AllDone(num0, q, num, base);
    }

    /** The cases 'u', 'd' and 'x' of _vprintf without 'l', with the padding loop after them. */
    method PrintNumber(ch: char, v: int, width: nat, lz: bool)
      requires ch == 'u' || ch == 'd' || ch == 'x'
      requires if ch == 'd' then -0x8000_0000 < v < 0x8000_0000 else 0 <= v < 0x1_0000_0000
      requires buf.Length == 12
      modifies this, buf
      ensures var text := if ch == 'x' then Numeral(v, 16, false) else Decimal(v);
        console == old(console) + Fill(if lz then '0' else ' ', Minus(width, |text|)) + text
    {
      hide Numeral, Fill, PrintfField.Pow;
      bf, zs := 0, false;
      ghost var text := if ch == 'x' then Numeral(v, 16, false) else Decimal(v);
      PutAll(ch, v);
      assert buf[..bf] == text;
      Emit(bf, width, lz);
    }

    /** The digits of the number in the buffer, with a minus sign for a negative one. */
    method PutAll(ch: char, v: int)
      requires ch == 'u' || ch == 'd' || ch == 'x'
      requires if ch == 'd' then -0x8000_0000 < v < 0x8000_0000 else 0 <= v < 0x1_0000_0000
      requires buf.Length == 12 && bf == 0 && !zs
      modifies `bf, `zs, buf
      ensures bf < buf.Length && buf[..bf] == if ch == 'x' then Numeral(v, 16, false) else Decimal(v)
    {
      hide Numeral, PrintfField.Pow, DigitChar;
      var num: int := v;
      assert buf[..bf] == "";
      if ch == 'd' && num < 0 {
        num := -num;
        Out('-');
      }
      if num == 0 {
        ZeroNumeral(10);
        ZeroNumeral(16);
        ZeroDigit();
        OutDgt(0);
      } else if ch == 'x' {
        PowSixteen();
        PutNumber(num, 0x1000_0000, 16, 7);
      } else {
        PowTen();
        PutNumber(num, 1000000000, 10, 9);
      }
    }

    /** Padding on the left up to the width, then the digits. */
    method Emit(len: nat, width0: nat, lz: bool)
      requires len < buf.Length
      modifies `console
      ensures console == old(console) + Fill(if lz then '0' else ' ', Minus(width0, len)) + buf[..len]
    {
      hide Fill;
      ghost var c := if lz then '0' else ' ';
      var i, width: int := 0, width0;
      while i < len && width > 0
        invariant 0 <= i <= len && width == width0 - i >= 0
        modifies {}
      {
        i, width := i + 1, width - 1;
      }
      ghost var gap: int := width;
      assert gap == Minus(width0, len);
      ghost var was := console;
      FillNext(c, 0);
      while width > 0
        invariant 0 <= width <= gap
        invariant console == was + Fill(c, gap - width)
      {
        FillNext(c, gap - width);
        width := width - 1;
        console := console + [if lz then '0' else ' '];
      }
      var p := 0;
      while p < len
        invariant 0 <= p <= len && console == was + Fill(c, gap) + buf[..p]
      {
        console := console + [buf[p]];
        p := p + 1;
      }
    }
  }

  lemma ZeroDigit()
    ensures DigitChar(0, false) == '0'
  {
  }

  lemma SplitOne(d: nat, div: nat)
    ensures (d + 1) * div == d * div + div
  {
  }

  lemma PowNext(base: nat, n: nat)
    requires base >= 1
    ensures PrintfField.Pow(base, n + 1) == base * PrintfField.Pow(base, n)
    ensures PrintfField.Pow(base, n) >= 1 && PrintfField.Pow(base, 0) == 1
  {
    PowPositive(base, n);
  }

  lemma UnitFits(base: nat, e: nat, num: nat)
    requires 2 <= base <= 16 && e > 0 && num < PrintfField.Pow(base, e)
    ensures num < 16 * PrintfField.Pow(base, e - 1)
  {
    PowNext(base, e - 1);
    BaseMono(base, PrintfField.Pow(base, e - 1));
  }

  /** A digit taken off the remainder becomes the last digit of what is printed. */
  lemma NextDigit(orig: nat, q: nat, base: nat, e: nat, was: nat, d: nat, rest: nat) returns (next: nat)
    requires 2 <= base <= 16 && e > 0 && was < PrintfField.Pow(base, e)
    requires orig == q * PrintfField.Pow(base, e) + was && was == d * PrintfField.Pow(base, e - 1) + rest
    requires d < 16
    ensures orig == next * PrintfField.Pow(base, e - 1) + rest
    ensures next > 0 <==> q > 0 || d > 0
    ensures Upper(next, base) == Upper(q, base) + if next > 0 then [DigitChar(d, false)] else []
  {
    hide Numeral, DigitChar;
    var unit := PrintfField.Pow(base, e - 1);
    PowNext(base, e - 1);
    DigitBelow(was, base, unit, d, rest);
    Shift(orig, q, base, unit, was, d, rest);
    NextPositive(q, base, d);
    next := q * base + d;
    if next > 0 {
      NumeralNext(q, d, base);
    }
  }

  lemma NextDiv(base: nat, e: nat)
    requires base >= 2
    ensures PrintfField.Pow(base, e) / base == if e == 0 then 0 else PrintfField.Pow(base, e - 1)
    ensures PrintfField.Pow(base, e) / base == 0 <==> e == 0
  {
    if e > 0 {
      PowPositive(base, e - 1);
      DivExact(base, PrintfField.Pow(base, e - 1));
    } else {
      DivUnique(1, base, 0, 1);
    }
  }

  lemma BaseMono(base: nat, unit: nat)
    requires base <= 16
    ensures base * unit <= 16 * unit
  {
  }

  lemma NextPositive(q: nat, base: nat, d: nat)
    requires base >= 2
    ensures q * base + d > 0 <==> q > 0 || d > 0
  {
    if q > 0 {
      PrintfField.MulMono(base, 1, q);
    }
  }

  lemma AllDone(orig: nat, q: nat, num: nat, base: nat)
    requires num < PrintfField.Pow(base, 0) && orig == q * PrintfField.Pow(base, 0) + num
    ensures q == orig
  {
  }

  lemma PowTen()
    ensures PrintfField.Pow(10, 9) == 1000000000 && PrintfField.Pow(10, 10) == 10000000000
  {
    assert PrintfField.Pow(10, 3) == 1000;
    assert PrintfField.Pow(10, 6) == 1000000;
    assert PrintfField.Pow(10, 9) == 1000000000;
  }

  lemma PowSixteen()
    ensures PrintfField.Pow(16, 7) == 0x1000_0000 && PrintfField.Pow(16, 8) == 0x1_0000_0000
  {
    assert PrintfField.Pow(16, 4) == 0x1_0000;
  }

  // ------------------------------------------------------------- spl/common/console.c

  /** int_to_string_dec: digits by remainder into `stack`, then reversed into `str`. */
  method IntToStringDec(input0: int, str: array<char>)
    requires -0x8000_0000 < input0 < 0x8000_0000 && str.Length >= 12
    modifies str
    ensures var text := Decimal(input0);
      |text| < 12 && str[..|text| + 1] == text + ['\0'] && str[|text| + 1..] == old(str[..])[|text| + 1..]
  {
    hide RevDigits, DigitChar, PrintfField.Pow;
    var input := input0;
    ghost var orig := str[..];
    if input == 0 {
      str[0] := '0';
      str[1] := '\0';
      ZeroNumeral(10);
      assert Decimal(0) == "0";
      assert str[2..] == orig[2..];
      return;
    }
    var negative := false;
    if input < 0 {
      negative := true;
      input := -input;
    }
    var stack := new char[12];
    var i := PushDigits(input, stack);
    var j := 0;
    if negative {
      str[j] := '-';
      j := j + 1;
    }
    ghost var sign: string := if negative then "-" else "";
    assert str[..j] == sign && str[j..] == orig[j..];
    j := PopDigits(stack, i, str, j);
    ghost var text := sign + Reverse(stack[..i]);
    assert str[..j] == text && str[j..] == orig[j..];
    str[j] := '\0';
    assert str[..j] == text && str[j + 1..] == orig[j..][1..] == orig[j + 1..];
    assert Decimal(input0) == text;
  }

  /** The digits onto the stack array, lowest first. */
  method PushDigits(input0: nat, stack: array<char>) returns (i: nat)
    requires 0 < input0 < 0x8000_0000 && stack.Length == 12
    modifies stack
    ensures i <= 10 && stack[..i] == RevDigits(input0, 10, false)
  {
    hide RevDigits, DigitChar, PrintfField.Pow;
    ghost var s := RevDigits(input0, 10, false);
    PowTen();
    PrintfField.DigitCount(input0, 10, false, 10);
    var input: nat := input0;
    i := 0;
    while input > 0
      invariant 0 <= i <= |s| <= 10 && stack[..i] == s[..i]
      invariant if input > 0 then RevDigits(input, 10, false) == s[i..] else i == |s|
    {
      FirstDigit(input);
      ghost var rest := s[i..];
      assert s[i] == rest[0] && s[i + 1..] == rest[1..];
      stack[i] := '0' + (input % 10) as char;
      input := input / 10;
      i := i + 1;
      assert stack[..i] == stack[..i - 1] + [s[i - 1]] == s[..i];
    }
  }

  lemma FirstDigit(v: nat)
    ensures var s := RevDigits(v, 10, false);
      && |s| > 0 && s[0] == '0' + (v % 10) as char
      && (if v / 10 == 0 then |s| == 1 else s[1..] == RevDigits(v / 10, 10, false))
  {
    QuotIs(v, 10);
  }

  /** The digits off the stack array into the string, highest first. */
  method PopDigits(stack: array<char>, n: nat, str: array<char>, j0: nat) returns (j: nat)
    requires n <= stack.Length && j0 + n <= str.Length && stack != str
    modifies str
    ensures j == j0 + n && str[..j] == old(str[..j0]) + Reverse(stack[..n]) && str[j..] == old(str[j..])
  {
    ghost var r := Reverse(stack[..n]);
    j := j0;
    var i: int := n - 1;
    while i >= 0
      invariant -1 <= i < n && j == j0 + (n - 1 - i)
      invariant str[..j] == old(str[..j0]) + r[..j - j0] && str[j..] == old(str[..])[j..]
    {
      ghost var tail := str[j..];
      str[j] := stack[i];
      assert r[j - j0] == stack[i];
      i, j := i - 1, j + 1;
      assert str[..j] == str[..j - 1] + [r[j - 1 - j0]];
      assert str[j..] == tail[1..] == old(str[..])[j..];
    }
  }

  /** The n lowest hexadecimal digits of a number in two's complement. */
  function LowHex(v: int, n: nat): (s: string)
    ensures |s| == n
    decreases n
  {
    if n == 0 then "" else LowHex(v / 0x10, n - 1) + [DigitChar(v % 0x10, false)]
  }

  /** int_to_string_hex; input >>= 4 is an arithmetic shift. */
  method IntToStringHex(input0: int, str: array<char>)
    requires str.Length >= 9
    modifies str
    ensures str[..9] == LowHex(input0, 8) + ['\0'] && str[9..] == old(str[9..])
  {
    hide DigitChar;
    var input, i: int := input0, 7;
    while i >= 0
      invariant -1 <= i <= 7
      invariant LowHex(input, i + 1) + str[i + 1..8] == LowHex(input0, 8)
      invariant str[8..] == old(str[8..])
    {
      HexStep(input, i + 1);
      ghost var tail := str[i + 1..8];
      str[i] := HexChar(input % 0x10);
      input := input / 0x10;
      assert str[i..8] == [str[i]] + tail;
      i := i - 1;
    }
    assert str[..8] == LowHex(input0, 8);
    str[8] := '\0';
  }

  /** The look-up of the low four bits in the digit table. */
  function HexChar(d: nat): (c: char)
    requires d < 16
    ensures c == DigitChar(d, false)
  {
    "0123456789abcdef"[d]
  }

  lemma HexStep(v: int, n: nat)
    requires n > 0
    ensures LowHex(v, n) == LowHex(v / 0x10, n - 1) + [DigitChar(v % 0x10, false)]
  {
  }

  // ------------------------------------------------------------- agreement

  lemma {:induction false} LowHexWraps(v: int, m: int, n: nat)
    ensures LowHex(v + m * PrintfField.Pow(16, n), n) == LowHex(v, n)
    decreases n
  {
    if n > 0 {
      var w := m * PrintfField.Pow(16, n - 1);
      assert m * PrintfField.Pow(16, n) == 16 * w;
      SixteenMore(v, w);
      LowHexWraps(v / 0x10, m, n - 1);
    }
  }

  lemma SixteenMore(v: int, w: int)
    ensures (v + 16 * w) / 0x10 == v / 0x10 + w && (v + 16 * w) % 0x10 == v % 0x10
  {
  }

  lemma {:induction false} LowHexIsNumeral(u: nat, n: nat)
    requires n >= 1 && u < PrintfField.Pow(16, n)
    ensures |Numeral(u, 16, false)| <= n
    ensures LowHex(u, n) == Fill('0', Minus(n, |Numeral(u, 16, false)|)) + Numeral(u, 16, false)
    decreases n
  {
    hide DigitChar, RevDigits;
    QuotIs(u, 16);
    var q, d := u / 16, u % 16;
    if n == 1 {
      assert PrintfField.Pow(16, 1) == 16 * PrintfField.Pow(16, 0) == 16;
      OneHexDigit(u);
      assert LowHex(u / 0x10, 0) == "";
      assert LowHex(u, 1) == [DigitChar(u, false)];
    } else {
      assert q < PrintfField.Pow(16, n - 1);
      LowHexIsNumeral(q, n - 1);
      HexDigitAfter(q, d, n);
    }
  }

  lemma OneHexDigit(u: nat)
    requires u < 16
    ensures Numeral(u, 16, false) == [DigitChar(u, false)]
  {
    if u == 0 {
      ZeroNumeral(16);
    } else {
      NumeralNext(0, u, 16);
    }
  }

  lemma HexDigitAfter(q: nat, d: nat, n: nat)
    requires n >= 2 && d < 16 && |Numeral(q, 16, false)| <= n - 1
    ensures var u := q * 16 + d;
      && |Numeral(u, 16, false)| <= n
      && Fill('0', Minus(n - 1, |Numeral(q, 16, false)|)) + Numeral(q, 16, false) + [DigitChar(d, false)]
         == Fill('0', Minus(n, |Numeral(u, 16, false)|)) + Numeral(u, 16, false)
  {
    hide DigitChar, RevDigits;
    if q == 0 {
      ZeroNumeral(16);
      OneHexDigit(d);
      assert Fill('0', n - 2) + "0" == Fill('0', n - 1);
    } else {
      NumeralNext(q, d, 16);
    }
  }

  /** int_to_string_hex prints any int as the SPL printf prints %08x of the same 32 bits. */
  lemma HexAgree(v: int)
    ensures var u := v % 0x1_0000_0000;
      LowHex(v, 8) == Fill('0', Minus(8, |Numeral(u, 16, false)|)) + Numeral(u, 16, false)
  {
    hide Numeral, LowHex, PrintfField.Pow;
    PowSixteen();
    var u := v % 0x1_0000_0000;
    LowHexWraps(u, v / 0x1_0000_0000, 8);
    assert v == u + (v / 0x1_0000_0000) * 0x1_0000_0000;
    LowHexIsNumeral(u, 8);
  }

  /** The tiny printf's plain decimal text of a number is the one both SPL printers produce, and it
      has at most 11 characters, so that with its NUL it fits a 12-byte buffer. */
  lemma DecimalsAgree(n: int)
    requires -0x8000_0000 < n < 0x8000_0000
    ensures IntegerText(PrintfParse.Magnitude(n), n < 0, 10, 0, 0, NO_FLAGS) == Decimal(n)
    ensures 1 <= |Decimal(n)| <= 11
  {
    var m := PrintfParse.Magnitude(n);
    PowTen();
    PrintfField.DigitCount(m, 10, false, 10);
    PrintfField.ScratchIsDigits(m, 10, NO_FLAGS);
    var text, field, d := PrintfField.Named(m, n < 0, 10, 0, 0, NO_FLAGS);
    PrintfField.TextIff(d, SignOf(n < 0, NO_FLAGS), 0, 0, NO_FLAGS);
    SignedField(d, SignOf(n < 0, NO_FLAGS));
  }

  lemma SignedField(d: string, sign: string)
    ensures PrintfField.Field(d, sign, 0, 0, NO_FLAGS) == sign + Reverse(d)
  {
    assert IsoDigits(d, 0) == Reverse(d);
  }

  /** The SPL printf pads in front of the sign, so its decimal field is the standard's exactly
      unless zeros are asked for, the number is negative and the width leaves room for them. */
  lemma PaddedDecimalIsIsoIff(n: int, width: nat, lz: bool)
    requires -0x8000_0000 < n < 0x8000_0000
    ensures var spl := Fill(if lz then '0' else ' ', Minus(width, |Decimal(n)|)) + Decimal(n);
      var iso := IsoField(PrintfParse.Magnitude(n), n < 0, 10, 0, width, NO_FLAGS.(zeropad := lz));
      (spl == iso) == !(lz && n < 0 && width > |Decimal(n)|)
  {
    hide RevDigits, Fill;
    var d := RevDigits(PrintfParse.Magnitude(n), 10, false);
    assert Decimal(n) == (if n < 0 then "-" else "") + Reverse(d);
    PaddedIff(d, if n < 0 then "-" else "", width, lz);
  }

  lemma PaddedIff(d: string, sign: string, width: nat, lz: bool)
    requires sign == "" || sign == "-"
    ensures var gap := Minus(width, |sign| + |d|);
      (Fill(if lz then '0' else ' ', gap) + (sign + Reverse(d))
       == IsoLayout(sign, IsoDigits(d, 0), width, NO_FLAGS.(zeropad := lz))) == !(lz && sign == "-" && gap > 0)
  {
    var gap := Minus(width, |sign| + |d|);
    assert IsoDigits(d, 0) == Reverse(d);
    if lz {
      ZerosOrSign(gap, sign, Reverse(d));
    } else {
      assert Fill(' ', gap) + (sign + Reverse(d)) == Fill(' ', gap) + sign + Reverse(d);
    }
  }

  lemma ZerosOrSign(gap: nat, sign: string, digits: string)
    requires sign == "" || sign == "-"
    ensures Fill('0', gap) + (sign + digits) == sign + Fill('0', gap) + digits <==> !(sign == "-" && gap > 0)
  {
    var a, b := Fill('0', gap) + (sign + digits), sign + Fill('0', gap) + digits;
    if sign == "-" && gap > 0 {
      assert a[0] == '0' && b[0] == '-';
    } else {
      assert a == b;
    }
  }
}
