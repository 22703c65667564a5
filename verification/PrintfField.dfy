/** The integer fields of the tiny printf against section 7.21.6.1 of ISO C11: when the text is the
    standard's field, how long it is, and that it reads back to the value. */
module PrintfField {
  import opened PrintfSpec

  // ------------------------------------------------------------- sequences

  lemma ReverseConcat(a: string, b: string)
    ensures Reverse(a + b) == Reverse(b) + Reverse(a)
  {
  }

  lemma ReverseFill(c: char, n: nat)
    ensures Reverse(Fill(c, n)) == Fill(c, n)
  {
  }

  lemma ReverseShort(s: string)
    requires |s| <= 1
    ensures Reverse(s) == s
  {
  }

  // ------------------------------------------------------------- numerals

  function Pow(base: nat, n: nat): nat {
    if n == 0 then 1 else base * Pow(base, n - 1)
  }

  lemma MulMono(a: nat, b: nat, c: nat)
    requires b <= c
    ensures a * b <= a * c
  {
  }

  lemma QuotientBelow(v: nat, base: nat, bound: nat)
    requires base >= 2 && v < base * bound
    ensures Quot(v, base) < bound
  {
    QuotIs(v, base);
    var q := Quot(v, base);
    if bound <= q {
      MulMono(base, bound, q);
    }
  }

  lemma {:induction false} DigitCount(v: nat, base: nat, upper: bool, n: nat)
    requires 2 <= base <= 16 && n >= 1 && v < Pow(base, n)
    ensures |RevDigits(v, base, upper)| <= n
    decreases n
  {
    if Quot(v, base) != 0 {
      assert Pow(base, 1) == base * Pow(base, 0) == base;
      if n > 1 {
        QuotientBelow(v, base, Pow(base, n - 1));
        DigitCount(Quot(v, base), base, upper, n - 1);
      }
    }
  }

  lemma {:induction false} PowMono(a: nat, b: nat, n: nat)
    requires a <= b
    ensures Pow(a, n) <= Pow(b, n)
  {
    if n > 0 {
      PowMono(a, b, n - 1);
      MulMono(a, Pow(a, n - 1), Pow(b, n - 1));
      MulMono(Pow(b, n - 1), a, b);
    }
  }

  lemma PowEight()
    ensures Pow(8, 22) >= 0x1_0000_0000_0000_0000
  {
    assert Pow(8, 4) == 0x1000;
    PowStep(8, 4, 4, 0x1000, 0x1000);
    PowStep(8, 8, 8, 0x100_0000, 0x100_0000);
    PowStep(8, 16, 4, 0x1_0000_0000_0000, 0x1000);
    PowStep(8, 20, 2, 0x1000_0000_0000_0000, 64);
  }

  lemma {:induction false} PowStep(base: nat, m: nat, n: nat, p: nat, q: nat)
    requires Pow(base, m) == p && Pow(base, n) == q
    ensures Pow(base, m + n) == p * q
    decreases n
  {
    PowAdd(base, m, n);
  }

  lemma {:induction false} PowAdd(base: nat, m: nat, n: nat)
    ensures Pow(base, m + n) == Pow(base, m) * Pow(base, n)
    decreases n
  {
    if n > 0 {
      PowAdd(base, m, n - 1);
      MulSwap(Pow(base, m), base, Pow(base, n - 1));
    }
  }

  lemma MulSwap(a: nat, b: nat, c: nat)
    ensures b * (a * c) == a * (b * c)
  {
  }

  /** Every base from 8 on needs at most 22 digits for 64 bits. */
  lemma WideEnough(v: nat, base: nat, upper: bool)
    requires 8 <= base <= 16 && v < 0x1_0000_0000_0000_0000
    ensures |RevDigits(v, base, upper)| <= 22
  {
    PowEight();
    PowMono(8, base, 22);
    DigitCount(v, base, upper, 22);
  }

  /** The value of a digit character, in either case. */
  function DigitValue(c: char): nat {
    if '0' <= c <= '9' then (c - '0') as nat
    else if 'a' <= c <= 'f' then (c - 'a') as nat + 10
    else if 'A' <= c <= 'F' then (c - 'A') as nat + 10
    else 0
  }

  /** What a string of digits denotes. */
  function ReadBack(s: string, base: nat): nat {
    if s == [] then 0 else ReadBack(s[..|s| - 1], base) * base + DigitValue(s[|s| - 1])
  }

  lemma DigitReads(d: nat, upper: bool)
    requires d < 16
    ensures DigitValue(DigitChar(d, upper)) == d
    ensures d != 0 ==> DigitChar(d, upper) != '0'
    ensures DigitChar(d, upper) != ' '
  {
  }

  /** A numeral reads back to its value. */
  lemma {:induction false} NumeralReads(v: nat, base: nat, upper: bool)
    requires 2 <= base <= 16
    ensures ReadBack(Reverse(RevDigits(v, base, upper)), base) == v
    decreases v
  {
    var q, r := Quot(v, base), Rem(v, base);
    QuotIs(v, base);
    DigitReads(r, upper);
    if q == 0 {
      LastDigit([], DigitChar(r, upper), base);
      assert [DigitChar(r, upper)] + [] == [DigitChar(r, upper)];
    } else {
      NumeralReads(q, base, upper);
      LastDigit(RevDigits(q, base, upper), DigitChar(r, upper), base);
    }
  }

  lemma LastDigit(rest: string, c: char, base: nat)
    ensures ReadBack(Reverse([c] + rest), base) == ReadBack(Reverse(rest), base) * base + DigitValue(c)
  {
    var n := Reverse([c] + rest);
    ReverseConcat([c], rest);
    assert n == Reverse(rest) + [c];
    assert n[..|n| - 1] == Reverse(rest);
  }

  lemma {:induction false} LeadingZeros(n: nat, s: string, base: nat)
    ensures ReadBack(Fill('0', n) + s, base) == ReadBack(s, base)
    decreases n + |s|
  {
    var t := Fill('0', n) + s;
    if s != [] {
      assert t[..|t| - 1] == Fill('0', n) + s[..|s| - 1];
      LeadingZeros(n, s[..|s| - 1], base);
    } else if n > 0 {
      assert t[..|t| - 1] == Fill('0', n - 1) + [];
      LeadingZeros(n - 1, [], base);
    }
  }

  /** The numeral of a positive value does not start with a zero. */
  lemma {:induction false} LeadingDigit(v: nat, base: nat, upper: bool)
    requires 2 <= base <= 16 && v > 0
    ensures |RevDigits(v, base, upper)| > 0 && LastOf(RevDigits(v, base, upper)) != '0'
    decreases v
  {
    if Quot(v, base) == 0 {
      DigitReads(Rem(v, base), upper);
    } else {
      LeadingDigit(Quot(v, base), base, upper);
    }
  }

  function LastOf(s: string): char {
    if s == [] then ' ' else s[|s| - 1]
  }

  lemma {:induction false} NoBlanks(v: nat, base: nat, upper: bool)
    requires 2 <= base <= 16
    ensures ' ' !in RevDigits(v, base, upper)
    decreases v
  {
    DigitReads(Rem(v, base), upper);
    if Quot(v, base) > 0 {
      NoBlanks(Quot(v, base), base, upper);
    }
  }

  // ------------------------------------------------------------- the field

  /** The flags reach _ntoa_format in this form from every integer directive without '#'. */
  predicate IntegerFlags(prec: nat, f: Flags) {
    && !f.hash
    && (f.precision ==> !f.zeropad)
    && (!f.precision ==> prec == 0)
  }

  /** Where the code meets the standard, for a field of d digits and an s-character sign.  Its
      scratch buffer limits the zeros it can add and '-' keeps it from adding any; a space flag
      dropped for lack of room does not show when the padding supplies the space. */
  predicate Exact(d: nat, sign: string, prec: nat, width: nat, f: Flags) {
    if f.left then prec <= d
    else
      && (f.zeropad ==> width <= SCRATCH)
      && (|sign| + Max(d, prec) <= SCRATCH
          || (sign == " " && Max(d, prec) == SCRATCH && width > SCRATCH))
  }

  lemma ScratchIsDigits(value: nat, base: nat, f: Flags)
    requires 8 <= base <= 16 && value < 0x1_0000_0000_0000_0000
    ensures Scratch(value, base, f) == Digits(value, base, f) && |Digits(value, base, f)| <= 22
  {
    WideEnough(value, base, f.upper);
  }

  /** The code's text, over the digits alone. */
  function Text(digits: string, sign: string, prec: nat, width: nat, f: Flags): string
    requires |digits| <= SCRATCH && |sign| <= 1
  {
    var w := if !f.left && width > 0 && f.zeropad && |sign| == 1 then width - 1 else width;
    var p := Padded(digits, prec, w, f);
    OutRev(if |p| < SCRATCH then p + sign else p, w, f)
  }

  /** The standard's field, over the digits alone. */
  function Field(digits: string, sign: string, prec: nat, width: nat, f: Flags): string {
    IsoLayout(sign, IsoDigits(digits, prec), width, f)
  }

  lemma FormattedIsText(digits: string, negative: bool, base: nat, prec: nat, width: nat, f: Flags)
    requires |digits| <= SCRATCH && !f.hash
    ensures Formatted(digits, negative, base, prec, width, f) == Text(digits, SignOf(negative, f), prec, width, f)
  {
  }

  lemma ReadsAsText(value: nat, negative: bool, base: nat, prec: nat, width: nat, f: Flags)
    requires 2 <= base <= 16 && |Digits(value, base, f)| <= SCRATCH && !f.hash
    ensures IntegerText(value, negative, base, prec, width, f) ==
      Text(Digits(value, base, f), SignOf(negative, f), prec, width, f)
  {
    assert f.(hash := false) == f;
    FormattedIsText(Digits(value, base, f), negative, base, prec, width, f);
  }

  lemma LeftText(digits: string, sign: string, prec: nat, width: nat, f: Flags)
    requires f.left && |digits| + |sign| <= SCRATCH && |sign| <= 1
    ensures Text(digits, sign, prec, width, f) == sign + Reverse(digits) + Fill(' ', Minus(width, |sign| + |digits|))
  {
    ReverseConcat(digits, sign);
    ReverseShort(sign);
  }

  lemma PaddedDigits(digits: string, n: nat)
    requires |digits| <= SCRATCH
    ensures Reverse(PadTo(digits, n)) == Fill('0', Minus(if n < SCRATCH then n else SCRATCH, |digits|)) + Reverse(digits)
  {
    var m := Minus(if n < SCRATCH then n else SCRATCH, |digits|);
    ReverseConcat(digits, Fill('0', m));
    ReverseFill('0', m);
  }

  lemma ZeroText(digits: string, sign: string, width: nat, f: Flags)
    requires !f.left && f.zeropad && !f.precision && |digits| + |sign| <= SCRATCH && |sign| <= 1
    ensures |Text(digits, sign, 0, width, f)| <= SCRATCH
    ensures width <= SCRATCH ==> Text(digits, sign, 0, width, f) == Field(digits, sign, 0, width, f)
  {
    var w := if width > 0 && |sign| == 1 then width - 1 else width;
    ZeroScratch(digits, sign, w, f);
    ZeroField(digits, sign, width, f);
    assert PadTo(digits, 0) == digits;
  }

  lemma ZeroScratch(digits: string, sign: string, w: nat, f: Flags)
    requires !f.left && f.zeropad && |digits| + |sign| <= SCRATCH && |sign| <= 1
    ensures var p := PadTo(digits, w);
      && |if |p| < SCRATCH then p + sign else p| <= SCRATCH
      && (w + |sign| <= SCRATCH ==>
            OutRev(if |p| < SCRATCH then p + sign else p, w, f) == sign + (Fill('0', Minus(w, |digits|)) + Reverse(digits)))
  {
    var p := PadTo(digits, w);
    PaddedDigits(digits, w);
    ReverseConcat(p, sign);
    ReverseShort(sign);
    if |p| == SCRATCH && w + |sign| <= SCRATCH {
      assert sign == [];
    }
  }

  lemma ZeroField(digits: string, sign: string, width: nat, f: Flags)
    requires !f.left && f.zeropad && !f.precision
    ensures Field(digits, sign, 0, width, f) ==
      sign + (Fill('0', Minus(width, |sign| + |digits|)) + Reverse(digits))
  {
    assert IsoDigits(digits, 0) == Reverse(digits);
  }

  lemma PlainIs(digits: string, sign: string, prec: nat, width: nat, f: Flags)
    requires !f.left && !f.zeropad && |digits| + |sign| <= SCRATCH && |sign| <= 1
    requires |sign| + Max(|digits|, prec) <= SCRATCH
    ensures var p := PadTo(digits, prec);
      |p| == Max(|digits|, prec) &&
      Text(digits, sign, prec, width, f) == Fill(' ', Minus(width, |sign| + |p|)) + Reverse(p + sign)
  {
    hide Fill, Reverse;
    var p := PadTo(digits, prec);
    assert p + [] == p;
    var line := Fill(' ', Minus(width, |sign| + |p|)) + Reverse(p + sign);
    assert line + [] == line;
  }

  lemma PlainText(digits: string, sign: string, prec: nat, width: nat, f: Flags)
    requires !f.left && !f.zeropad && |digits| + |sign| <= SCRATCH && |sign| <= 1
    requires |sign| + Max(|digits|, prec) <= SCRATCH
    ensures Text(digits, sign, prec, width, f) == Field(digits, sign, prec, width, f)
  {
    hide Text, Fill, Reverse, PadTo;
    var p := PadTo(digits, prec);
    PlainIs(digits, sign, prec, width, f);
    PaddedDigits(digits, prec);
    ReverseConcat(p, sign);
    ReverseShort(sign);
    var body := IsoDigits(digits, prec);
    assert Reverse(p) == body;
    hide IsoDigits;
    Regroup(Fill(' ', Minus(width, |sign| + |body|)), sign, body);
  }

  lemma Regroup(a: string, b: string, c: string)
    ensures a + (b + c) == a + b + c
  {
  }

  /** A full scratch buffer drops the sign. */
  lemma FullText(digits: string, sign: string, prec: nat, width: nat, f: Flags)
    requires !f.left && !f.zeropad && |digits| + |sign| <= SCRATCH && |sign| <= 1 && prec >= SCRATCH
    ensures Text(digits, sign, prec, width, f) ==
      Fill(' ', Minus(width, SCRATCH)) + (Fill('0', SCRATCH - |digits|) + Reverse(digits))
  {
    PaddedDigits(digits, prec);
  }

  lemma BlankSign(digits: string, width: nat, f: Flags)
    requires !f.left && !f.zeropad && |digits| < SCRATCH && width > SCRATCH
    ensures Text(digits, " ", SCRATCH, width, f) == Field(digits, " ", SCRATCH, width, f)
  {
    FullText(digits, " ", SCRATCH, width, f);
    var body := Fill('0', SCRATCH - |digits|) + Reverse(digits);
    assert Fill(' ', width - SCRATCH) == Fill(' ', width - SCRATCH - 1) + " ";
    assert Fill(' ', width - SCRATCH - 1) + " " + body == Fill(' ', width - SCRATCH) + body;
  }

  /** Too many zeros asked for: the standard's field has a character other than a blank where the
      code has padding, or is longer. */
  lemma TooLong(digits: string, sign: string, prec: nat, width: nat, f: Flags)
    requires !f.left && !f.zeropad && |digits| + |sign| <= SCRATCH && |sign| <= 1
    requires |sign| + prec > SCRATCH && !(sign == " " && prec == SCRATCH && width > SCRATCH)
    ensures Text(digits, sign, prec, width, f) != Field(digits, sign, prec, width, f)
  {
    FullText(digits, sign, prec, width, f);
    var text, field := Text(digits, sign, prec, width, f), Field(digits, sign, prec, width, f);
    var gap := Minus(width, |sign| + prec);
    var body := Fill('0', prec - |digits|) + Reverse(digits);
    assert body == IsoDigits(digits, prec) && field == Fill(' ', gap) + sign + body;
    if width >= |sign| + prec {
      var k := width - SCRATCH - 1;
      assert text[k] == ' ';
      if prec == SCRATCH {
        assert k == gap && field[k] == sign[0];
        assert sign == [sign[0]];
      } else {
        assert field[k] == body[prec - SCRATCH - 1] == '0';
      }
    } else {
      assert |field| == |sign| + prec;
      assert |text| == Max(width, SCRATCH);
    }
  }

  lemma LeftDiffers(digits: string, sign: string, prec: nat, width: nat, f: Flags)
    requires f.left && |digits| + |sign| <= SCRATCH && |sign| <= 1 && prec > |digits|
    requires digits != [] ==> digits[|digits| - 1] != '0'
    ensures Text(digits, sign, prec, width, f) != Field(digits, sign, prec, width, f)
  {
    LeftText(digits, sign, prec, width, f);
    var text, field := Text(digits, sign, prec, width, f), Field(digits, sign, prec, width, f);
    var k := |sign|;
    assert field[k] == '0';
    if digits != [] {
      assert text[k] == Reverse(digits)[0] == digits[|digits| - 1];
    } else if k < |text| {
      assert text[k] == ' ';
    }
  }

  lemma TextIff(digits: string, sign: string, prec: nat, width: nat, f: Flags)
    requires |digits| + |sign| <= SCRATCH && |sign| <= 1 && IntegerFlags(prec, f)
    requires prec > |digits| && digits != [] ==> digits[|digits| - 1] != '0'
    ensures Text(digits, sign, prec, width, f) == Field(digits, sign, prec, width, f)
      <==> Exact(|digits|, sign, prec, width, f)
  {
    if f.left {
      if prec <= |digits| {
        LeftText(digits, sign, prec, width, f);
        assert Fill('0', 0) + Reverse(digits) == Reverse(digits);
      } else {
        LeftDiffers(digits, sign, prec, width, f);
      }
    } else if f.zeropad {
      ZeroText(digits, sign, width, f);
      assert |Field(digits, sign, 0, width, f)| >= width;
    } else if |sign| + Max(|digits|, prec) <= SCRATCH {
      PlainText(digits, sign, prec, width, f);
    } else if sign == " " && prec == SCRATCH && width > SCRATCH {
      BlankSign(digits, width, f);
    } else {
      TooLong(digits, sign, prec, width, f);
    }
  }

  /** For every value whose digits and sign the buffer holds, any width and precision and any flags
      but '#', the text is the standard's field exactly under `Exact`. */
  lemma FieldIsIsoIff(value: nat, negative: bool, base: nat, prec: nat, width: nat, f: Flags)
    requires 2 <= base <= 16 && |Digits(value, base, f)| + |SignOf(negative, f)| <= SCRATCH && IntegerFlags(prec, f)
    ensures IntegerText(value, negative, base, prec, width, f) == IsoField(value, negative, base, prec, width, f)
      <==> Exact(|Digits(value, base, f)|, SignOf(negative, f), prec, width, f)
  {
    var sign := SignOf(negative, f);
    var text, field, d := Named(value, negative, base, prec, width, f);
    TextIff(d, sign, prec, width, f);
  }

  /** So it is for every 64-bit value in base 8, 10 or 16. */
  lemma IntegerIsIsoIff(value: nat, negative: bool, base: nat, prec: nat, width: nat, f: Flags)
    requires 8 <= base <= 16 && value < 0x1_0000_0000_0000_0000 && IntegerFlags(prec, f)
    ensures IntegerText(value, negative, base, prec, width, f) == IsoField(value, negative, base, prec, width, f)
      <==> Exact(|Digits(value, base, f)|, SignOf(negative, f), prec, width, f)
  {
    hide IntegerText, IsoField, Exact;
    ScratchIsDigits(value, base, f);
    FieldIsIsoIff(value, negative, base, prec, width, f);
  }

  /** The two texts as functions of the digits, and what is needed of the digits. */
  lemma Named(value: nat, negative: bool, base: nat, prec: nat, width: nat, f: Flags)
    returns (text: string, field: string, d: string)
    requires 2 <= base <= 16 && |Digits(value, base, f)| <= SCRATCH && IntegerFlags(prec, f)
    ensures d == Digits(value, base, f)
    ensures prec > |d| && d != [] ==> d[|d| - 1] != '0'
    ensures text == IntegerText(value, negative, base, prec, width, f) && text == Text(d, SignOf(negative, f), prec, width, f)
    ensures field == IsoField(value, negative, base, prec, width, f) && field == Field(d, SignOf(negative, f), prec, width, f)
  {
    d := Digits(value, base, f);
    ReadsAsText(value, negative, base, prec, width, f);
    text := Text(d, SignOf(negative, f), prec, width, f);
    field := Field(d, SignOf(negative, f), prec, width, f);
    if value > 0 {
      LeadingDigit(value, base, f.upper);
    }
  }

  /** The standard's field has the length the standard gives it. */
  lemma LayoutLength(sign: string, digits: string, prec: nat, width: nat, f: Flags)
    ensures |IsoLayout(sign, IsoDigits(digits, prec), width, f)| == Max(width, |sign| + Max(|digits|, prec))
  {
  }

  lemma DigitsRead(value: nat, base: nat, f: Flags)
    requires 2 <= base <= 16
    ensures ReadBack(Reverse(Digits(value, base, f)), base) == value && ' ' !in Digits(value, base, f)
  {
    if f.precision && value == 0 {
      assert Reverse([]) == [];
    } else {
      NumeralReads(value, base, f.upper);
      NoBlanks(value, base, f.upper);
    }
  }

  lemma IsoDigitsRead(digits: string, prec: nat, base: nat)
    ensures ReadBack(IsoDigits(digits, prec), base) == ReadBack(Reverse(digits), base)
    ensures ' ' !in digits ==> ' ' !in IsoDigits(digits, prec)
  {
    LeadingZeros(Minus(prec, |digits|), Reverse(digits), base);
  }

  lemma LayoutReads(sign: string, body: string, width: nat, f: Flags, base: nat)
    returns (before: nat, digits: string, after: nat)
    requires ' ' !in body
    ensures IsoLayout(sign, body, width, f) == Fill(' ', before) + sign + digits + Fill(' ', after)
    ensures ReadBack(digits, base) == ReadBack(body, base) && ' ' !in digits
  {
    var gap := Minus(width, |sign| + |body|);
    if f.left {
      before, digits, after := 0, body, gap;
    } else if f.zeropad && !f.precision {
      before, digits, after := 0, Fill('0', gap) + body, 0;
      LeadingZeros(gap, body, base);
    } else {
      before, digits, after := gap, body, 0;
    }
  }

  /** Whenever `Exact` holds the text has length max(width, sign + max(digits, precision)), and
      reads back: between the blanks stand the sign and digits denoting the value. */
  lemma IntegerReads(value: nat, negative: bool, base: nat, prec: nat, width: nat, f: Flags)
    returns (before: nat, digits: string, after: nat)
    requires 8 <= base <= 16 && value < 0x1_0000_0000_0000_0000 && IntegerFlags(prec, f)
    requires Exact(|Digits(value, base, f)|, SignOf(negative, f), prec, width, f)
    ensures var text := IntegerText(value, negative, base, prec, width, f);
      && |text| == Max(width, |SignOf(negative, f)| + Max(|Digits(value, base, f)|, prec))
      && text == Fill(' ', before) + SignOf(negative, f) + digits + Fill(' ', after)
    ensures ReadBack(digits, base) == value && ' ' !in digits
  {
    IntegerIsIsoIff(value, negative, base, prec, width, f);
    var d, sign := Digits(value, base, f), SignOf(negative, f);
    LayoutLength(sign, d, prec, width, f);
    DigitsRead(value, base, f);
    IsoDigitsRead(d, prec, base);
    before, digits, after := LayoutReads(sign, IsoDigits(d, prec), width, f, base);
  }

  // ------------------------------------------------------------- pointers

  predicate UpperHex(s: string) {
    forall k :: 0 <= k < |s| ==> '0' <= s[k] <= '9' || 'A' <= s[k] <= 'F'
  }

  lemma {:induction false} HexNumeral(v: nat)
    ensures UpperHex(RevDigits(v, 16, true))
    decreases v
  {
    if Quot(v, 16) > 0 {
      HexNumeral(Quot(v, 16));
    }
  }

  lemma SixteenEnough(v: nat)
    requires v < 0x1_0000_0000_0000_0000
    ensures |RevDigits(v, 16, true)| <= 16
  {
    assert Pow(16, 4) == 0x1_0000;
    PowStep(16, 4, 4, 0x1_0000, 0x1_0000);
    PowStep(16, 8, 8, 0x1_0000_0000, 0x1_0000_0000);
    DigitCount(v, 16, true, 16);
  }

  lemma PlainPointer(d: string, prec: nat, f: Flags)
    requires f.zeropad && |d| <= 16 && UpperHex(d)
    ensures var text := Text(d, "", prec, 16, f);
      && (|text| == 16 && UpperHex(text) <==> if f.left then |d| == 16 else prec <= 16)
      && (|text| == 16 && UpperHex(text) ==> ReadBack(text, 16) == ReadBack(Reverse(d), 16))
  {
    hide ReadBack;
    if f.left {
      var text := Text(d, "", prec, 16, f);
      LeftText(d, "", prec, 16, f);
      assert text == Reverse(d) + Fill(' ', 16 - |d|);
      hide Text;
      assert |d| < 16 ==> text[15] == ' ';
      assert |d| == 16 ==> text == Reverse(d);
    } else {
      var n, m := PointerZeros(d, prec, f);
      hide Text;
      LeadingZeros(n, Fill('0', m) + Reverse(d), 16);
      LeadingZeros(m, Reverse(d), 16);
    }
  }

  /** Without '-', zeros up to the precision and then up to sixteen digits. */
  lemma PointerZeros(d: string, prec: nat, f: Flags) returns (n: nat, m: nat)
    requires f.zeropad && !f.left && |d| <= 16
    ensures Text(d, "", prec, 16, f) == Fill('0', n) + (Fill('0', m) + Reverse(d))
    ensures n + m + |d| == 16 <==> prec <= 16
  {
    var p := PadTo(d, prec);
    PaddedDigits(d, prec);
    PaddedDigits(p, 16);
    n, m := Minus(16, |p|), |p| - |d|;
    assert PadTo(p, 16) + "" == PadTo(p, 16);
  }

  /** A '#' or a sign either leaves its mark in the scratch buffer or finds it full. */
  lemma MarkedPointer(digits: string, prec: nat, f: Flags)
    requires f.zeropad && f.upper && |digits| <= SCRATCH && (f.hash || f.plus || f.space)
    ensures var text := Formatted(digits, false, 16, prec, 16, f); !(|text| == 16 && UpperHex(text))
  {
    var w := WidthLeft(16, false, f);
    var s := Hashed(Padded(digits, prec, w, f), 16, prec, w, f);
    if f.hash {
      HashedMark(Padded(digits, prec, w, f), prec, w, f);
    }
    hide Hashed, Padded;
    var t := WithSign(s, false, f);
    var k := if Signed(false, f) then |t| - 1 else |t| - 2;
    assert |t| < SCRATCH ==> 0 <= k && !('0' <= t[k] <= '9' || 'A' <= t[k] <= 'F');
    MarkShows(t, k, w, f);
  }

  lemma HashedMark(s: string, prec: nat, width: nat, f: Flags)
    requires f.hash && f.upper && |s| <= SCRATCH
    ensures var t := Hashed(s, 16, prec, width, f); |t| < SCRATCH ==> |t| >= 2 && t[|t| - 2] == 'X'
  {
  }

  /** A character that is no upper-case digit shows in the output, and so does a full buffer. */
  lemma MarkShows(t: string, k: int, w: nat, f: Flags)
    requires f.zeropad && |t| <= SCRATCH
    requires |t| < SCRATCH ==> 0 <= k < |t| && !('0' <= t[k] <= '9' || 'A' <= t[k] <= 'F')
    ensures var text := OutRev(t, w, f); !(|text| == 16 && UpperHex(text))
  {
    var text := OutRev(t, w, f);
    if |t| < SCRATCH {
      assert text[|t| - 1 - k] == Reverse(t)[|t| - 1 - k] == t[k];
    }
  }

  /** The text of %p is sixteen upper-case hexadecimal digits exactly when no sign is asked for, no
      '#' on anything but a null pointer, and either '-' meets a value that has sixteen digits
      already or the precision is at most sixteen.  It then denotes the address. */
  lemma PointerDigitsIff(v: nat, prec: nat, f0: Flags)
    requires v < 0x1_0000_0000_0000_0000
    ensures var f := f0.(zeropad := true, upper := true);
      var text := IntegerText(v, false, 16, prec, 16, f);
      && (|text| == 16 && UpperHex(text) <==>
            && !f0.plus && !f0.space && (f0.hash ==> v == 0)
            && (if f0.left then |Digits(v, 16, f)| == 16 else prec <= 16))
      && (|text| == 16 && UpperHex(text) ==> ReadBack(text, 16) == v)
  {
    var f := f0.(zeropad := true, upper := true);
    var g := if v == 0 then f.(hash := false) else f;
    var d := Digits(v, 16, g);
    HexNumeral(v);
    SixteenEnough(v);
    DigitsRead(v, 16, g);
    assert d == Digits(v, 16, f) && Scratch(v, 16, g) == d;
    if g.hash || g.plus || g.space {
      MarkedPointer(d, prec, g);
    } else {
      FormattedIsText(d, false, 16, prec, 16, g);
      PlainPointer(d, prec, g);
    }
  }
}
