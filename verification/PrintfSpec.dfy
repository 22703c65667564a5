/** The text that src/10.peripheral_timer/printf.c produces for each directive, as functions that
    follow the code, and the fields of section 7.21.6.1 of ISO C11 they are compared with. */
module PrintfSpec {

  /** PRINTF_NTOA_BUFFER_SIZE */
  const SCRATCH: nat := 32

  /** The bits of the `flags` word. */
  datatype Flags = Flags(
    zeropad: bool, left: bool, plus: bool, space: bool, hash: bool, upper: bool,
    chr: bool, short: bool, long: bool, longlong: bool, precision: bool)

  const NO_FLAGS: Flags :=
    Flags(false, false, false, false, false, false, false, false, false, false, false)

  function Minus(a: nat, b: nat): nat {
    if a > b then a - b else 0
  }

  function Max(a: nat, b: nat): nat {
    if a > b then a else b
  }

  function Fill(c: char, n: nat): (s: string)
    ensures |s| == n && forall k :: 0 <= k < n ==> s[k] == c
  {
    seq(n, _ => c)
  }

  lemma FillNext(c: char, n: nat)
    ensures Fill(c, n) + [c] == Fill(c, n + 1) && Fill(c, 0) == ""
  {
  }

  function Reverse(s: string): (r: string)
    ensures |r| == |s| && forall k :: 0 <= k < |s| ==> r[k] == s[|s| - 1 - k]
  {
    seq(|s|, k requires 0 <= k < |s| => s[|s| - 1 - k])
  }

  // ------------------------------------------------------------- numerals

  function DigitChar(d: nat, upper: bool): char
    requires d < 16
  {
    if d < 10 then '0' + d as char else (if upper then 'A' else 'a') + (d - 10) as char
  }

  /** Division by repeated subtraction; QuotIs says that it is division. */
  function Quot(v: nat, base: nat): (q: nat)
    requires base >= 2
    ensures q <= v && (v > 0 ==> q < v)
    decreases v
  {
    if v < base then 0 else 1 + Quot(v - base, base)
  }

  function Rem(v: nat, base: nat): (r: nat)
    requires base >= 2
    ensures r < base
    decreases v
  {
    if v < base then v else Rem(v - base, base)
  }

  lemma {:induction false} QuotIs(v: nat, base: nat)
    requires base >= 2
    ensures Quot(v, base) == v / base && Rem(v, base) == v % base
    ensures v == Quot(v, base) * base + Rem(v, base)
    decreases v
  {
    if v >= base {
      QuotIs(v - base, base);
      MulNext(Quot(v - base, base), base);
    }
    DivUnique(v, base, Quot(v, base), Rem(v, base));
  }

  lemma MulNext(q: nat, base: nat)
    ensures (1 + q) * base == base + q * base
  {
  }

  lemma DivUnique(v: nat, base: nat, q: nat, r: nat)
    requires r < base && v == q * base + r
    ensures v / base == q && v % base == r
  {
    var d: int := v / base - q;
    assert d * base == r - v % base by {
      assert v == base * (v / base) + v % base;
      Distribute(v / base, q, base);
    }
    NoMultiple(d, base, r - v % base);
  }

  lemma Distribute(a: int, b: int, c: int)
    ensures (a - b) * c == c * a - b * c
  {
  }

  lemma NoMultiple(d: int, base: int, e: int)
    requires base > 0 && d * base == e && -base < e < base
    ensures d == 0
  {
    MulSign(d - 1, base);
    MulSign(-d - 1, base);
    assert (d - 1) * base == d * base - base;
    assert (-d - 1) * base == -(d * base) - base;
  }

  lemma MulSign(a: int, b: int)
    requires b > 0
    ensures a >= 0 ==> a * b >= 0
  {
  }

  /** The digits of a value, lowest first, as the conversion loop stores them. */
  function RevDigits(value: nat, base: nat, upper: bool): (s: string)
    requires 2 <= base <= 16
    ensures |s| >= 1
    decreases value
  {
    [DigitChar(Rem(value, base), upper)]
    + (if Quot(value, base) == 0 then [] else RevDigits(Quot(value, base), base, upper))
  }

  /** The numeral of a value, highest digit first. */
  function Numeral(value: nat, base: nat, upper: bool): string
    requires 2 <= base <= 16
  {
    Reverse(RevDigits(value, base, upper))
  }

  // ------------------------------------------------------------- what the code computes

  /** The digits of a value, lowest first: none for a zero with a precision. */
  function Digits(value: nat, base: nat, f: Flags): string
    requires 2 <= base <= 16
  {
    if f.precision && value == 0 then [] else RevDigits(value, base, f.upper)
  }

  /** The digits left in the scratch buffer by _ntoa_long: none for a zero with a precision. */
  function Scratch(value: nat, base: nat, f: Flags): (s: string)
    requires 2 <= base <= 16
    ensures |s| <= SCRATCH
  {
    var s := Digits(value, base, f);
    if |s| <= SCRATCH then s else s[..SCRATCH]
  }

  /** Leading zeros, up to n characters or a full scratch buffer. */
  function PadTo(s: string, n: nat): (r: string)
    requires |s| <= SCRATCH
    ensures |s| <= |r| <= SCRATCH
  {
    s + Fill('0', Minus(if n < SCRATCH then n else SCRATCH, |s|))
  }

  predicate Signed(negative: bool, f: Flags) {
    negative || f.plus || f.space
  }

  function WidthLeft(width: nat, negative: bool, f: Flags): nat {
    if !f.left && width > 0 && f.zeropad && Signed(negative, f) then width - 1 else width
  }

  function Padded(s: string, prec: nat, width: nat, f: Flags): (r: string)
    requires |s| <= SCRATCH
    ensures |r| <= SCRATCH
  {
    if f.left then s
    else if f.zeropad then PadTo(PadTo(s, prec), width)
    else PadTo(s, prec)
  }

  function Append(s: string, c: char): (r: string)
    requires |s| <= SCRATCH
    ensures |r| <= SCRATCH
  {
    if |s| < SCRATCH then s + [c] else s
  }

  /** The '#' prefix, over padding zeros that are dropped to make room for it. */
  function Hashed(s: string, base: nat, prec: nat, width: nat, f: Flags): (r: string)
    requires |s| <= SCRATCH
    ensures |r| <= SCRATCH
  {
    if !f.hash then s else
      var t := if !f.precision && |s| > 0 && (|s| == prec || |s| == width)
               then s[..Minus(|s|, if base == 16 then 2 else 1)] else s;
      var u := if base == 16 then Append(t, if f.upper then 'X' else 'x')
               else if base == 2 then Append(t, 'b') else t;
      Append(u, '0')
  }

  function SignOf(negative: bool, f: Flags): (s: string)
    ensures |s| == if Signed(negative, f) then 1 else 0
  {
    if negative then "-" else if f.plus then "+" else if f.space then " " else ""
  }

  function WithSign(s: string, negative: bool, f: Flags): (r: string)
    requires |s| <= SCRATCH
    ensures |r| <= SCRATCH
  {
    if |s| < SCRATCH then s + SignOf(negative, f) else s
  }

  /** _out_rev */
  function OutRev(s: string, width: nat, f: Flags): string {
    (if f.left || f.zeropad then [] else Fill(' ', Minus(width, |s|)))
    + Reverse(s)
    + (if f.left then Fill(' ', Minus(width, |s|)) else [])
  }

  /** _ntoa_format, from the digits on. */
  function Formatted(digits: string, negative: bool, base: nat, prec: nat, width: nat, f: Flags): string
    requires |digits| <= SCRATCH
  {
    var w := WidthLeft(width, negative, f);
    OutRev(WithSign(Hashed(Padded(digits, prec, w, f), base, prec, w, f), negative, f), w, f)
  }

  /** _ntoa_long and _ntoa_long_long */
  function IntegerText(value: nat, negative: bool, base: nat, prec: nat, width: nat, f: Flags): string
    requires 2 <= base <= 16
  {
    var g := if value == 0 then f.(hash := false) else f;
    Formatted(Scratch(value, base, g), negative, base, prec, width, g)
  }

  // ------------------------------------------------------------- the standard's field

  /** At least `prec` digits, highest first. */
  function IsoDigits(digits: string, prec: nat): string {
    Fill('0', Minus(prec, |digits|)) + Reverse(digits)
  }

  /** A field around a sign and digits: '0' is ignored with '-' and with a precision. */
  function IsoLayout(sign: string, digits: string, width: nat, f: Flags): string {
    var gap := Minus(width, |sign| + |digits|);
    if f.left then sign + digits + Fill(' ', gap)
    else if f.zeropad && !f.precision then sign + Fill('0', gap) + digits
    else Fill(' ', gap) + sign + digits
  }

  /** An integer field without '#'. */
  function IsoField(value: nat, negative: bool, base: nat, prec: nat, width: nat, f: Flags): string
    requires 2 <= base <= 16
  {
    IsoLayout(SignOf(negative, f), IsoDigits(Digits(value, base, f), prec), width, f)
  }

  // ------------------------------------------------------------- strings and characters

  /** The padding loops of %c and %s: spaces up to the width, on one side. */
  function Justified(body: string, width: nat, f: Flags): string {
    if f.left then body + Fill(' ', Minus(width, |body|)) else Fill(' ', Minus(width, |body|)) + body
  }

  function StringText(s: string, prec: nat, width: nat, f: Flags): string {
    Justified(if f.precision && prec < |s| then s[..prec] else s, width, f)
  }
}
