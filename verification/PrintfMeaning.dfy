/** What a written directive prints, character by character, in the terms of section 7.21.6.1 of ISO
    C11: where the blanks, the sign and the zeros stand, in which base and case the digits are, and
    which value they denote. */
module PrintfMeaning {
  import opened PrintfSpec
  import opened PrintfField
  import opened PrintfHash
  import opened PrintfParse
  import opened PrintfRender

  // ------------------------------------------------------------- what is written

  /** n is the value of v as a 32-bit int. */
  predicate IsInt(n: int, v: int) {
    -0x8000_0000 <= n < 0x8000_0000 && (n - v) % 0x1_0000_0000 == 0
  }

  /** The field width, and whether the text goes to the left: '-' says so, and so does a negative
      argument for a star. */
  predicate IsWidth(s: Spec, v: int, width: nat, left: bool) {
    match s.width
    case Absent => width == 0 && left == ('-' in s.flags)
    case Written(d) => width == ReadBack(d, 10) % 0x1_0000_0000 && left == ('-' in s.flags)
    case Star => (IsInt(width, v) && left == ('-' in s.flags)) || (0 < width && IsInt(-(width as int), v) && left)
  }

  /** The precision; a negative argument for a star counts as 0. */
  predicate IsPrec(s: Spec, v: int, prec: nat) {
    if !s.dot then prec == 0
    else
      match s.prec
      case Absent => prec == 0
      case Written(d) => prec == ReadBack(d, 10) % 0x1_0000_0000
      case Star => IsInt(prec, v) || (prec == 0 && v % 0x1_0000_0000 >= 0x8000_0000)
  }

  /** Stars before the conversion take an argument each. */
  function Stars(s: Spec): nat {
    (if s.width.Star? then 1 else 0) + (if s.dot && s.prec.Star? then 1 else 0)
  }

  function PrecAt(s: Spec, k: nat): nat {
    if s.width.Star? then k + 1 else k
  }

  /** n is the argument v in the type that the length names; plain char is unsigned. */
  predicate IsTyped(n: int, v: int, length: Length, signed: bool) {
    match length
    case Plain => if signed then IsInt(n, v) else 0 <= n < 0x1_0000_0000 && (n - v) % 0x1_0000_0000 == 0
    case Short => (if signed then -0x8000 <= n < 0x8000 else 0 <= n < 0x1_0000) && (n - v) % 0x1_0000 == 0
    case Char => 0 <= n < 0x100 && (n - v) % 0x100 == 0
    case _ =>
      && (if signed then -0x8000_0000_0000_0000 <= n < 0x8000_0000_0000_0000 else 0 <= n < 0x1_0000_0000_0000_0000)
      && (n - v) % 0x1_0000_0000_0000_0000 == 0
  }

  function Sign(s: Spec, n: int): string {
    if n < 0 then "-"
    else if (s.conv == 'd' || s.conv == 'i') && '+' in s.flags then "+"
    else if (s.conv == 'd' || s.conv == 'i') && ' ' in s.flags then " " else ""
  }

  function Radix(conv: char): (b: nat)
    ensures 2 <= b <= 16
  {
    match conv
    case 'x' => 16
    case 'X' => 16
    case 'o' => 8
    case 'b' => 2
    case _ => 10
  }

  /** Digits of the base, with letters upper-case exactly for X. */
  predicate DigitsOf(conv: char, digits: string) {
    forall j :: 0 <= j < |digits| ==>
      && DigitValue(digits[j]) < Radix(conv)
      && ('0' <= digits[j] <= '9' || (conv == 'X' && 'A' <= digits[j] <= 'F') || (conv == 'x' && 'a' <= digits[j] <= 'f'))
  }

  /** How many digits the value has of its own: none for a zero with a precision. */
  function OwnDigits(s: Spec, n: int): nat {
    if s.dot && n == 0 then 0 else |Numeral(Magnitude(n), Radix(s.conv), false)|
  }

  /** The fields the 32-byte buffer has room for; with '-' no precision above the digit count. */
  predicate HasRoom(s: Spec, n: int, width: nat, prec: nat, left: bool) {
    var sign, d := Sign(s, n), OwnDigits(s, n);
    && |sign| + d <= 32
    && if left then prec <= d
    else
      && ('0' in s.flags && !s.dot ==> width <= 32)
      && (|sign| + Max(d, prec) <= 32 || (sign == " " && Max(d, prec) == 32 && width > 32))
  }

  // ------------------------------------------------------------- what is read

  lemma IntIs(n: int, v: int)
    ensures IsInt(n, v) ==> n == ToInt(v)
    ensures 0 <= n < 0x1_0000_0000 && (n - v) % 0x1_0000_0000 == 0 ==> n == v % 0x1_0000_0000
  {
  }

  lemma ShortIs(n: int, v: int)
    requires (n - v) % 0x1_0000 == 0
    ensures -0x8000 <= n < 0x8000 ==> n == ToShort(v)
    ensures 0 <= n < 0x1_0000 ==> n == v % 0x1_0000
  {
  }

  lemma CharIs(n: int, v: int)
    requires 0 <= n < 0x100 && (n - v) % 0x100 == 0
    ensures n == v % 0x100
  {
  }

  lemma LongIs(n: int, v: int)
    requires (n - v) % 0x1_0000_0000_0000_0000 == 0
    ensures -0x8000_0000_0000_0000 <= n < 0x8000_0000_0000_0000 ==> n == ToLong(v)
    ensures 0 <= n < 0x1_0000_0000_0000_0000 ==> n == v % 0x1_0000_0000_0000_0000
  {
  }

  lemma TypedIs(n: int, v: int, l: Length, signed: bool, f: Flags)
    requires IsTyped(n, v, l, signed)
    requires f.long == (l.Long? || l.LongLong? || l.Ptrdiff? || l.Intmax? || l.Size?) && f.longlong == l.LongLong?
    requires f.chr == l.Char? && f.short == (l.Short? || l.Char?)
    ensures n == if signed then SignedArg(v, f) else UnsignedArg(v, f)
  {
    match l {
      case Plain => IntIs(n, v);
      case Short => ShortIs(n, v);
      case Char => CharIs(n, v);
      case _ => LongIs(n, v);
    }
    hide ToInt, ToShort, ToLong, IsInt;
  }

  /** What parsing found in the directive. */
  lemma MeaningIs(s: Spec, args: seq<Arg>, i: nat, k: nat, width: nat, prec: nat, left: bool) returns (m: Cursor)
    requires IsWidth(s, NumAt(args, k), width, left) && IsPrec(s, NumAt(args, PrecAt(s, k)), prec)
    ensures m == Meaning(s, args, i, k) && m.k == k + Stars(s) && m.width == width && m.prec == prec
    ensures m.f == Flags('0' in s.flags, left, '+' in s.flags, ' ' in s.flags, '#' in s.flags, false,
                         s.length.Char?, s.length.Short? || s.length.Char?,
                         s.length.Long? || s.length.LongLong? || s.length.Ptrdiff? || s.length.Intmax? || s.length.Size?,
                         s.length.LongLong?, s.dot)
  {
    var c1, c2, c3, c4;
    c1, c2, c3, c4, m := MeaningChain(s, args, Begin(i, k));
    assert m == Meaning(s, args, i, k);
    hide Meaning, MeaningFrom, WithPart, IsPrec, IsWidth;
    UpToWidth(s, args, Begin(i, k), c1, c2, c3, width, left);
    FromPrecision(s, args, c3, c4, m, prec);
  }

  lemma UpToWidth(s: Spec, args: seq<Arg>, c: Cursor, c1: Cursor, c2: Cursor, c3: Cursor, width: nat, left: bool)
    requires c.f == NO_FLAGS && c.width == 0 && IsWidth(s, NumAt(args, c.k), width, left)
    requires c1 == WithPart(s, args, c, 0) && c2 == WithPart(s, args, c1, 1) && c3 == WithPart(s, args, c2, 2)
    ensures c3.f == NO_FLAGS.(zeropad := '0' in s.flags, left := left, plus := '+' in s.flags, space := ' ' in s.flags,
                              hash := '#' in s.flags)
    ensures c3.width == width && c3.k == PrecAt(s, c.k)
  {
    hide PartText, IsWidth;
    WidthIs(s, args, c2, width, left);
    hide WithWidth;
  }

  lemma FromPrecision(s: Spec, args: seq<Arg>, c3: Cursor, c4: Cursor, m: Cursor, prec: nat)
    requires !c3.f.precision && IsPrec(s, NumAt(args, c3.k), prec)
    requires c4 == WithPart(s, args, c3, 3) && m == WithPart(s, args, c4, 4)
    ensures m.f == WithLength(c3.f.(precision := s.dot), s.length)
    ensures m.width == c3.width && m.prec == prec && m.k == c3.k + (if s.dot && s.prec.Star? then 1 else 0)
  {
    hide PartText, IsPrec, WithLength;
    PrecIs(s, args, c3, prec);
    hide WithPrec;
  }

  lemma MeaningChain(s: Spec, args: seq<Arg>, c: Cursor) returns (c1: Cursor, c2: Cursor, c3: Cursor, c4: Cursor, m: Cursor)
    ensures c1 == WithPart(s, args, c, 0) && c2 == WithPart(s, args, c1, 1) && c3 == WithPart(s, args, c2, 2)
    ensures c4 == WithPart(s, args, c3, 3) && m == WithPart(s, args, c4, 4)
    ensures m == MeaningFrom(s, args, c, 0)
  {
    hide WithPart;
    c1 := WithPart(s, args, c, 0);
    c2 := WithPart(s, args, c1, 1);
    c3 := WithPart(s, args, c2, 2);
    c4 := WithPart(s, args, c3, 3);
    m := WithPart(s, args, c4, 4);
    assert MeaningFrom(s, args, c, 0) == MeaningFrom(s, args, c1, 1) == MeaningFrom(s, args, c2, 2);
    assert MeaningFrom(s, args, c2, 2) == MeaningFrom(s, args, c3, 3) == MeaningFrom(s, args, c4, 4);
    assert MeaningFrom(s, args, c4, 4) == MeaningFrom(s, args, m, 5) == m;
  }

  lemma WidthIs(s: Spec, args: seq<Arg>, c: Cursor, width: nat, left: bool)
    requires IsWidth(s, NumAt(args, c.k), width, left) && c.width == 0 && c.f.left == ('-' in s.flags)
    ensures WithWidth(s.width, args, c) == c.(width := width, k := PrecAt(s, c.k), f := c.f.(left := left))
  {
    if s.width.Star? {
      var v := NumAt(args, c.k);
      if IsInt(width, v) && left == ('-' in s.flags) {
        IntIs(width, v);
      } else {
        IntIs(-(width as int), v);
      }
    }
  }

  lemma PrecIs(s: Spec, args: seq<Arg>, c: Cursor, prec: nat)
    requires IsPrec(s, NumAt(args, c.k), prec) && !c.f.precision
    ensures WithPrec(s, args, c) ==
      c.(prec := prec, k := c.k + (if s.dot && s.prec.Star? then 1 else 0), f := c.f.(precision := s.dot))
  {
    if s.dot && s.prec.Star? {
      var v := NumAt(args, c.k);
      if IsInt(prec, v) {
        IntIs(prec, v);
      }
    }
  }

  // ------------------------------------------------------------- digits

  lemma {:induction false} DigitsInBase(v: nat, base: nat, upper: bool)
    requires 2 <= base <= 16
    ensures forall j :: 0 <= j < |RevDigits(v, base, upper)| ==>
      var c := RevDigits(v, base, upper)[j];
      DigitValue(c) < base && ('0' <= c <= '9' || (if upper then 'A' <= c <= 'F' else 'a' <= c <= 'f'))
    decreases v
  {
    DigitReads(Rem(v, base), upper);
    if Quot(v, base) > 0 {
      DigitsInBase(Quot(v, base), base, upper);
    }
  }

  lemma {:induction false} SameCount(v: nat, base: nat, a: bool, b: bool)
    requires 2 <= base <= 16
    ensures |RevDigits(v, base, a)| == |RevDigits(v, base, b)|
    decreases v
  {
    if Quot(v, base) > 0 {
      SameCount(Quot(v, base), base, a, b);
    }
  }

  lemma NumeralDigits(conv: char, v: nat, f: Flags)
    requires f.upper == (conv == 'X') && (Radix(conv) <= 10 || conv == 'x' || conv == 'X')
    ensures DigitsOf(conv, Reverse(Digits(v, Radix(conv), f)))
  {
    DigitsInBase(v, Radix(conv), f.upper);
  }

  lemma ZerosBefore(conv: char, n: nat, digits: string)
    requires DigitsOf(conv, digits)
    ensures DigitsOf(conv, Fill('0', n) + digits)
  {
  }

  /** The layout of a field: blanks after it with '-', zeros inside it with '0' and no precision, and
      otherwise blanks before it. */
  lemma LayoutShows(conv: char, sign: string, body: string, width: nat, f: Flags)
    returns (before: nat, digits: string, after: nat)
    requires DigitsOf(conv, body)
    ensures IsoLayout(sign, body, width, f) == Fill(' ', before) + sign + digits + Fill(' ', after)
    ensures DigitsOf(conv, digits) && ReadBack(digits, Radix(conv)) == ReadBack(body, Radix(conv))
    ensures (f.left ==> before == 0) && (!f.left ==> after == 0) && (f.zeropad && !f.precision && !f.left ==> before == 0)
  {
    hide DigitsOf, ReadBack, Radix;
    var gap := Minus(width, |sign| + |body|);
    if f.left {
      before, digits, after := 0, body, gap;
    } else if f.zeropad && !f.precision {
      before, digits, after := 0, Fill('0', gap) + body, 0;
      LeadingZeros(gap, body, Radix(conv));
      ZerosBefore(conv, gap, body);
      assert sign + Fill('0', gap) + body == "" + sign + (Fill('0', gap) + body) + "";
    } else {
      before, digits, after := gap, body, 0;
    }
  }

  lemma CountIs(s: Spec, n: int, f: Flags)
    requires f.precision == s.dot
    ensures |Digits(Magnitude(n), Radix(s.conv), f)| == OwnDigits(s, n)
  {
    SameCount(Magnitude(n), Radix(s.conv), f.upper, false);
  }

  lemma FieldIsLayout(v: nat, negative: bool, base: nat, prec: nat, width: nat, f: Flags)
    requires 2 <= base <= 16
    ensures IsoField(v, negative, base, prec, width, f) ==
      IsoLayout(SignOf(negative, f), IsoDigits(Digits(v, base, f), prec), width, f)
  {
  }

  /** The text of the number itself, given the adjusted flags. */
  lemma FieldShows(s: Spec, n: int, width: nat, prec: nat, left: bool, f: Flags)
    returns (before: nat, digits: string, after: nat)
    requires f.left == left && f.precision == s.dot && f.zeropad == ('0' in s.flags && !s.dot) && !f.hash
    requires f.upper == (s.conv == 'X') && (Radix(s.conv) <= 10 || s.conv == 'x' || s.conv == 'X')
    requires SignOf(n < 0, f) == Sign(s, n) && (!s.dot ==> prec == 0)
    requires Magnitude(n) < 0x1_0000_0000_0000_0000 && HasRoom(s, n, width, prec, left)
    ensures var text := IntegerText(Magnitude(n), n < 0, Radix(s.conv), prec, width, f);
      && |text| == Max(width, |Sign(s, n)| + Max(OwnDigits(s, n), prec))
      && text == Fill(' ', before) + Sign(s, n) + digits + Fill(' ', after)
    ensures DigitsOf(s.conv, digits) && ReadBack(digits, Radix(s.conv)) == Magnitude(n)
    ensures (left ==> before == 0) && (!left ==> after == 0) && ('0' in s.flags && !s.dot && !left ==> before == 0)
  {
    var base, v := Radix(s.conv), Magnitude(n);
    CountIs(s, n, f);
    RoomIsExact(s, n, width, prec, left, f);
    hide Radix, Magnitude, Sign, SignOf, OwnDigits, DigitsOf, IntegerText, Digits, HasRoom, Exact, IntegerFlags;
    hide IsoLayout, IsoDigits, IsoField, Reverse, Fill, ReadBack;
    FieldIsIsoIff(v, n < 0, base, prec, width, f);
    FieldIsLayout(v, n < 0, base, prec, width, f);
    DigitsRead(v, base, f);
    NumeralDigits(s.conv, v, f);
    before, digits, after := DigitsShow(s.conv, Digits(v, base, f), Sign(s, n), prec, width, f);
  }

  lemma RoomIsExact(s: Spec, n: int, width: nat, prec: nat, left: bool, f: Flags)
    requires f.left == left && f.precision == s.dot && f.zeropad == ('0' in s.flags && !s.dot) && !f.hash
    requires (!s.dot ==> prec == 0) && HasRoom(s, n, width, prec, left)
    ensures OwnDigits(s, n) + |Sign(s, n)| <= SCRATCH
    ensures Exact(OwnDigits(s, n), Sign(s, n), prec, width, f) && IntegerFlags(prec, f)
  {
    hide OwnDigits, Sign;
  }

  lemma DigitsShow(conv: char, d: string, sign: string, prec: nat, width: nat, f: Flags)
    returns (before: nat, digits: string, after: nat)
    requires DigitsOf(conv, Reverse(d))
    ensures var text := IsoLayout(sign, IsoDigits(d, prec), width, f);
      && |text| == Max(width, |sign| + Max(|d|, prec))
      && text == Fill(' ', before) + sign + digits + Fill(' ', after)
    ensures DigitsOf(conv, digits) && ReadBack(digits, Radix(conv)) == ReadBack(Reverse(d), Radix(conv))
    ensures (f.left ==> before == 0) && (!f.left ==> after == 0) && (f.zeropad && !f.precision && !f.left ==> before == 0)
  {
    LayoutLength(sign, d, prec, width, f);
    hide IsoLayout, DigitsOf, ReadBack, Radix;
    IsoDigitsRead(d, prec, Radix(conv));
    ZerosBefore(conv, Minus(prec, |d|), Reverse(d));
    before, digits, after := LayoutShows(conv, sign, IsoDigits(d, prec), width, f);
  }

  predicate PlainInteger(s: Spec, n: int) {
    && WellFormed(s)
    && (s.conv == 'd' || s.conv == 'i' || s.conv == 'u' || (s.conv in "xXob" && ('#' in s.flags ==> n == 0)))
  }

  lemma SignIs(s: Spec, n: int, f: Flags)
    requires (s.conv == 'd' || s.conv == 'i' || n >= 0)
    requires f.plus == ('+' in s.flags && IsSigned(s.conv)) && f.space == (' ' in s.flags && IsSigned(s.conv))
    ensures SignOf(n < 0, f) == Sign(s, n)
  {
  }

  /** An integer directive d, i, u, x, X, o or b that has room, with '#' on x, X, o and b only for a
      zero, prints its argument in the type its length names: blanks, the sign, digits of the base that read
      back to it, and blanks, in the standard's length.  '-' puts the blanks after it and '0' without a
      precision makes them zeros. */
  lemma IntegerDirective(s: Spec, args: seq<Arg>, i: nat, k: nat, width: nat, prec: nat, left: bool, n: int)
    returns (before: nat, digits: string, after: nat)
    requires PlainInteger(s, n)
    requires IsWidth(s, NumAt(args, k), width, left) && IsPrec(s, NumAt(args, PrecAt(s, k)), prec)
    requires IsTyped(n, NumAt(args, k + Stars(s)), s.length, s.conv == 'd' || s.conv == 'i')
    requires HasRoom(s, n, width, prec, left)
    ensures var text := Conversion(args, s.conv, Meaning(s, args, i, k));
      && |text| == Max(width, |Sign(s, n)| + Max(OwnDigits(s, n), prec))
      && text == Fill(' ', before) + Sign(s, n) + digits + Fill(' ', after)
    ensures DigitsOf(s.conv, digits) && ReadBack(digits, Radix(s.conv)) == if n < 0 then -n else n
    ensures (left ==> before == 0) && (!left ==> after == 0) && ('0' in s.flags && !s.dot && !left ==> before == 0)
  {
    var m := MeaningIs(s, args, i, k, width, prec, left);
    hide Meaning, IsWidth, IsPrec, Stars, PrecAt, HasRoom, IsTyped, Conversion, Sign, DigitsOf, OwnDigits, Radix, ReadBack;
    var g := Adjusted(s, args, m, n);
    before, digits, after := FieldShows(s, n, width, prec, left, g);
    NotNegative(n);
  }

  /** The flags with which the number is printed, and the number. */
  lemma Adjusted(s: Spec, args: seq<Arg>, m: Cursor, n: int) returns (g: Flags)
    requires PlainInteger(s, n) && IsTyped(n, NumAt(args, m.k), s.length, s.conv == 'd' || s.conv == 'i')
    requires m.f == Flags('0' in s.flags, m.f.left, '+' in s.flags, ' ' in s.flags, '#' in s.flags, false,
                          s.length.Char?, s.length.Short? || s.length.Char?,
                          s.length.Long? || s.length.LongLong? || s.length.Ptrdiff? || s.length.Intmax? || s.length.Size?,
                          s.length.LongLong?, s.dot)
    ensures Conversion(args, s.conv, m) == IntegerText(Magnitude(n), n < 0, Radix(s.conv), m.prec, m.width, g)
    ensures g.left == m.f.left && g.precision == s.dot && g.zeropad == ('0' in s.flags && !s.dot) && !g.hash
    ensures g.upper == (s.conv == 'X') && (Radix(s.conv) <= 10 || s.conv == 'x' || s.conv == 'X')
    ensures SignOf(n < 0, g) == Sign(s, n) && Magnitude(n) < 0x1_0000_0000_0000_0000
  {
    g := Adjust(s.conv, m.f);
    TypedIs(n, NumAt(args, m.k), s.length, IsSigned(s.conv), g);
    TypedFits(n, NumAt(args, m.k), s.length, IsSigned(s.conv));
    if n == 0 {
      ZeroUnmarked(Radix(s.conv), m.prec, m.width, g);
      g := g.(hash := false);
    }
    hide SignedArg, UnsignedArg, IsTyped, IntegerText, WellFormed;
    SignIs(s, n, g);
    assert Radix(s.conv) == BaseOf(s.conv);
  }

  /** '#' does nothing to a zero. */
  lemma ZeroUnmarked(base: nat, prec: nat, width: nat, f: Flags)
    requires 2 <= base <= 16
    ensures IntegerText(0, false, base, prec, width, f) == IntegerText(0, false, base, prec, width, f.(hash := false))
  {
    hide Formatted, Scratch;
  }

  lemma NotNegative(n: int)
    ensures Magnitude(n) == if n < 0 then -n else n
  {
  }

  lemma TypedFits(n: int, v: int, l: Length, signed: bool)
    requires IsTyped(n, v, l, signed)
    ensures Magnitude(n) < 0x1_0000_0000_0000_0000 && (!signed ==> n >= 0)
  {
  }

  // ------------------------------------------------------------- '#'

  /** The fields with '#' in which the code has room for the prefix of a number of d digits: without
      a precision, a width equal to the digit count takes it from the digits, and zeros up to the
      width must leave room for it. */
  predicate HasPrefixRoom(s: Spec, d: nat, width: nat, prec: nat, left: bool) {
    if s.dot then
      if s.conv == 'o' then prec <= d || prec == (if left then d + 1 else 32)
      else if left then prec <= d else Max(d, prec) <= 30
    else if '0' in s.flags && !left then width < d || d + (if s.conv == 'o' then 1 else 2) <= width <= 32
    else width != d
  }

  /** A directive x, X or o with '#' and a number that is not zero: 0x, 0X or 0 and then digits of
      the base that read back to the argument, with blanks on one side. */
  lemma PrefixedDirective(s: Spec, args: seq<Arg>, i: nat, k: nat, width: nat, prec: nat, left: bool, n: int)
    returns (before: nat, digits: string, after: nat)
    requires WellFormed(s) && s.conv in "xXo" && '#' in s.flags && n != 0
    requires IsWidth(s, NumAt(args, k), width, left) && IsPrec(s, NumAt(args, PrecAt(s, k)), prec)
    requires IsTyped(n, NumAt(args, k + Stars(s)), s.length, false)
    requires HasPrefixRoom(s, OwnDigits(s, n), width, prec, left)
    ensures var text, d := Conversion(args, s.conv, Meaning(s, args, i, k)), OwnDigits(s, n);
      && |text| == Max(width, if s.conv == 'o' then Max(d + 1, prec) else 2 + Max(d, prec))
      && text == Fill(' ', before) + (if s.conv == 'o' then "0" else if s.conv == 'x' then "0x" else "0X")
                 + digits + Fill(' ', after)
    ensures DigitsOf(s.conv, digits) && ReadBack(digits, if s.conv == 'o' then 8 else 16) == n
    ensures (left ==> before == 0) && (!left ==> after == 0) && ('0' in s.flags && !s.dot && !left ==> before == 0)
  {
    var m := MeaningIs(s, args, i, k, width, prec, left);
    hide Meaning, IsWidth, IsPrec, Stars, PrecAt, HasPrefixRoom, IsTyped, DigitsOf, OwnDigits, ReadBack, Conversion;
    before, digits, after := PrefixShows(s, args, m, n);
  }

  lemma PrefixShows(s: Spec, args: seq<Arg>, m: Cursor, n: int) returns (before: nat, digits: string, after: nat)
    requires s.conv in "xXo" && '#' in s.flags && n != 0 && (!s.dot ==> m.prec == 0)
    requires IsTyped(n, NumAt(args, m.k), s.length, false)
    requires m.f == Flags('0' in s.flags, m.f.left, '+' in s.flags, ' ' in s.flags, true, false,
                          s.length.Char?, s.length.Short? || s.length.Char?,
                          s.length.Long? || s.length.LongLong? || s.length.Ptrdiff? || s.length.Intmax? || s.length.Size?,
                          s.length.LongLong?, s.dot)
    requires HasPrefixRoom(s, OwnDigits(s, n), m.width, m.prec, m.f.left)
    ensures var text, d := Conversion(args, s.conv, m), OwnDigits(s, n);
      && |text| == Max(m.width, if s.conv == 'o' then Max(d + 1, m.prec) else 2 + Max(d, m.prec))
      && text == Fill(' ', before) + (if s.conv == 'o' then "0" else if s.conv == 'x' then "0x" else "0X")
                 + digits + Fill(' ', after)
    ensures DigitsOf(s.conv, digits) && ReadBack(digits, if s.conv == 'o' then 8 else 16) == n
    ensures (m.f.left ==> before == 0) && (!m.f.left ==> after == 0)
    ensures '0' in s.flags && !s.dot && !m.f.left ==> before == 0
  {
    var d, g := PrefixDigits(s, args, m, n);
    hide Conversion, IsTyped, DigitsOf, OwnDigits, ReadBack, Digits, IsoLayout, IsoDigits, LeadZero, HasPrefixRoom, Proper;
    MarkedLength(d, Radix(s.conv), m.prec, m.width, g);
    if s.conv == 'o' {
      var rest := OctalRest(d, m.prec);
      ZeroAsSign(rest, m.width, g);
      before, digits, after := LayoutShows('o', "0", rest, m.width, g);
    } else {
      DigitsOfIso(s.conv, d, m.prec);
      before, digits, after := LayoutShows(s.conv, Prefix(16, g), IsoDigits(d, m.prec), m.width, g);
    }
  }

  lemma DigitsOfIso(conv: char, d: string, prec: nat)
    requires DigitsOf(conv, Reverse(d))
    ensures DigitsOf(conv, IsoDigits(d, prec)) && ReadBack(IsoDigits(d, prec), Radix(conv)) == ReadBack(Reverse(d), Radix(conv))
  {
    IsoDigitsRead(d, prec, Radix(conv));
    ZerosBefore(conv, Minus(prec, |d|), Reverse(d));
  }

  lemma OctalRest(d: string, prec: nat) returns (rest: string)
    requires Proper(d) && DigitsOf('o', Reverse(d))
    ensures LeadZero(IsoDigits(d, prec)) == "0" + rest
    ensures DigitsOf('o', rest) && ReadBack(rest, 8) == ReadBack(Reverse(d), 8)
  {
    assert Reverse(d)[0] == d[|d| - 1];
    if prec <= |d| {
      rest := Reverse(d);
      assert Fill('0', 0) + rest == rest;
    } else {
      var zeros := prec - |d| - 1;
      rest := Fill('0', zeros) + Reverse(d);
      LeadingZeros(zeros, Reverse(d), 8);
      assert IsoDigits(d, prec) == "0" + rest;
    }
  }

  lemma ZeroAsSign(rest: string, width: nat, f: Flags)
    ensures IsoLayout("", "0" + rest, width, f) == IsoLayout("0", rest, width, f)
  {
    var gap := Minus(width, 1 + |rest|);
    assert "" + ("0" + rest) + Fill(' ', gap) == "0" + rest + Fill(' ', gap);
    assert "" + Fill('0', gap) + ("0" + rest) == "0" + Fill('0', gap) + rest;
    assert Fill(' ', gap) + "" + ("0" + rest) == Fill(' ', gap) + "0" + rest;
  }

  lemma PrefixDigits(s: Spec, args: seq<Arg>, m: Cursor, n: int) returns (d: string, g: Flags)
    requires s.conv in "xXo" && '#' in s.flags && n != 0 && (!s.dot ==> m.prec == 0)
    requires IsTyped(n, NumAt(args, m.k), s.length, false)
    requires m.f == Flags('0' in s.flags, m.f.left, '+' in s.flags, ' ' in s.flags, true, false,
                          s.length.Char?, s.length.Short? || s.length.Char?,
                          s.length.Long? || s.length.LongLong? || s.length.Ptrdiff? || s.length.Intmax? || s.length.Size?,
                          s.length.LongLong?, s.dot)
    requires HasPrefixRoom(s, OwnDigits(s, n), m.width, m.prec, m.f.left)
    ensures g.left == m.f.left && g.precision == s.dot && g.zeropad == ('0' in s.flags && !s.dot) && g.upper == (s.conv == 'X')
    ensures n > 0 && Proper(d) && |d| == OwnDigits(s, n)
    ensures DigitsOf(s.conv, Reverse(d)) && ReadBack(Reverse(d), Radix(s.conv)) == n
    ensures Conversion(args, s.conv, m) == IsoMarked(d, false, Radix(s.conv), m.prec, m.width, g)
  {
    g := Adjust(s.conv, m.f);
    var base := Radix(s.conv);
    TypedIs(n, NumAt(args, m.k), s.length, false, g);
    TypedFits(n, NumAt(args, m.k), s.length, false);
    hide IsTyped, UnsignedArg, IsoMarked, Digits, OwnDigits, Proper, DigitsOf, ReadBack, IntegerConv;
    d := Digits(n, base, g);
    CountIs(s, n, g);
    NotNegative(n);
    DigitsProper(n, base, g);
    DigitsRead(n, base, g);
    NumeralDigits(s.conv, n, g);
    MarkedDirectiveIsIsoIff(s.conv, NumAt(args, m.k), m.width, m.prec, m.f);
  }

  // ------------------------------------------------------------- the other conversions

  /** A text of its own padded with blanks, after it with '-' and before it without. */
  predicate IsPadded(text: string, body: string, width: nat, left: bool) {
    && |text| == Max(width, |body|)
    && (if left then text[..|body|] == body && forall j :: |body| <= j < |text| ==> text[j] == ' '
        else text[|text| - |body|..] == body && forall j :: 0 <= j < |text| - |body| ==> text[j] == ' ')
  }

  lemma JustifiedPads(body: string, width: nat, f: Flags)
    ensures IsPadded(Justified(body, width, f), body, width, f.left)
  {
  }

  /** A character, the low byte of its argument, in its field. */
  lemma CharDirective(s: Spec, args: seq<Arg>, i: nat, k: nat, width: nat, prec: nat, left: bool)
    requires WellFormed(s) && s.conv == 'c'
    requires IsWidth(s, NumAt(args, k), width, left) && IsPrec(s, NumAt(args, PrecAt(s, k)), prec)
    ensures var c := (NumAt(args, k + Stars(s)) % 0x100) as char;
      IsPadded(Conversion(args, 'c', Meaning(s, args, i, k)), [c], width, left)
  {
    var m := MeaningIs(s, args, i, k, width, prec, left);
    hide Meaning, IsWidth, IsPrec, WellFormed, Stars, PrecAt, IsPadded;
    CharText(args, m);
  }

  lemma CharText(args: seq<Arg>, m: Cursor)
    ensures IsPadded(Conversion(args, 'c', m), [(NumAt(args, m.k) % 0x100) as char], m.width, m.f.left)
  {
    hide Justified, IsPadded;
    JustifiedPads([(NumAt(args, m.k) % 0x100) as char], m.width, m.f);
  }

  /** A string, or as much of it as the precision allows, in its field. */
  lemma StringDirective(s: Spec, args: seq<Arg>, i: nat, k: nat, width: nat, prec: nat, left: bool)
    requires WellFormed(s) && s.conv == 's'
    requires IsWidth(s, NumAt(args, k), width, left) && IsPrec(s, NumAt(args, PrecAt(s, k)), prec)
    ensures var t := StrAt(args, k + Stars(s));
      IsPadded(Conversion(args, 's', Meaning(s, args, i, k)), if s.dot && prec < |t| then t[..prec] else t, width, left)
  {
    var m := MeaningIs(s, args, i, k, width, prec, left);
    hide Meaning, IsWidth, IsPrec, WellFormed, Stars, PrecAt, IsPadded;
    CutText(args, m);
  }

  lemma CutText(args: seq<Arg>, m: Cursor)
    ensures var t := StrAt(args, m.k);
      IsPadded(Conversion(args, 's', m), if m.f.precision && m.prec < |t| then t[..m.prec] else t, m.width, m.f.left)
  {
    hide Justified, IsPadded;
    var t := StrAt(args, m.k);
    JustifiedPads(if m.f.precision && m.prec < |t| then t[..m.prec] else t, m.width, m.f);
  }

  /** A pointer without flags but '0' and with a precision of at most 16: sixteen upper-case
      hexadecimal digits that denote it. */
  lemma PointerDirective(s: Spec, args: seq<Arg>, i: nat, k: nat, width: nat, prec: nat, left: bool)
    requires WellFormed(s) && s.conv == 'p' && '+' !in s.flags && ' ' !in s.flags && '#' !in s.flags
    requires IsWidth(s, NumAt(args, k), width, left) && IsPrec(s, NumAt(args, PrecAt(s, k)), prec)
    requires !left && prec <= 16
    ensures var text := Conversion(args, 'p', Meaning(s, args, i, k));
      |text| == 16 && UpperHex(text) && ReadBack(text, 16) == NumAt(args, k + Stars(s)) % 0x1_0000_0000_0000_0000
  {
    var m := MeaningIs(s, args, i, k, width, prec, left);
    hide Meaning, IsWidth, IsPrec, WellFormed, Stars, PrecAt;
    PointerText(args, m);
  }

  lemma PointerText(args: seq<Arg>, m: Cursor)
    requires !m.f.left && !m.f.plus && !m.f.space && !m.f.hash && m.prec <= 16
    ensures var text := Conversion(args, 'p', m);
      |text| == 16 && UpperHex(text) && ReadBack(text, 16) == NumAt(args, m.k) % 0x1_0000_0000_0000_0000
  {
    hide IntegerText, UpperHex, ReadBack, Digits;
    PointerDigitsIff(NumAt(args, m.k) % 0x1_0000_0000_0000_0000, m.prec, m.f);
  }

  /** Any other character that names no floating-point conversion prints itself, so "%%" prints a
      percent sign. */
  lemma OtherDirective(args: seq<Arg>, conv: char, m: Cursor)
    requires conv !in "diuxXobcspfFeEgG"
    ensures Conversion(args, conv, m) == [conv] && NextArg(conv, m.k) == m.k
  {
  }

  /** A directive takes one argument for each star and one for itself, save "%%". */
  lemma ArgumentsTaken(s: Spec, args: seq<Arg>, i: nat, k: nat, width: nat, prec: nat, left: bool)
    requires WellFormed(s)
    requires IsWidth(s, NumAt(args, k), width, left) && IsPrec(s, NumAt(args, PrecAt(s, k)), prec)
    ensures NextArg(s.conv, Meaning(s, args, i, k).k) == k + Stars(s) + if s.conv == '%' then 0 else 1
  {
    var m := MeaningIs(s, args, i, k, width, prec, left);
  }
}
