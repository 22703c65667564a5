/** The '#' fields of the tiny printf against section 7.21.6.1 of ISO C11: exactly when the prefix
    and the digits stand where the standard puts them. */
module PrintfHash {
  import opened PrintfSpec
  import opened PrintfField
  import opened PrintfParse

  // ------------------------------------------------------------- the standard's field

  function Prefix(base: nat, f: Flags): string {
    if base != 16 then "" else if f.upper then "0X" else "0x"
  }

  /** In base 8 the first digit is made a zero. */
  function LeadZero(s: string): string {
    if s != "" && s[0] == '0' then s else "0" + s
  }

  /** A field with '#' around the digits of a value, lowest first: in base 16 a value other than
      zero gets a prefix. */
  function IsoMarked(digits: string, zero: bool, base: nat, prec: nat, width: nat, f: Flags): string {
    if base == 16 then IsoLayout(if zero then "" else Prefix(base, f), IsoDigits(digits, prec), width, f)
    else IsoLayout("", LeadZero(IsoDigits(digits, prec)), width, f)
  }

  // ------------------------------------------------------------- where the code meets it

  /** The flags of an unsigned directive with '#', once the code has adjusted them. */
  predicate HashFlags(prec: nat, f: Flags) {
    && f.hash && !f.plus && !f.space
    && (f.precision ==> !f.zeropad)
    && (!f.precision ==> prec == 0)
  }

  /** For d digits of a value other than zero.  Without a precision a field as wide as its digits
      loses the highest ones to the prefix, and zeros up to the width have to leave room for it;
      in base 8 the zero comes on top of the precision. */
  predicate HashExact(d: nat, base: nat, prec: nat, width: nat, f: Flags) {
    if f.precision then
      if base == 16 then if f.left then prec <= d else Max(d, prec) <= 30
      else prec <= d || prec == if f.left then d + 1 else 32
    else if f.zeropad && !f.left then width < d || d + (if base == 16 then 2 else 1) <= width <= 32
    else width != d
  }

  /** Digits of a value other than zero, lowest first. */
  predicate Proper(d: string) {
    0 < |d| <= 22 && d[|d| - 1] != '0' && ' ' !in d && 'x' !in d && 'X' !in d
  }

  /** The prefix as it is stored, last character first. */
  function Mark(base: nat, f: Flags): string {
    if base != 16 then "0" else if f.upper then "X0" else "x0"
  }

  lemma MarkReversed(base: nat, f: Flags)
    ensures Reverse(Mark(base, f)) == if base == 16 then Prefix(base, f) else "0"
  {
  }

  /** The prefix goes after the stored digits if the buffer has room for it. */
  lemma HashedIs(s: string, base: nat, prec: nat, width: nat, f: Flags)
    requires f.hash && (base == 8 || base == 16) && |s| + |Mark(base, f)| <= SCRATCH
    requires f.precision || (|s| != prec && |s| != width)
    ensures Hashed(s, base, prec, width, f) == s + Mark(base, f)
  {
  }

  /** Stored characters without a sign, in their field. */
  lemma FormattedIs(d: string, base: nat, prec: nat, width: nat, f: Flags)
    requires |d| <= SCRATCH && HashFlags(prec, f)
    ensures var s := Hashed(Padded(d, prec, width, f), base, prec, width, f);
      Formatted(d, false, base, prec, width, f) ==
        if f.zeropad && !f.left then Reverse(s) else Justified(Reverse(s), width, f)
  {
    var s := Hashed(Padded(d, prec, width, f), base, prec, width, f);
    assert WithSign(s, false, f) == s by {
      assert s + "" == s;
    }
    hide Hashed, Padded;
    assert Reverse(s) + [] == Reverse(s);
    assert [] + Reverse(s) == Reverse(s);
    assert Fill(' ', Minus(width, |s|)) + Reverse(s) + [] == Fill(' ', Minus(width, |s|)) + Reverse(s);
  }

  /** The standard's characters between the blanks. */
  function Body(d: string, base: nat, prec: nat, f: Flags): string {
    if base == 16 then Prefix(base, f) + IsoDigits(d, prec) else LeadZero(IsoDigits(d, prec))
  }

  lemma MarkedIs(d: string, base: nat, prec: nat, width: nat, f: Flags)
    requires f.left || f.precision || !f.zeropad
    ensures IsoMarked(d, false, base, prec, width, f) == Justified(Body(d, base, prec, f), width, f)
  {
    var body := Body(d, base, prec, f);
    hide IsoDigits, LeadZero, Fill;
    assert "" + body == body;
    var gap := Minus(width, |body|);
    assert Fill(' ', gap) + "" == Fill(' ', gap);
    if base == 16 {
      assert Fill(' ', gap) + Prefix(base, f) + IsoDigits(d, prec) == Fill(' ', gap) + body;
    }
  }

  /** Two texts without blanks look the same in a field only if they are the same. */
  lemma FieldsAgree(a: string, b: string, width: nat, f: Flags)
    requires ' ' !in a && ' ' !in b
    ensures Justified(a, width, f) == Justified(b, width, f) <==> a == b
  {
    if a != b {
      LeftDiffer(a, b, Minus(width, |a|), Minus(width, |b|));
      RightDiffer(a, b, Minus(width, |a|), Minus(width, |b|));
    }
  }

  lemma LeftDiffer(a: string, b: string, m: nat, n: nat)
    requires ' ' !in a && ' ' !in b && a != b
    ensures a + Fill(' ', m) != b + Fill(' ', n)
  {
    var x, y := a + Fill(' ', m), b + Fill(' ', n);
    if |x| == |y| {
      if |a| < |b| {
        assert x[|a|] == ' ' && y[|a|] == b[|a|];
      } else if |b| < |a| {
        assert y[|b|] == ' ' && x[|b|] == a[|b|];
      } else {
        assert a == x[..|a|] && b == y[..|a|];
      }
    }
  }

  lemma RightDiffer(a: string, b: string, m: nat, n: nat)
    requires ' ' !in a && ' ' !in b && a != b
    ensures Fill(' ', m) + a != Fill(' ', n) + b
  {
    var x, y := Fill(' ', m) + a, Fill(' ', n) + b;
    if |x| == |y| {
      if m < n {
        assert x[m] == a[0] && y[m] == ' ';
      } else if n < m {
        assert y[n] == b[0] && x[n] == ' ';
      } else {
        assert a == x[m..] && b == y[m..];
      }
    }
  }

  // ------------------------------------------------------------- the characters

  /** What the code stores in base 16, in reading order. */
  lemma HexBody(d: string, prec: nat, f: Flags)
    requires Proper(d)
    ensures Prefix(16, f) + Reverse(d) == Body(d, 16, prec, f) <==> prec <= |d|
  {
    var x, y := Prefix(16, f) + Reverse(d), Body(d, 16, prec, f);
    if prec <= |d| {
      assert Fill('0', 0) + Reverse(d) == Reverse(d);
    } else {
      assert |x| < |y|;
    }
  }

  lemma OctBody(d: string, prec: nat, f: Flags)
    requires Proper(d)
    ensures "0" + Reverse(d) == Body(d, 8, prec, f) <==> prec <= |d| + 1
  {
    var x, y := "0" + Reverse(d), Body(d, 8, prec, f);
    assert Reverse(d)[0] == d[|d| - 1];
    if prec <= |d| {
      assert Fill('0', 0) + Reverse(d) == Reverse(d);
    } else {
      assert IsoDigits(d, prec)[0] == '0';
      if prec == |d| + 1 {
        assert Fill('0', 1) == "0";
      } else {
        assert |x| < |y|;
      }
    }
  }

  lemma BodyDark(d: string, base: nat, prec: nat, f: Flags)
    requires Proper(d)
    ensures ' ' !in Body(d, base, prec, f) && ' ' !in Reverse(d)
  {
  }

  /** With '-' and with no zeros to add: the prefix and the digits. */
  lemma PrefixAlone(d: string, base: nat, prec: nat, width: nat, f: Flags)
    requires Proper(d) && (base == 8 || base == 16) && HashFlags(prec, f)
    requires f.precision || |d| != width
    requires f.left || (prec <= |d| && !f.zeropad)
    ensures var s := Hashed(Padded(d, prec, width, f), base, prec, width, f);
      ' ' !in s && (Reverse(s) == Body(d, base, prec, f) <==> prec <= if base == 16 then |d| else |d| + 1)
  {
    assert Padded(d, prec, width, f) == d by {
      assert d + Fill('0', 0) == d;
    }
    HashedIs(d, base, prec, width, f);
    ReverseConcat(d, Mark(base, f));
    MarkReversed(base, f);
    hide Padded, Hashed;
    hide Body, Proper;
    if base == 16 {
      HexBody(d, prec, f);
    } else {
      OctBody(d, prec, f);
    }
  }

  /** Digits with zeros up to the precision, without '-'. */
  lemma PrefixZeros(d: string, base: nat, prec: nat, width: nat, f: Flags)
    requires Proper(d) && (base == 8 || base == 16) && HashFlags(prec, f) && !f.left && |d| < prec
    ensures var s := Hashed(Padded(d, prec, width, f), base, prec, width, f);
      ' ' !in s && (Reverse(s) == Body(d, base, prec, f) <==> if base == 16 then prec <= 30 else prec == 32)
  {
    var p := PadTo(d, prec);
    assert |p| == if prec < SCRATCH then prec else SCRATCH;
    var s := Hashed(p, base, prec, width, f);
    var body := Body(d, base, prec, f);
    assert IsoDigits(d, prec)[0] == '0';
    assert |body| == if base == 16 then 2 + prec else prec;
    if prec <= SCRATCH {
      PaddedDigits(d, prec);
      assert Reverse(p) == IsoDigits(d, prec);
    }
    hide Body, PadTo, IsoDigits;
    if |p| + |Mark(base, f)| <= SCRATCH {
      HashedIs(p, base, prec, width, f);
      ReverseConcat(p, Mark(base, f));
      MarkReversed(base, f);
    }
  }

  /** A field as wide as its digits: the prefix takes the place of the highest ones. */
  lemma DigitsLost(d: string, base: nat, width: nat, f: Flags)
    requires Proper(d) && (base == 8 || base == 16) && HashFlags(0, f) && !f.precision && |d| == width
    ensures Formatted(d, false, base, 0, width, f) != IsoMarked(d, false, base, 0, width, f)
  {
    FormattedIs(d, base, 0, width, f);
    assert Padded(d, 0, width, f) == d by {
      assert d + Fill('0', 0) == d;
    }
    MarkedLength(d, base, 0, width, f);
    LostLength(d, base, width, f);
    hide IsoMarked, Hashed, Formatted, Padded;
  }

  lemma LostLength(d: string, base: nat, width: nat, f: Flags)
    requires Proper(d) && (base == 8 || base == 16) && HashFlags(0, f) && !f.precision && |d| == width
    ensures |Hashed(d, base, 0, width, f)| == if base == 16 then Max(2, |d|) else |d|
  {
    var t := d[..Minus(|d|, if base == 16 then 2 else 1)];
    assert Hashed(d, base, 0, width, f) == t + Mark(base, f);
  }

  lemma MarkedLength(d: string, base: nat, prec: nat, width: nat, f: Flags)
    requires Proper(d) && (base == 8 || base == 16)
    ensures |IsoMarked(d, false, base, prec, width, f)| ==
      Max(width, if base == 16 then 2 + Max(|d|, prec) else Max(|d| + 1, prec))
  {
    assert Reverse(d)[0] == d[|d| - 1];
    if prec <= |d| {
      assert Fill('0', 0) + Reverse(d) == Reverse(d);
    } else {
      assert IsoDigits(d, prec)[0] == '0';
    }
  }

  // ------------------------------------------------------------- zeros up to the width

  lemma MarkedZeros(d: string, base: nat, width: nat, f: Flags)
    requires Proper(d) && (base == 8 || base == 16) && !f.left && f.zeropad && !f.precision
    ensures var m := if base == 16 then 2 else 1;
      IsoMarked(d, false, base, 0, width, f) ==
        (if base == 16 then Prefix(base, f) else "0") + Fill('0', Minus(width, m + |d|)) + Reverse(d)
  {
    assert Reverse(d)[0] == d[|d| - 1];
    assert Fill('0', 0) + Reverse(d) == Reverse(d);
    if base == 8 {
      var gap := Minus(width, 1 + |d|);
      assert "" + Fill('0', gap) + ("0" + Reverse(d)) == "0" + Fill('0', gap) + Reverse(d);
    }
  }

  /** What is stored: the zeros dropped are those the prefix needs. */
  lemma StoredZeros(d: string, base: nat, width: nat, f: Flags)
    requires Proper(d) && (base == 8 || base == 16) && HashFlags(0, f) && !f.left && f.zeropad && !f.precision
    requires |d| != width
    ensures var m := if base == 16 then 2 else 1;
      var s := Hashed(Padded(d, 0, width, f), base, 0, width, f);
      && (width < |d| || |d| + m <= width <= SCRATCH ==> s == d + Fill('0', Minus(width, m + |d|)) + Mark(base, f))
      && (|d| < width <= SCRATCH ==> |s| == width)
      && (SCRATCH < width ==> |s| == SCRATCH)
  {
    var m := if base == 16 then 2 else 1;
    var p := PadTo(d, width);
    assert Padded(d, 0, width, f) == p by {
      assert d + Fill('0', 0) == d;
    }
    if |d| < width <= SCRATCH {
      assert p == d + Fill('0', width - |d|);
      var t := p[..width - m];
      assert Hashed(p, base, 0, width, f) == t + Mark(base, f);
      if |d| + m <= width {
        assert t == d + Fill('0', width - m - |d|);
      }
    }
  }

  lemma ZerosIff(d: string, base: nat, width: nat, f: Flags)
    requires Proper(d) && (base == 8 || base == 16) && HashFlags(0, f) && !f.left && f.zeropad && !f.precision
    requires |d| != width
    ensures Formatted(d, false, base, 0, width, f) == IsoMarked(d, false, base, 0, width, f)
      <==> width < |d| || |d| + (if base == 16 then 2 else 1) <= width <= SCRATCH
  {
    FormattedIs(d, base, 0, width, f);
    MarkedZeros(d, base, width, f);
    StoredZeros(d, base, width, f);
    hide Formatted, IsoMarked, Hashed, Padded;
    var gap := Minus(width, (if base == 16 then 2 else 1) + |d|);
    ReverseConcat(d + Fill('0', gap), Mark(base, f));
    ReverseConcat(d, Fill('0', gap));
    ReverseFill('0', gap);
    MarkReversed(base, f);
    Regroup(if base == 16 then Prefix(base, f) else "0", Fill('0', gap), Reverse(d));
  }

  // ------------------------------------------------------------- every case

  lemma MarkedIff(d: string, base: nat, prec: nat, width: nat, f: Flags)
    requires Proper(d) && (base == 8 || base == 16) && HashFlags(prec, f)
    ensures Formatted(d, false, base, prec, width, f) == IsoMarked(d, false, base, prec, width, f)
      <==> HashExact(|d|, base, prec, width, f)
  {
    hide Formatted, IsoMarked, Hashed, Padded, Body;
    if !f.precision && |d| == width {
      DigitsLost(d, base, width, f);
    } else if !f.precision && f.zeropad && !f.left {
      ZerosIff(d, base, width, f);
    } else {
      var s := Hashed(Padded(d, prec, width, f), base, prec, width, f);
      FormattedIs(d, base, prec, width, f);
      MarkedIs(d, base, prec, width, f);
      BodyDark(d, base, prec, f);
      if f.left || prec <= |d| {
        PrefixAlone(d, base, prec, width, f);
      } else {
        PrefixZeros(d, base, prec, width, f);
      }
      FieldsAgree(Reverse(s), Body(d, base, prec, f), width, f);
    }
  }

  lemma DigitsProper(value: nat, base: nat, f: Flags)
    requires (base == 8 || base == 16) && 0 < value < 0x1_0000_0000_0000_0000
    ensures Proper(Digits(value, base, f)) && Scratch(value, base, f) == Digits(value, base, f)
  {
    WideEnough(value, base, f.upper);
    LeadingDigit(value, base, f.upper);
    NoMarks(value, base, f.upper);
  }

  lemma {:induction false} NoMarks(v: nat, base: nat, upper: bool)
    requires 2 <= base <= 16
    ensures ' ' !in RevDigits(v, base, upper) && 'x' !in RevDigits(v, base, upper) && 'X' !in RevDigits(v, base, upper)
    decreases v
  {
    if Quot(v, base) > 0 {
      NoMarks(Quot(v, base), base, upper);
    }
  }

  lemma ZeroIff(base: nat, prec: nat, width: nat, f: Flags)
    requires (base == 8 || base == 16) && HashFlags(prec, f)
    ensures IntegerText(0, false, base, prec, width, f) == IsoMarked(Digits(0, base, f), true, base, prec, width, f)
      <==> (base == 8 && f.precision ==> prec > 0) && Exact(|Digits(0, base, f)|, "", prec, width, f)
  {
    var g := f.(hash := false);
    var d := Digits(0, base, f);
    IntegerIsIsoIff(0, false, base, prec, width, g);
    PlainZero(base, prec, width, f);
    hide IntegerText, IsoLayout, IsoDigits;
    if base == 8 {
      ZeroLeads(d, prec, f);
      if f.precision && prec == 0 {
        NoZero(width, f);
      }
    }
  }

  /** Without its prefix a zero is the plain field. */
  lemma PlainZero(base: nat, prec: nat, width: nat, f: Flags)
    requires (base == 8 || base == 16) && HashFlags(prec, f)
    ensures var g, d := f.(hash := false), Digits(0, base, f);
      && d == Digits(0, base, g)
      && IntegerText(0, false, base, prec, width, f) == IntegerText(0, false, base, prec, width, g)
      && IsoField(0, false, base, prec, width, g) == IsoLayout("", IsoDigits(d, prec), width, f)
      && (Exact(|d|, "", prec, width, f) <==> Exact(|d|, "", prec, width, g))
  {
    hide Formatted, Scratch;
  }

  lemma NoZero(width: nat, f: Flags)
    requires f.precision
    ensures IsoLayout("", "", width, f) != IsoLayout("", "0", width, f)
  {
    var x, y := IsoLayout("", "", width, f), IsoLayout("", "0", width, f);
    if width > 0 {
      var k := if f.left then 0 else width - 1;
      assert x[k] == ' ' && y[k] == '0';
    }
  }

  lemma ZeroLeads(d: string, prec: nat, f: Flags)
    requires d == Digits(0, 8, f) && HashFlags(prec, f)
    ensures LeadZero(IsoDigits(d, prec)) == if f.precision && prec == 0 then "0" else IsoDigits(d, prec)
    ensures f.precision && prec == 0 ==> IsoDigits(d, prec) == ""
  {
  }

  /** For every 64-bit value in base 8 or 16, and any width, precision and flags with '#', the text
      is the standard's field exactly under `HashExact`, or for a zero as without '#', save that a
      zero with precision 0 lacks the zero of base 8. */
  lemma MarkedIsIsoIff(value: nat, base: nat, prec: nat, width: nat, f: Flags)
    requires (base == 8 || base == 16) && value < 0x1_0000_0000_0000_0000 && HashFlags(prec, f)
    ensures IntegerText(value, false, base, prec, width, f) ==
        IsoMarked(Digits(value, base, f), value == 0, base, prec, width, f)
      <==> if value == 0 then (base == 8 && f.precision ==> prec > 0) && Exact(|Digits(value, base, f)|, "", prec, width, f)
           else HashExact(|Digits(value, base, f)|, base, prec, width, f)
  {
    hide Digits, Scratch, IsoMarked, HashExact, Formatted;
    if value == 0 {
      ZeroIff(base, prec, width, f);
    } else {
      DigitsProper(value, base, f);
      MarkedIff(Digits(value, base, f), base, prec, width, f);
    }
  }

  /** The same for the directives %#x, %#X and %#o of every size. */
  lemma MarkedDirectiveIsIsoIff(conv: char, v: int, width: nat, prec: nat, f: Flags)
    requires conv in "xXo" && f.hash && (!f.precision ==> prec == 0)
    ensures var g, base := Adjust(conv, f), if conv == 'o' then 8 else 16;
      var n := UnsignedArg(v, g);
      var d := Digits(n, base, g);
      IntegerConv(conv, v, width, prec, f) == IsoMarked(d, n == 0, base, prec, width, g)
      <==> if n == 0 then (base == 8 && f.precision ==> prec > 0) && Exact(|d|, "", prec, width, g)
           else HashExact(|d|, base, prec, width, g)
  {
    hide Digits, IsoMarked, HashExact, IntegerText;
    var g := Adjust(conv, f);
    MarkedIsIsoIff(UnsignedArg(v, g), if conv == 'o' then 8 else 16, prec, width, g);
  }

  /** "%#2x" with 0x12: the prefix takes both digits. */
  lemma WidthTakesDigits(v: int, f: Flags)
    requires v == 0x12 && f == NO_FLAGS.(hash := true)
    ensures IntegerConv('x', v, 2, 0, f) == "0x"
  {
    TwoDigits(v);
    BothTaken(f);
    hide RevDigits, Formatted;
    assert Adjust('x', f) == f && UnsignedArg(v, f) == v;
    assert Scratch(v, 16, f) == "21";
  }

  lemma BothTaken(f: Flags)
    requires f == NO_FLAGS.(hash := true)
    ensures Formatted("21", false, 16, 0, 2, f) == "0x"
  {
    FormattedIs("21", 16, 0, 2, f);
    hide Formatted;
    assert PadTo("21", 0) == "21" by {
      assert "21" + Fill('0', 0) == "21";
    }
    assert Hashed("21", 16, 0, 2, f) == "x0";
    assert Reverse("x0") == "0x";
    assert Fill(' ', 0) + "0x" == "0x";
  }

  lemma TwoDigits(v: nat)
    requires v == 0x12
    ensures RevDigits(v, 16, false) == "21"
  {
    QuotIs(v, 16);
    var q := Quot(v, 16);
    assert RevDigits(q, 16, false) == "1" + [] == "1";
    assert "2" + "1" == "21";
  }
}
