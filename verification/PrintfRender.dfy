/** The directive parser inverts rendering: every directive written as '%', flags in any order and
    number, width, precision, length and conversion is read back exactly and consumed exactly, so a
    format made of literals and directives prints the concatenation of what its parts mean. */
module PrintfRender {
  import opened PrintfSpec
  import opened PrintfField
  import opened PrintfParse

  /** A width or precision as written. */
  datatype Count = Absent | Star | Written(digits: string)

  datatype Length = Plain | Long | LongLong | Short | Char | Ptrdiff | Intmax | Size

  datatype Spec = Spec(flags: string, width: Count, dot: bool, prec: Count, length: Length, conv: char)

  predicate AllDigits(s: string) {
    forall k :: 0 <= k < |s| ==> '0' <= s[k] <= '9'
  }

  predicate AllFlags(s: string) {
    forall k :: 0 <= k < |s| ==> s[k] in "0-+ #"
  }

  /** A written width does not begin with '0', which would be a flag. */
  predicate WellFormed(s: Spec) {
    && AllFlags(s.flags)
    && (s.width.Written? ==> s.width.digits != "" && AllDigits(s.width.digits) && s.width.digits[0] != '0')
    && (!s.dot ==> s.prec.Absent?)
    && (s.prec.Written? ==> s.prec.digits != "" && AllDigits(s.prec.digits))
    && s.conv in "diuxXobcsp%"
  }

  function CountText(c: Count): string {
    match c
    case Absent => ""
    case Star => "*"
    case Written(d) => d
  }

  function LengthText(l: Length): string {
    match l
    case Plain => ""
    case Long => "l"
    case LongLong => "ll"
    case Short => "h"
    case Char => "hh"
    case Ptrdiff => "t"
    case Intmax => "j"
    case Size => "z"
  }

  /** A directive is written in five parts and its conversion character. */
  const PARTS: nat := 5

  function PartText(s: Spec, part: nat): string
    requires part < PARTS
  {
    if part == 0 then "%"
    else if part == 1 then s.flags
    else if part == 2 then CountText(s.width)
    else if part == 3 then (if s.dot then "." + CountText(s.prec) else "")
    else LengthText(s.length)
  }

  function RenderFrom(s: Spec, part: nat): (r: string)
    requires part <= PARTS
    ensures r != ""
    decreases PARTS - part
  {
    if part == PARTS then [s.conv] else PartText(s, part) + RenderFrom(s, part + 1)
  }

  function Render(s: Spec): string {
    RenderFrom(s, 0)
  }

  // ------------------------------------------------------------- what a directive means

  function WithFlags(f: Flags, flags: string): Flags {
    f.(zeropad := f.zeropad || '0' in flags, left := f.left || '-' in flags, plus := f.plus || '+' in flags,
       space := f.space || ' ' in flags, hash := f.hash || '#' in flags)
  }

  function WithLength(f: Flags, l: Length): Flags {
    match l
    case Plain => f
    case LongLong => f.(long := true, longlong := true)
    case Short => f.(short := true)
    case Char => f.(short := true, chr := true)
    case _ => f.(long := true)
  }

  /** The argument of a star. */
  function StarArg(args: seq<Arg>, k: nat): int {
    ToInt(NumAt(args, k))
  }

  /** A negative width argument asks for left justification. */
  function WithWidth(w: Count, args: seq<Arg>, c: Cursor): Cursor {
    match w
    case Absent => c
    case Written(d) => c.(width := ReadBack(d, 10) % 0x1_0000_0000)
    case Star =>
      var v := StarArg(args, c.k);
      c.(k := c.k + 1, f := c.f.(left := c.f.left || v < 0), width := Magnitude(v))
  }

  function WithPrec(s: Spec, args: seq<Arg>, c: Cursor): Cursor {
    if !s.dot then c.(prec := 0)
    else
      var d := c.(f := c.f.(precision := true), prec := 0);
      match s.prec
      case Absent => d
      case Written(digits) => d.(prec := ReadBack(digits, 10) % 0x1_0000_0000)
      case Star => d.(k := d.k + 1, prec := if StarArg(args, d.k) > 0 then StarArg(args, d.k) else 0)
  }

  function WithPart(s: Spec, args: seq<Arg>, c: Cursor, part: nat): Cursor
    requires part < PARTS
  {
    var n := c.i + |PartText(s, part)|;
    if part == 0 then c.(i := n)
    else if part == 1 then c.(i := n, f := WithFlags(c.f, s.flags))
    else if part == 2 then WithWidth(s.width, args, c).(i := n)
    else if part == 3 then WithPrec(s, args, c).(i := n)
    else c.(i := n, f := WithLength(c.f, s.length))
  }

  function MeaningFrom(s: Spec, args: seq<Arg>, c: Cursor, part: nat): Cursor
    requires part <= PARTS
    decreases PARTS - part
  {
    if part == PARTS then c else MeaningFrom(s, args, WithPart(s, args, c, part), part + 1)
  }

  /** What a directive that starts at i and takes arguments from k on says. */
  function Meaning(s: Spec, args: seq<Arg>, i: nat, k: nat): Cursor {
    MeaningFrom(s, args, Begin(i, k), 0)
  }

  // ------------------------------------------------------------- reading the parts back

  /** `part` stands at position i of the format. */
  predicate Stands(fmt: string, i: nat, part: string) {
    i + |part| <= |fmt| && fmt[i..i + |part|] == part
  }

  lemma StandsSplit(fmt: string, i: nat, a: string, b: string)
    requires Stands(fmt, i, a + b)
    ensures Stands(fmt, i, a) && Stands(fmt, i + |a|, b)
  {
    var n := i + |a + b|;
    assert fmt[i..i + |a|] == fmt[i..n][..|a|] == a;
    assert fmt[i + |a|..n] == fmt[i..n][|a|..] == b;
  }

  lemma StandsFirst(fmt: string, i: nat, part: string)
    requires Stands(fmt, i, part) && part != ""
    ensures At(fmt, i) == part[0] && Stands(fmt, i + 1, part[1..])
  {
    assert part == [part[0]] + part[1..];
    StandsSplit(fmt, i, [part[0]], part[1..]);
    assert fmt[i..i + 1][0] == part[0];
  }

  function AddFlags(f: Flags, flags: string): Flags
    decreases |flags|
  {
    if flags == "" then f else AddFlags(AddFlag(f, flags[0]), flags[1..])
  }

  lemma {:induction false} AddFlagsBits(f: Flags, flags: string)
    ensures AddFlags(f, flags) == WithFlags(f, flags)
    decreases |flags|
  {
    if flags != "" {
      AddFlagsBits(AddFlag(f, flags[0]), flags[1..]);
      assert flags == [flags[0]] + flags[1..];
    }
  }

  lemma {:induction false} FlagsRead(fmt: string, c: Cursor, flags: string)
    requires AllFlags(flags) && Stands(fmt, c.i, flags) && !IsFlag(At(fmt, c.i + |flags|))
    ensures ParseFlags(fmt, c) == c.(i := c.i + |flags|, f := AddFlags(c.f, flags))
    decreases |flags|
  {
    if flags != "" {
      StandsFirst(fmt, c.i, flags);
      FlagsRead(fmt, c.(i := c.i + 1, f := AddFlag(c.f, flags[0])), flags[1..]);
    }
  }

  /** The value of the digits read after an accumulator. */
  function Accumulate(acc: nat, digits: string): nat
    decreases |digits|
  {
    if digits == "" then acc else Accumulate(acc * 10 + DigitValue(digits[0]), digits[1..])
  }

  lemma {:induction false} AccumulateLast(acc: nat, digits: string, c: char)
    ensures Accumulate(acc, digits + [c]) == Accumulate(acc, digits) * 10 + DigitValue(c)
    decreases |digits|
  {
    if digits == "" {
      assert digits + [c] == [c];
      assert [c][1..] == "";
    } else {
      assert (digits + [c])[1..] == digits[1..] + [c];
      AccumulateLast(acc * 10 + DigitValue(digits[0]), digits[1..], c);
    }
  }

  lemma {:induction false} AccumulateIsReadBack(digits: string)
    ensures Accumulate(0, digits) == ReadBack(digits, 10)
    decreases |digits|
  {
    if digits != "" {
      var n := |digits| - 1;
      AccumulateIsReadBack(digits[..n]);
      AccumulateLast(0, digits[..n], digits[n]);
      assert digits[..n] + [digits[n]] == digits;
    }
  }

  lemma {:induction false} AccumulateMod(a: nat, b: nat, digits: string)
    requires a % 0x1_0000_0000 == b % 0x1_0000_0000
    ensures Accumulate(a, digits) % 0x1_0000_0000 == Accumulate(b, digits) % 0x1_0000_0000
    decreases |digits|
  {
    if digits != "" {
      var d := DigitValue(digits[0]);
      TimesTen(a, d);
      TimesTen(b, d);
      AccumulateMod(a * 10 + d, b * 10 + d, digits[1..]);
    }
  }

  lemma TimesTen(a: nat, d: nat)
    ensures (a * 10 + d) % 0x1_0000_0000 == ((a % 0x1_0000_0000) * 10 + d) % 0x1_0000_0000
  {
    AddMultiple((a % 0x1_0000_0000) * 10 + d, (a / 0x1_0000_0000) * 10);
  }

  lemma AddMultiple(x: nat, m: nat)
    ensures (x + m * 0x1_0000_0000) % 0x1_0000_0000 == x % 0x1_0000_0000
  {
  }

  /** _atoi reads the whole digit string, to its value modulo 2^32. */
  lemma {:induction false} AtoiReads(fmt: string, i: nat, acc: nat, digits: string)
    requires AllDigits(digits) && Stands(fmt, i, digits) && !IsDigit(At(fmt, i + |digits|)) && acc < 0x1_0000_0000
    ensures Atoi(fmt, i, acc) == (Accumulate(acc, digits) % 0x1_0000_0000, i + |digits|)
    decreases |digits|
  {
    if digits != "" {
      StandsFirst(fmt, i, digits);
      var next := acc * 10 + DigitValue(digits[0]);
      AtoiReads(fmt, i + 1, next % 0x1_0000_0000, digits[1..]);
      AccumulateMod(next % 0x1_0000_0000, next, digits[1..]);
    }
  }

  lemma DigitsRead10(fmt: string, i: nat, digits: string)
    requires AllDigits(digits) && Stands(fmt, i, digits) && !IsDigit(At(fmt, i + |digits|))
    ensures Atoi(fmt, i, 0) == (ReadBack(digits, 10) % 0x1_0000_0000, i + |digits|)
  {
    AtoiReads(fmt, i, 0, digits);
    AccumulateIsReadBack(digits);
  }

  lemma {:induction false} DecimalDigits(v: nat, upper: bool)
    ensures AllDigits(RevDigits(v, 10, upper))
    decreases v
  {
    if Quot(v, 10) != 0 {
      DecimalDigits(Quot(v, 10), upper);
    }
  }

  /** The plain decimal text of a value: digits only, which read back to it. */
  lemma PlainNumeral(v: nat) returns (text: string)
    requires v < 0x1_0000_0000_0000_0000
    ensures text == IntegerText(v, false, 10, 0, 0, NO_FLAGS)
    ensures AllDigits(text) && ReadBack(text, 10) == v
  {
    var d, field;
    ScratchIsDigits(v, 10, NO_FLAGS);
    text, field, d := Named(v, false, 10, 0, 0, NO_FLAGS);
    TextIff(d, "", 0, 0, NO_FLAGS);
    DigitsRead(v, 10, NO_FLAGS);
    DecimalDigits(v, false);
    FieldIsNumeral(d);
  }

  lemma FieldIsNumeral(d: string)
    ensures PrintfField.Field(d, "", 0, 0, NO_FLAGS) == Reverse(d)
    ensures AllDigits(d) ==> AllDigits(Reverse(d))
  {
  }

  /** _atoi undoes base-10 _ntoa_long for every 32-bit unsigned value, whatever follows it. */
  lemma AtoiUndoesNumeral(v: nat, rest: string) returns (text: string)
    requires v < 0x1_0000_0000 && (rest != "" ==> !IsDigit(rest[0]))
    ensures text == IntegerText(v, false, 10, 0, 0, NO_FLAGS)
    ensures Atoi(text + rest, 0, 0) == (v, |text|)
  {
    text := PlainNumeral(v);
    AtoiOfNumeral(text, rest, v);
  }

  lemma AtoiOfNumeral(text: string, rest: string, v: nat)
    requires AllDigits(text) && ReadBack(text, 10) == v < 0x1_0000_0000 && (rest != "" ==> !IsDigit(rest[0]))
    ensures Atoi(text + rest, 0, 0) == (v, |text|)
  {
    hide ReadBack, Atoi, AllDigits;
    var s := text + rest;
    assert s[..|text|] == text;
    assert At(s, |text|) == if rest == "" then '\0' else rest[0];
    DigitsRead10(s, 0, text);
  }

  // ------------------------------------------------------------- reading a directive back

  lemma CountRead(fmt: string, i: nat, digits: string)
    requires digits != "" && AllDigits(digits) && Stands(fmt, i, digits) && !IsDigit(At(fmt, i + |digits|))
    ensures IsDigit(At(fmt, i)) && Atoi(fmt, i, 0) == (ReadBack(digits, 10) % 0x1_0000_0000, i + |digits|)
  {
    StandsFirst(fmt, i, digits);
    DigitsRead10(fmt, i, digits);
  }

  lemma WidthRead(fmt: string, args: seq<Arg>, w: Count, c: Cursor)
    requires w.Written? ==> w.digits != "" && AllDigits(w.digits)
    requires Stands(fmt, c.i, CountText(w))
    requires var next := At(fmt, c.i + |CountText(w)|); !IsDigit(next) && next != '*'
    ensures ParseWidth(fmt, args, c) == WithWidth(w, args, c).(i := c.i + |CountText(w)|)
  {
    match w {
      case Absent =>
      case Star => StandsFirst(fmt, c.i, "*");
      case Written(d) => CountRead(fmt, c.i, d);
    }
  }

  lemma PrecRead(fmt: string, args: seq<Arg>, s: Spec, c: Cursor)
    requires s.prec.Written? ==> s.prec.digits != "" && AllDigits(s.prec.digits)
    requires Stands(fmt, c.i, PartText(s, 3))
    requires var next := At(fmt, c.i + |PartText(s, 3)|); !IsDigit(next) && next != '*' && next != '.'
    ensures ParsePrec(fmt, args, c) == WithPrec(s, args, c).(i := c.i + |PartText(s, 3)|)
  {
    if s.dot {
      StandsSplit(fmt, c.i, ".", CountText(s.prec));
      StandsFirst(fmt, c.i, ".");
      match s.prec {
        case Absent =>
        case Star => StandsFirst(fmt, c.i + 1, "*");
        case Written(d) => CountRead(fmt, c.i + 1, d);
      }
    }
  }

  predicate LengthLetter(c: char) {
    c == 'l' || c == 'h' || c == 't' || c == 'j' || c == 'z'
  }

  lemma LengthRead(fmt: string, l: Length, c: Cursor)
    requires Stands(fmt, c.i, LengthText(l)) && !LengthLetter(At(fmt, c.i + |LengthText(l)|))
    ensures ParseLength(fmt, c) == c.(i := c.i + |LengthText(l)|, f := WithLength(c.f, l))
  {
    var t := LengthText(l);
    if t != "" {
      StandsFirst(fmt, c.i, t);
      if |t| == 2 {
        StandsFirst(fmt, c.i + 1, t[1..]);
      }
    }
  }

  /** What the rest of a directive can begin with, from each part on. */
  lemma {:induction false} RestBegins(s: Spec, part: nat)
    requires WellFormed(s) && 2 <= part <= PARTS
    ensures var c := RenderFrom(s, part)[0];
      && !IsFlag(c)
      && (part >= 3 ==> !IsDigit(c) && c != '*')
      && (part >= 4 ==> c != '.')
      && (part == 5 ==> !LengthLetter(c))
    decreases PARTS - part
  {
    if part < PARTS {
      RestBegins(s, part + 1);
      var t := PartText(s, part);
      if t != "" {
        assert RenderFrom(s, part)[0] == t[0];
      } else {
        assert RenderFrom(s, part) == RenderFrom(s, part + 1);
      }
    }
  }

  /** Where the text of a part ends and the rest begins. */
  lemma PartStands(fmt: string, i: nat, s: Spec, part: nat) returns (next: char)
    requires WellFormed(s) && 1 <= part < PARTS && Stands(fmt, i, RenderFrom(s, part))
    ensures var n := i + |PartText(s, part)|;
      && Stands(fmt, i, PartText(s, part)) && Stands(fmt, n, RenderFrom(s, part + 1)) && next == At(fmt, n)
      && |RenderFrom(s, part)| == |PartText(s, part)| + |RenderFrom(s, part + 1)|
    ensures !IsFlag(next)
    ensures part >= 2 ==> !IsDigit(next) && next != '*'
    ensures part >= 3 ==> next != '.'
    ensures part == 4 ==> !LengthLetter(next)
  {
    hide WellFormed, PartText;
    StandsSplit(fmt, i, PartText(s, part), RenderFrom(s, part + 1));
    hide Stands;
    StandsFirst(fmt, i + |PartText(s, part)|, RenderFrom(s, part + 1));
    RestBegins(s, part + 1);
    next := RenderFrom(s, part + 1)[0];
    assert RenderFrom(s, part) == PartText(s, part) + RenderFrom(s, part + 1);
    hide RenderFrom, PartText, WellFormed, IsFlag, IsDigit, LengthLetter;
  }

  /** From a part on, parsing the rendering recovers what is left and stops at the conversion. */
  predicate Recovered(fmt: string, args: seq<Arg>, s: Spec, c: Cursor, part: nat)
    requires part <= PARTS
  {
    var end := c.i + |RenderFrom(s, part)| - 1;
    && ReadParts(fmt, args, c, part) == MeaningFrom(s, args, c, part)
    && ReadParts(fmt, args, c, part).i == end < |fmt| && fmt[end] == s.conv
  }

  lemma FromConversion(fmt: string, args: seq<Arg>, s: Spec, c: Cursor)
    requires WellFormed(s) && Stands(fmt, c.i, RenderFrom(s, 5))
    ensures Recovered(fmt, args, s, c, 5)
  {
    StandsFirst(fmt, c.i, [s.conv]);
  }

  lemma LengthPartIs(fmt: string, args: seq<Arg>, s: Spec, c: Cursor, next: char)
    requires WellFormed(s) && Stands(fmt, c.i, PartText(s, 4))
    requires next == At(fmt, c.i + |PartText(s, 4)|) && !LengthLetter(next)
    ensures ParseLength(fmt, c) == WithPart(s, args, c, 4)
  {
    LengthRead(fmt, s.length, c);
  }

  lemma LengthPartRead(fmt: string, args: seq<Arg>, s: Spec, c: Cursor) returns (d: Cursor)
    requires WellFormed(s) && Stands(fmt, c.i, RenderFrom(s, 4))
    ensures d.i == c.i + |PartText(s, 4)| && Stands(fmt, d.i, RenderFrom(s, 5))
    ensures ReadParts(fmt, args, c, 4) == ReadParts(fmt, args, d, 5)
    ensures MeaningFrom(s, args, c, 4) == MeaningFrom(s, args, d, 5)
  {
    hide ParseFlags, ParseWidth, ParsePrec, ParseLength, WithFlags, WithWidth, WithPrec, WithLength;
    hide WellFormed, Stands, At, RenderFrom;
    var next := PartStands(fmt, c.i, s, 4);
    LengthPartIs(fmt, args, s, c, next);
    d := WithPart(s, args, c, 4);
  }

  lemma PrecPartIs(fmt: string, args: seq<Arg>, s: Spec, c: Cursor, next: char)
    requires WellFormed(s) && Stands(fmt, c.i, PartText(s, 3))
    requires next == At(fmt, c.i + |PartText(s, 3)|) && !IsDigit(next) && next != '*' && next != '.'
    ensures ParsePrec(fmt, args, c) == WithPart(s, args, c, 3)
  {
    PrecRead(fmt, args, s, c);
  }

  lemma PrecPartRead(fmt: string, args: seq<Arg>, s: Spec, c: Cursor) returns (d: Cursor)
    requires WellFormed(s) && Stands(fmt, c.i, RenderFrom(s, 3))
    ensures d.i == c.i + |PartText(s, 3)| && Stands(fmt, d.i, RenderFrom(s, 4))
    ensures ReadParts(fmt, args, c, 3) == ReadParts(fmt, args, d, 4)
    ensures MeaningFrom(s, args, c, 3) == MeaningFrom(s, args, d, 4)
  {
    hide ParseFlags, ParseWidth, ParsePrec, ParseLength, WithFlags, WithWidth, WithPrec, WithLength;
    hide WellFormed, Stands, At, RenderFrom;
    var next := PartStands(fmt, c.i, s, 3);
    PrecPartIs(fmt, args, s, c, next);
    d := WithPart(s, args, c, 3);
  }

  lemma WidthPartIs(fmt: string, args: seq<Arg>, s: Spec, c: Cursor, next: char)
    requires WellFormed(s) && Stands(fmt, c.i, PartText(s, 2))
    requires next == At(fmt, c.i + |PartText(s, 2)|) && !IsDigit(next) && next != '*'
    ensures ParseWidth(fmt, args, c) == WithPart(s, args, c, 2)
  {
    WidthRead(fmt, args, s.width, c);
  }

  lemma WidthPartRead(fmt: string, args: seq<Arg>, s: Spec, c: Cursor) returns (d: Cursor)
    requires WellFormed(s) && Stands(fmt, c.i, RenderFrom(s, 2))
    ensures d.i == c.i + |PartText(s, 2)| && Stands(fmt, d.i, RenderFrom(s, 3))
    ensures ReadParts(fmt, args, c, 2) == ReadParts(fmt, args, d, 3)
    ensures MeaningFrom(s, args, c, 2) == MeaningFrom(s, args, d, 3)
  {
    hide ParseFlags, ParseWidth, ParsePrec, ParseLength, WithFlags, WithWidth, WithPrec, WithLength;
    hide WellFormed, Stands, At, RenderFrom;
    var next := PartStands(fmt, c.i, s, 2);
    WidthPartIs(fmt, args, s, c, next);
    d := WithPart(s, args, c, 2);
  }

  lemma FlagsPartIs(fmt: string, args: seq<Arg>, s: Spec, c: Cursor, next: char)
    requires WellFormed(s) && Stands(fmt, c.i, PartText(s, 1))
    requires next == At(fmt, c.i + |PartText(s, 1)|) && !IsFlag(next)
    ensures ParseFlags(fmt, c) == WithPart(s, args, c, 1)
  {
    FlagsRead(fmt, c, s.flags);
    AddFlagsBits(c.f, s.flags);
  }

  lemma FlagsPartRead(fmt: string, args: seq<Arg>, s: Spec, c: Cursor) returns (d: Cursor)
    requires WellFormed(s) && Stands(fmt, c.i, RenderFrom(s, 1))
    ensures d.i == c.i + |PartText(s, 1)| && Stands(fmt, d.i, RenderFrom(s, 2))
    ensures ReadParts(fmt, args, c, 1) == ReadParts(fmt, args, d, 2)
    ensures MeaningFrom(s, args, c, 1) == MeaningFrom(s, args, d, 2)
  {
    hide ParseFlags, ParseWidth, ParsePrec, ParseLength, WithFlags, WithWidth, WithPrec, WithLength;
    hide WellFormed, Stands, At, RenderFrom;
    var next := PartStands(fmt, c.i, s, 1);
    FlagsPartIs(fmt, args, s, c, next);
    d := WithPart(s, args, c, 1);
  }

  lemma FromLength(fmt: string, args: seq<Arg>, s: Spec, c: Cursor)
    requires WellFormed(s) && Stands(fmt, c.i, RenderFrom(s, 4))
    ensures Recovered(fmt, args, s, c, 4)
  {
    hide ReadParts, MeaningFrom, WithPart, WellFormed, Stands, PartText, RenderFrom;
    var d := LengthPartRead(fmt, args, s, c);
    var next := PartStands(fmt, c.i, s, 4);
    FromConversion(fmt, args, s, d);
  }

  lemma FromPrec(fmt: string, args: seq<Arg>, s: Spec, c: Cursor)
    requires WellFormed(s) && Stands(fmt, c.i, RenderFrom(s, 3))
    ensures Recovered(fmt, args, s, c, 3)
  {
    hide ReadParts, MeaningFrom, WithPart, WellFormed, Stands, PartText, RenderFrom;
    var d := PrecPartRead(fmt, args, s, c);
    var next := PartStands(fmt, c.i, s, 3);
    FromLength(fmt, args, s, d);
  }

  lemma FromWidth(fmt: string, args: seq<Arg>, s: Spec, c: Cursor)
    requires WellFormed(s) && Stands(fmt, c.i, RenderFrom(s, 2))
    ensures Recovered(fmt, args, s, c, 2)
  {
    hide ReadParts, MeaningFrom, WithPart, WellFormed, Stands, PartText, RenderFrom;
    var d := WidthPartRead(fmt, args, s, c);
    var next := PartStands(fmt, c.i, s, 2);
    FromPrec(fmt, args, s, d);
  }

  lemma FromFlags(fmt: string, args: seq<Arg>, s: Spec, c: Cursor)
    requires WellFormed(s) && Stands(fmt, c.i, RenderFrom(s, 1))
    ensures Recovered(fmt, args, s, c, 1)
  {
    hide ReadParts, MeaningFrom, WithPart, WellFormed, Stands, PartText, RenderFrom;
    var d := FlagsPartRead(fmt, args, s, c);
    var next := PartStands(fmt, c.i, s, 1);
    FromWidth(fmt, args, s, d);
  }

  lemma FromStart(fmt: string, args: seq<Arg>, s: Spec, c: Cursor) returns (m: Cursor)
    requires WellFormed(s) && Stands(fmt, c.i, RenderFrom(s, 0))
    ensures At(fmt, c.i) == '%'
    ensures m == ReadParts(fmt, args, c, 0) && m == MeaningFrom(s, args, c, 0)
    ensures m.i == c.i + |RenderFrom(s, 0)| - 1 < |fmt| && fmt[m.i] == s.conv
  {
    hide ParseFlags, ParseWidth, ParsePrec, ParseLength, WithFlags, WithWidth, WithPrec, WithLength, WellFormed;
    StandsSplit(fmt, c.i, "%", RenderFrom(s, 1));
    StandsFirst(fmt, c.i, "%");
    var d := c.(i := c.i + 1);
    FromFlags(fmt, args, s, d);
    assert WithPart(s, args, c, 0) == d;
    m := ReadParts(fmt, args, d, 1);
  }

  /** Parsing a rendered directive recovers every part of it and stops at its conversion. */
  lemma ParseOfRender(fmt: string, args: seq<Arg>, s: Spec, i: nat, k: nat) returns (m: Cursor)
    requires WellFormed(s) && Stands(fmt, i, Render(s))
    ensures m == Directive(fmt, args, i, k) && m == Meaning(s, args, i, k)
    ensures m.i == i + |Render(s)| - 1 < |fmt| && fmt[i] == '%' && fmt[m.i] == s.conv
  {
    m := FromStart(fmt, args, s, Begin(i, k));
  }

  // ------------------------------------------------------------- whole formats

  /** A part of a format: characters printed as they are, or a directive. */
  datatype Item = Literal(text: string) | Field(spec: Spec)

  predicate ItemOk(item: Item) {
    match item
    case Literal(t) => '%' !in t
    case Field(s) => WellFormed(s)
  }

  predicate ItemsOk(items: seq<Item>) {
    forall j :: 0 <= j < |items| ==> ItemOk(items[j])
  }

  function RenderItem(item: Item): string {
    match item
    case Literal(t) => t
    case Field(s) => Render(s)
  }

  function RenderAll(items: seq<Item>): string
    decreases |items|
  {
    if items == [] then "" else RenderItem(items[0]) + RenderAll(items[1..])
  }

  function Prepend(t: string, ps: Pieces): Pieces
    decreases |t|
  {
    if t == "" then ps else Pieces.Plain(t[0], Prepend(t[1..], ps))
  }

  /** What the items say, one after the other, each taking its arguments in turn. */
  function Said(items: seq<Item>, args: seq<Arg>, i: nat, k: nat): Pieces
    decreases |items|
  {
    if items == [] then End
    else
      match items[0]
      case Literal(t) => Prepend(t, Said(items[1..], args, i + |t|, k))
      case Field(s) =>
        var m := Meaning(s, args, i, k);
        Converted(s.conv, m, Said(items[1..], args, m.i + 1, NextArg(s.conv, m.k)))
  }

  lemma {:induction false} LiteralParse(fmt: string, i: nat, t: string, args: seq<Arg>, k: nat)
    requires '%' !in t && Stands(fmt, i, t)
    ensures Parse(fmt, i, args, k) == Prepend(t, Parse(fmt, i + |t|, args, k))
    decreases |t|
  {
    hide Directive, NextArg;
    if t != "" {
      StandsFirst(fmt, i, t);
      LiteralParse(fmt, i + 1, t[1..], args, k);
    }
  }

  lemma NothingLeft(fmt: string, i: nat, args: seq<Arg>, k: nat)
    requires i <= |fmt| && fmt[i..] == RenderAll([])
    ensures Parse(fmt, i, args, k) == Said([], args, i, k)
  {
  }

  lemma SaidFirst(items: seq<Item>, args: seq<Arg>, i: nat, k: nat)
    requires items != []
    ensures Said(items, args, i, k) ==
      match items[0]
      case Literal(t) => Prepend(t, Said(items[1..], args, i + |t|, k))
      case Field(s) =>
        var m := Meaning(s, args, i, k);
        Converted(s.conv, m, Said(items[1..], args, m.i + 1, NextArg(s.conv, m.k)))
  {
  }

  lemma FieldParse(fmt: string, i: nat, s: Spec, args: seq<Arg>, k: nat, m: Cursor)
    requires m == Directive(fmt, args, i, k) && i < m.i < |fmt| && fmt[i] == '%' && fmt[m.i] == s.conv
    ensures Parse(fmt, i, args, k) == Converted(s.conv, m, Parse(fmt, m.i + 1, args, NextArg(s.conv, m.k)))
  {
    hide Directive, NextArg;
  }

  lemma ItemStands(fmt: string, i: nat, first: string, rest: string)
    requires i <= |fmt| && fmt[i..] == first + rest
    ensures Stands(fmt, i, first) && i + |first| <= |fmt| && fmt[i + |first|..] == rest
  {
    assert fmt[i..i + |first|] == fmt[i..][..|first|] == first;
    assert fmt[i + |first|..] == fmt[i..][|first|..] == rest;
  }

  lemma SplitItems(items: seq<Item>) returns (first: Item, rest: seq<Item>)
    requires items != []
    ensures items == [first] + rest && items[0] == first && items[1..] == rest && RenderAll(items) == RenderItem(first) + RenderAll(rest)
    ensures ItemsOk(items) ==> ItemOk(first) && ItemsOk(rest)
  {
    first, rest := items[0], items[1..];
    assert items == [items[0]] + items[1..];
  }

  /** A format parses to what its items say, whatever items it is made of. */
  lemma {:induction false} ParseOfItems(fmt: string, i: nat, items: seq<Item>, args: seq<Arg>, k: nat)
    requires ItemsOk(items) && i <= |fmt| && fmt[i..] == RenderAll(items)
    ensures Parse(fmt, i, args, k) == Said(items, args, i, k)
    decreases |items|
  {
    hide Directive, Meaning, WellFormed, Render, NextArg, Stands, Parse, Said, RenderAll, Prepend;
    if items == [] {
      NothingLeft(fmt, i, args, k);
    } else {
      var first, rest := SplitItems(items);
      SaidFirst(items, args, i, k);
      ItemStands(fmt, i, RenderItem(first), RenderAll(rest));
      match first {
        case Literal(t) =>
          ParseOfItems(fmt, i + |t|, rest, args, k);
          LiteralParse(fmt, i, t, args, k);
        case Field(s) =>
          var m := ParseOfRender(fmt, args, s, i, k);
          FieldParse(fmt, i, s, args, k, m);
          ParseOfItems(fmt, m.i + 1, rest, args, NextArg(s.conv, m.k));
      }
    }
  }

  /** The text of the items one after the other: literals as they are, directives as converted. */
  function Printed(items: seq<Item>, args: seq<Arg>, i: nat, k: nat): string
    decreases |items|
  {
    if items == [] then ""
    else
      match items[0]
      case Literal(t) => t + Printed(items[1..], args, i + |t|, k)
      case Field(s) =>
        var m := Meaning(s, args, i, k);
        Conversion(args, s.conv, m) + Printed(items[1..], args, m.i + 1, NextArg(s.conv, m.k))
  }

  lemma {:induction false} PrependText(args: seq<Arg>, t: string, ps: Pieces)
    requires Whole(ps)
    ensures Whole(Prepend(t, ps)) && TextOf(args, Prepend(t, ps)) == t + TextOf(args, ps)
    decreases |t|
  {
    hide Conversion;
    if t != "" {
      PrependText(args, t[1..], ps);
      assert t == [t[0]] + t[1..];
    }
  }

  lemma NeverFloat(s: Spec)
    requires WellFormed(s)
    ensures !IsFloat(s.conv)
  {
  }

  lemma {:induction false} SaidPrints(items: seq<Item>, args: seq<Arg>, i: nat, k: nat)
    requires ItemsOk(items)
    ensures Whole(Said(items, args, i, k))
    ensures TextOf(args, Said(items, args, i, k)) == Printed(items, args, i, k)
    decreases |items|
  {
    hide Meaning, Conversion, WellFormed, NextArg, IsFloat;
    if items != [] {
      assert ItemOk(items[0]);
      match items[0] {
        case Literal(t) =>
          SaidPrints(items[1..], args, i + |t|, k);
          PrependText(args, t, Said(items[1..], args, i + |t|, k));
        case Field(s) =>
          NeverFloat(s);
          var m := Meaning(s, args, i, k);
          SaidPrints(items[1..], args, m.i + 1, NextArg(s.conv, m.k));
      }
    }
  }

  /** A format made of any literals and directives is complete and prints what they mean. */
  lemma FormatPrints(items: seq<Item>, args: seq<Arg>)
    requires ItemsOk(items)
    ensures Complete(RenderAll(items), args)
    ensures Output(RenderAll(items), args) == Printed(items, args, 0, 0)
  {
    hide Meaning, Conversion, WellFormed, NextArg, IsFloat, Directive;
    assert RenderAll(items)[0..] == RenderAll(items);
    ParseOfItems(RenderAll(items), 0, items, args, 0);
    SaidPrints(items, args, 0, 0);
  }

  /** An integer directive without '#' prints the standard's field for its argument in the type
      the length names, exactly when `Exact` holds of its digits, sign, width and precision. */
  lemma DirectiveIsIsoIff(conv: char, v: int, width: nat, prec: nat, f: Flags)
    requires IsInteger(conv) && conv != 'b' && (f.hash ==> BaseOf(conv) == 10) && (!f.precision ==> prec == 0)
    ensures var g := Adjust(conv, f);
      var n := if IsSigned(conv) then SignedArg(v, g) else UnsignedArg(v, g);
      var iso := IsoField(Magnitude(n), n < 0, BaseOf(conv), prec, width, g);
      (IntegerConv(conv, v, width, prec, f) == iso) ==
      Exact(|Digits(Magnitude(n), BaseOf(conv), g)|, SignOf(n < 0, g), prec, width, g)
  {
    hide IntegerText, IsoField, Exact, Digits, SignOf;
    var g := Adjust(conv, f);
    var n := if IsSigned(conv) then SignedArg(v, g) else UnsignedArg(v, g);
    IntegerIsIsoIff(Magnitude(n), n < 0, BaseOf(conv), prec, width, g);
  }
}
