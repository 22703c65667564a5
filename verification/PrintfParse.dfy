/** The directive parser of _vsnprintf and the text of a whole format, as functions that follow the
    code of src/10.peripheral_timer/printf.c. */
module PrintfParse {
  import opened PrintfSpec

  /** A variadic argument; a wrong or missing one reads as 0 or as the empty string, where C leaves
      the result undefined. */
  datatype Arg = Num(value: int) | Str(text: string)

  function NumAt(args: seq<Arg>, k: nat): int {
    if k < |args| && args[k].Num? then args[k].value else 0
  }

  function StrAt(args: seq<Arg>, k: nat): string {
    if k < |args| && args[k].Str? then args[k].text else ""
  }

  /** The format character at i, and the terminator after the last one. */
  function At(fmt: string, i: nat): char {
    if i < |fmt| then fmt[i] else '\0'
  }

  /** Conversion to int, to long, and to short. */
  function ToInt(v: int): int {
    if v % 0x1_0000_0000 >= 0x8000_0000 then v % 0x1_0000_0000 - 0x1_0000_0000 else v % 0x1_0000_0000
  }

  function ToLong(v: int): int {
    if v % 0x1_0000_0000_0000_0000 >= 0x8000_0000_0000_0000
    then v % 0x1_0000_0000_0000_0000 - 0x1_0000_0000_0000_0000 else v % 0x1_0000_0000_0000_0000
  }

  function ToShort(v: int): int {
    if v % 0x1_0000 >= 0x8000 then v % 0x1_0000 - 0x1_0000 else v % 0x1_0000
  }

  predicate IsDigit(c: char) {
    '0' <= c <= '9'
  }

  predicate IsFlag(c: char) {
    c == '0' || c == '-' || c == '+' || c == ' ' || c == '#'
  }

  function AddFlag(f: Flags, c: char): Flags {
    f.(zeropad := f.zeropad || c == '0', left := f.left || c == '-', plus := f.plus || c == '+',
       space := f.space || c == ' ', hash := f.hash || c == '#')
  }

  /** How far a directive has been read: the next position and argument, and what was found. */
  datatype Cursor = Cursor(i: nat, k: nat, f: Flags, width: nat, prec: nat)

  function ParseFlags(fmt: string, c: Cursor): (r: Cursor)
    ensures c.i <= r.i && (c.i <= |fmt| ==> r.i <= |fmt|)
    ensures r.k == c.k && r.width == c.width && r.prec == c.prec && r.f.precision == c.f.precision
    decreases |fmt| - c.i
  {
    if IsFlag(At(fmt, c.i)) then ParseFlags(fmt, c.(i := c.i + 1, f := AddFlag(c.f, fmt[c.i]))) else c
  }

  /** _atoi: the value read, modulo 2^32, and the position after the digits. */
  function Atoi(fmt: string, i: nat, acc: nat): (r: (nat, nat))
    ensures i <= r.1 && (i <= |fmt| ==> r.1 <= |fmt|)
    decreases |fmt| - i
  {
    if IsDigit(At(fmt, i)) then Atoi(fmt, i + 1, (acc * 10 + (fmt[i] - '0') as nat) % 0x1_0000_0000) else (acc, i)
  }

  function ParseWidth(fmt: string, args: seq<Arg>, c: Cursor): (r: Cursor)
    ensures c.i <= r.i && (c.i <= |fmt| ==> r.i <= |fmt|)
    ensures r.prec == c.prec && r.f.precision == c.f.precision
  {
    if IsDigit(At(fmt, c.i)) then
      c.(width := Atoi(fmt, c.i, 0).0, i := Atoi(fmt, c.i, 0).1)
    else if At(fmt, c.i) == '*' then
      var w := ToInt(NumAt(args, c.k));
      c.(i := c.i + 1, k := c.k + 1, f := c.f.(left := c.f.left || w < 0), width := if w < 0 then -w else w)
    else c
  }

  function ParsePrec(fmt: string, args: seq<Arg>, c: Cursor): (r: Cursor)
    ensures c.i <= r.i && (c.i <= |fmt| ==> r.i <= |fmt|)
    ensures !r.f.precision ==> r.prec == 0
  {
    if At(fmt, c.i) != '.' then c.(prec := 0)
    else
      var d := c.(i := c.i + 1, f := c.f.(precision := true), prec := 0);
      if IsDigit(At(fmt, d.i)) then d.(prec := Atoi(fmt, d.i, 0).0, i := Atoi(fmt, d.i, 0).1)
      else if At(fmt, d.i) == '*' then
        var p := ToInt(NumAt(args, d.k));
        d.(i := d.i + 1, k := d.k + 1, prec := if p > 0 then p else 0)
      else d
  }

  /** ptrdiff_t, intmax_t and size_t have the size of long. */
  function ParseLength(fmt: string, c: Cursor): (r: Cursor)
    ensures c.i <= r.i && (c.i <= |fmt| ==> r.i <= |fmt|)
    ensures r.k == c.k && r.width == c.width && r.prec == c.prec && r.f.precision == c.f.precision
  {
    var h := At(fmt, c.i);
    if h == 'l' then
      if At(fmt, c.i + 1) == 'l' then c.(i := c.i + 2, f := c.f.(long := true, longlong := true))
      else c.(i := c.i + 1, f := c.f.(long := true))
    else if h == 'h' then
      if At(fmt, c.i + 1) == 'h' then c.(i := c.i + 2, f := c.f.(short := true, chr := true))
      else c.(i := c.i + 1, f := c.f.(short := true))
    else if h == 't' || h == 'j' || h == 'z' then c.(i := c.i + 1, f := c.f.(long := true))
    else c
  }

  function Begin(i: nat, k: nat): Cursor {
    Cursor(i, k, NO_FLAGS, 0, 0)
  }

  /** The parts of a directive in the order they are read: '%', flags, width, precision, length. */
  function ReadParts(fmt: string, args: seq<Arg>, c: Cursor, part: nat): (r: Cursor)
    requires part <= 5
    ensures c.i <= r.i && (part == 0 ==> c.i < r.i)
    ensures (if part == 0 then c.i < |fmt| else c.i <= |fmt|) ==> r.i <= |fmt|
    ensures part <= 3 || (!c.f.precision ==> c.prec == 0) ==> (!r.f.precision ==> r.prec == 0)
    decreases 5 - part
  {
    if part == 0 then ReadParts(fmt, args, c.(i := c.i + 1), 1)
    else if part == 1 then ReadParts(fmt, args, ParseFlags(fmt, c), 2)
    else if part == 2 then ReadParts(fmt, args, ParseWidth(fmt, args, c), 3)
    else if part == 3 then ReadParts(fmt, args, ParsePrec(fmt, args, c), 4)
    else if part == 4 then ReadParts(fmt, args, ParseLength(fmt, c), 5)
    else c
  }

  /** The directive whose '%' is at i, up to the conversion character, which is at the result's
      position. */
  function Directive(fmt: string, args: seq<Arg>, i: nat, k: nat): (r: Cursor)
    ensures i < r.i && (i < |fmt| ==> r.i <= |fmt|)
    ensures !r.f.precision ==> r.prec == 0
  {
    ReadParts(fmt, args, Begin(i, k), 0)
  }

  // ------------------------------------------------------------- conversions

  predicate IsSigned(conv: char) {
    conv == 'd' || conv == 'i'
  }

  predicate IsInteger(conv: char) {
    IsSigned(conv) || conv == 'u' || conv == 'x' || conv == 'X' || conv == 'o' || conv == 'b'
  }

  predicate IsFloat(conv: char) {
    conv == 'f' || conv == 'F' || conv == 'e' || conv == 'E' || conv == 'g' || conv == 'G'
  }

  function BaseOf(conv: char): (b: nat)
    ensures 2 <= b <= 16
  {
    if conv == 'x' || conv == 'X' then 16 else if conv == 'o' then 8 else if conv == 'b' then 2 else 10
  }

  /** The flags after the adjustments for an integer conversion. */
  function Adjust(conv: char, f: Flags): Flags {
    f.(hash := f.hash && BaseOf(conv) != 10, upper := f.upper || conv == 'X',
       plus := f.plus && IsSigned(conv), space := f.space && IsSigned(conv),
       zeropad := f.zeropad && !f.precision)
  }

  /** The argument in the type that the length modifier names; plain char is unsigned here. */
  function SignedArg(v: int, f: Flags): int {
    if f.longlong || f.long then ToLong(v)
    else if f.chr then v % 0x100 else if f.short then ToShort(v) else ToInt(v)
  }

  function UnsignedArg(v: int, f: Flags): nat {
    if f.longlong || f.long then v % 0x1_0000_0000_0000_0000
    else if f.chr then v % 0x100 else if f.short then v % 0x1_0000 else v % 0x1_0000_0000
  }

  function Magnitude(v: int): nat {
    if v > 0 then v else -v
  }

  function IntegerConv(conv: char, v: int, width: nat, prec: nat, f: Flags): string {
    var g := Adjust(conv, f);
    if IsSigned(conv) then
      IntegerText(Magnitude(SignedArg(v, g)), SignedArg(v, g) < 0, BaseOf(conv), prec, width, g)
    else
      IntegerText(UnsignedArg(v, g), false, BaseOf(conv), prec, width, g)
  }

  /** sizeof(void*) * 2 */
  const POINTER_WIDTH: nat := 16

  predicate TakesArg(conv: char) {
    IsInteger(conv) || conv == 'c' || conv == 's' || conv == 'p'
  }

  /** The text of one directive; floating-point conversions are not part of this model. */
  function Conversion(args: seq<Arg>, conv: char, c: Cursor): string {
    if IsInteger(conv) then IntegerConv(conv, NumAt(args, c.k), c.width, c.prec, c.f)
    else if conv == 'c' then Justified([(NumAt(args, c.k) % 0x100) as char], c.width, c.f)
    else if conv == 's' then StringText(StrAt(args, c.k), c.prec, c.width, c.f)
    else if conv == 'p' then
      IntegerText(NumAt(args, c.k) % 0x1_0000_0000_0000_0000, false, 16, c.prec, POINTER_WIDTH, c.f.(zeropad := true, upper := true))
    else [conv]
  }

  function NextArg(conv: char, k: nat): nat {
    if TakesArg(conv) then k + 1 else k
  }

  /** What a format says, in order: a character printed as it is, or a conversion with all that was
      read before it.  A directive cut off by the terminator ends the list with Cut. */
  datatype Pieces = End | Cut | Plain(c: char, rest: Pieces) | Converted(conv: char, at: Cursor, rest: Pieces)

  /** The pieces of the format from position i on, with arguments from k on. */
  function Parse(fmt: string, i: nat, args: seq<Arg>, k: nat): Pieces
    decreases |fmt| - i
  {
    if i >= |fmt| then End
    else if fmt[i] != '%' then Plain(fmt[i], Parse(fmt, i + 1, args, k))
    else
      var c := Directive(fmt, args, i, k);
      if c.i >= |fmt| then Cut
      else Converted(fmt[c.i], c, Parse(fmt, c.i + 1, args, NextArg(fmt[c.i], c.k)))
  }

  /** No directive is cut off, and none converts a floating-point number. */
  predicate Whole(ps: Pieces) {
    match ps
    case End => true
    case Cut => false
    case Plain(_, rest) => Whole(rest)
    case Converted(conv, _, rest) => !IsFloat(conv) && Whole(rest)
  }

  function TextOf(args: seq<Arg>, ps: Pieces): string
    requires Whole(ps)
  {
    match ps
    case End => ""
    case Plain(c, rest) => [c] + TextOf(args, rest)
    case Converted(conv, at, rest) => Conversion(args, conv, at) + TextOf(args, rest)
  }

  predicate Complete(fmt: string, args: seq<Arg>) {
    Whole(Parse(fmt, 0, args, 0))
  }

  /** The untruncated output of a format. */
  function Output(fmt: string, args: seq<Arg>): string
    requires Complete(fmt, args)
  {
    TextOf(args, Parse(fmt, 0, args, 0))
  }
}
