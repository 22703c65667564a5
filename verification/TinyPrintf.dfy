/** The formatting engine of src/10.peripheral_timer/printf.c as it runs: output sinks, the scratch
    buffer of the integer conversions, the directive parser and _vsnprintf. */
module TinyPrintf {
  import opened PrintfSpec
  import opened PrintfParse
  import opened PrintfField

  /** _out_buffer, _out_null, and _out_char or _out_fct. */
  datatype Kind = ToBuffer | ToNull | ToFunction

  function NonNul(s: string): (r: string)
    ensures '\0' !in r
    decreases |s|
  {
    if s == "" then ""
    else NonNul(s[..|s| - 1]) + (if s[|s| - 1] != '\0' then [s[|s| - 1]] else "")
  }

  /** A buffer that held `start` after `text` went to it, at most `maxlen` characters of it. */
  function Overlay(start: string, text: string, maxlen: nat): string
    requires maxlen <= |start|
  {
    var n := if |text| < maxlen then |text| else maxlen;
    text[..n] + start[n..]
  }

  lemma OverlayNext(start: string, text: string, c: char, maxlen: nat)
    requires maxlen <= |start|
    ensures Overlay(start, text + [c], maxlen) ==
      if |text| < maxlen then Overlay(start, text, maxlen)[|text| := c] else Overlay(start, text, maxlen)
  {
    if |text| < maxlen {
      var n := |text|;
      assert (text + [c])[..n + 1] == text + [c];
      assert text[..n] == text;
      assert start[n..] == [start[n]] + start[n + 1..];
    } else {
      assert (text + [c])[..maxlen] == text[..maxlen];
    }
  }

  /** Where the characters go.  `text` is everything output so far, truncated or not. */
  class Sink {
    const kind: Kind
    const buffer: array<char>
    const maxlen: nat
    var delivered: string
    ghost var text: string
    ghost const start: string
    ghost const before: string

    constructor (kind: Kind, buffer: array<char>, maxlen: nat, delivered: string)
      requires kind.ToBuffer? ==> maxlen <= buffer.Length
      ensures Valid() && text == "" && this.kind == kind && this.buffer == buffer && this.maxlen == maxlen
      ensures start == buffer[..] && before == delivered
    {
      this.kind, this.buffer, this.maxlen := kind, buffer, maxlen;
      this.delivered := delivered;
      text := "";
      start := buffer[..];
      before := delivered;
    }

    ghost predicate Valid()
      reads this, buffer
    {
      && |start| == buffer.Length
      && (kind.ToBuffer? ==> maxlen <= buffer.Length)
      && buffer[..] == (if kind.ToBuffer? then Overlay(start, text, maxlen) else start)
      && delivered == before + (if kind.ToFunction? then NonNul(text) else "")
    }

    /** The output call for the next character of the text. */
    method Out(c: char, idx: nat)
      requires Valid() && idx == |text|
      modifies this, buffer
      ensures Valid() && text == old(text) + [c]
    {
      match kind {
        case ToBuffer =>
          OverlayNext(start, text, c, maxlen);
          if idx < maxlen {
            buffer[idx] := c;
          }
        case ToNull =>
        case ToFunction =>
          assert (text + [c])[..|text|] == text;
          if c != '\0' {
            delivered := delivered + [c];
          }
      }
      text := text + [c];
    }

    /** The final out of a NUL, which is not part of the text. */
    method Terminate(idx: nat)
      requires Valid() && idx == |text|
      modifies this, buffer
      ensures text == old(text) && delivered == old(delivered)
      ensures kind.ToBuffer? && maxlen > 0 ==> buffer[..] == old(buffer[..])[Minimum(idx, maxlen - 1) := '\0']
      ensures !(kind.ToBuffer? && maxlen > 0) ==> buffer[..] == old(buffer[..])
    {
      var at: int := if idx < maxlen then idx else maxlen - 1;
      if kind.ToBuffer? && 0 <= at < maxlen {
        buffer[at] := '\0';
      }
    }
  }

  function Minimum(a: nat, b: nat): nat {
    if a < b then a else b
  }

  // ------------------------------------------------------------- small loops

  /** The padding loops of _out_rev. */
  method Pad(sink: Sink, c: char, idx0: nat, from: nat, to: nat) returns (idx: nat)
    requires sink.Valid() && idx0 == |sink.text|
    modifies sink, sink.buffer
    ensures sink.Valid() && sink.text == old(sink.text) + Fill(c, Minus(to, from)) && idx == |sink.text|
  {
    hide Fill, Overlay, NonNul;
    idx := idx0;
    var i := from;
    FillNext(c, 0);
    while i < to
      invariant from <= i && (from <= to ==> i <= to) && (from > to ==> i == from)
      invariant sink.Valid() && idx == |sink.text|
      invariant sink.text == old(sink.text) + Fill(c, i - from)
    {
      FillNext(c, i - from);
      sink.Out(c, idx);
      idx := idx + 1;
      i := i + 1;
    }
  }

  lemma ReverseNext(s: string, n: nat)
    requires n < |s|
    ensures Reverse(s)[..n + 1] == Reverse(s)[..n] + [s[|s| - 1 - n]]
  {
  }

  /** _out_rev */
  method OutReversed(sink: Sink, idx0: nat, buf: array<char>, len0: nat, width: nat, f: Flags) returns (idx: nat)
    requires sink.Valid() && idx0 == |sink.text| && len0 <= buf.Length && buf != sink.buffer
    modifies sink, sink.buffer
    ensures sink.Valid() && idx == |sink.text|
    ensures sink.text == old(sink.text) + OutRev(buf[..len0], width, f)
  {
    hide Fill, Overlay, NonNul, Reverse;
    ghost var s := buf[..len0];
    idx := idx0;
    ghost var left: string := "";
    if !f.left && !f.zeropad {
      idx := Pad(sink, ' ', idx, len0, width);
      left := Fill(' ', Minus(width, len0));
    }
    ghost var t := sink.text;
    assert t == old(sink.text) + left;
    idx := OutBackwards(sink, idx, buf, len0);
    ghost var right: string := "";
    if f.left {
      idx := Pad(sink, ' ', idx, idx - idx0, width);
      right := Fill(' ', Minus(width, len0));
    }
    assert sink.text == t + Reverse(s) + right;
    assert t + Reverse(s) + right == old(sink.text) + (left + Reverse(s) + right);
  }

  /** The loop of _out_rev over the scratch buffer, last character first. */
  method OutBackwards(sink: Sink, idx0: nat, buf: array<char>, len0: nat) returns (idx: nat)
    requires sink.Valid() && idx0 == |sink.text| && len0 <= buf.Length && buf != sink.buffer
    modifies sink, sink.buffer
    ensures sink.Valid() && idx == |sink.text|
    ensures sink.text == old(sink.text) + Reverse(buf[..len0])
  {
    hide Overlay, NonNul, Reverse;
    ghost var s := buf[..len0];
    idx := idx0;
    var len := len0;
    while len > 0
      invariant 0 <= len <= len0 && sink.Valid() && idx == |sink.text|
      invariant buf[..len0] == s
      invariant sink.text == old(sink.text) + Reverse(s)[..len0 - len]
    {
      ReverseNext(s, len0 - len);
      len := len - 1;
      sink.Out(buf[len], idx);
      idx := idx + 1;
    }
    assert Reverse(s)[..len0] == Reverse(s);
  }

  // ------------------------------------------------------------- integers

  /** A loop of leading zeros, up to n characters or a full scratch buffer. */
  method PadZeros(buf: array<char>, len0: nat, n: nat) returns (len: nat)
    requires buf.Length == SCRATCH && len0 <= SCRATCH
    modifies buf
    ensures len0 <= len <= SCRATCH && buf[..len] == PadTo(old(buf[..len0]), n)
  {
    len := len0;
    FillNext('0', 0);
    while len < n && len < SCRATCH
      invariant len0 <= len <= SCRATCH && (len0 < len ==> len <= n)
      invariant buf[..len] == old(buf[..len0]) + Fill('0', len - len0)
    {
      FillNext('0', len - len0);
      buf[len] := '0';
      len := len + 1;
      assert buf[..len] == buf[..len - 1] + ['0'];
    }
  }

  method Put(buf: array<char>, len0: nat, c: char) returns (len: nat)
    requires buf.Length == SCRATCH && len0 <= SCRATCH
    modifies buf
    ensures len <= SCRATCH && buf[..len] == Append(old(buf[..len0]), c)
  {
    len := len0;
    if len < SCRATCH {
      buf[len] := c;
      len := len + 1;
      assert buf[..len] == old(buf[..len0]) + [c];
    }
  }

  /** The '#' block of _ntoa_format. */
  method PutHash(buf: array<char>, len0: nat, base: nat, prec: nat, width: nat, f: Flags) returns (len: nat)
    requires buf.Length == SCRATCH && len0 <= SCRATCH && f.hash
    modifies buf
    ensures len <= SCRATCH && buf[..len] == Hashed(old(buf[..len0]), base, prec, width, f)
  {
    hide Append;
    len := len0;
    ghost var s := buf[..len0];
    if !f.precision && len > 0 && (len == prec || len == width) {
      len := len - 1;
      if len > 0 && base == 16 {
        len := len - 1;
      }
      assert buf[..len] == s[..len];
    }
    if base == 16 && !f.upper {
      len := Put(buf, len, 'x');
    } else if base == 16 && f.upper {
      len := Put(buf, len, 'X');
    } else if base == 2 {
      len := Put(buf, len, 'b');
    }
    len := Put(buf, len, '0');
  }

  method PutSign(buf: array<char>, len0: nat, negative: bool, f: Flags) returns (len: nat)
    requires buf.Length == SCRATCH && len0 <= SCRATCH
    modifies buf
    ensures len <= SCRATCH && buf[..len] == WithSign(old(buf[..len0]), negative, f)
  {
    len := len0;
    ghost var s := buf[..len0];
    if len < SCRATCH {
      if negative {
        len := Put(buf, len, '-');
      } else if f.plus {
        len := Put(buf, len, '+');
      } else if f.space {
        len := Put(buf, len, ' ');
      }
    }
  }

  /** The leading zeros of _ntoa_format; `w` is the width after making room for a sign. */
  method PutZeros(buf: array<char>, len0: nat, prec: nat, w: nat, f: Flags) returns (len: nat)
    requires buf.Length == SCRATCH && len0 <= SCRATCH
    modifies buf
    ensures len <= SCRATCH && buf[..len] == Padded(old(buf[..len0]), prec, w, f)
  {
    hide PadTo;
    len := len0;
    if !f.left {
      len := PadZeros(buf, len, prec);
      if f.zeropad {
        len := PadZeros(buf, len, w);
      }
    }
  }

  /** _ntoa_format */
  method NtoaFormat(sink: Sink, idx0: nat, buf: array<char>, len0: nat, negative: bool, base: nat,
                    prec: nat, width: nat, f: Flags)
    returns (idx: nat)
    requires sink.Valid() && idx0 == |sink.text| && buf != sink.buffer
    requires buf.Length == SCRATCH && len0 <= SCRATCH
    modifies sink, sink.buffer, buf
    ensures sink.Valid() && idx == |sink.text|
    ensures sink.text == old(sink.text) + Formatted(old(buf[..len0]), negative, base, prec, width, f)
  {
    hide Padded, Hashed, WithSign, OutRev, Overlay, NonNul;
    var w := width;
    if !f.left {
      if w > 0 && f.zeropad && (negative || f.plus || f.space) {
        w := w - 1;
      }
    }
    assert w == WidthLeft(width, negative, f);
    ghost var s := buf[..len0];
    var len := PutZeros(buf, len0, prec, w, f);
    if f.hash {
      len := PutHash(buf, len, base, prec, w, f);
    }
    assert buf[..len] == Hashed(Padded(s, prec, w, f), base, prec, w, f) by {
      if !f.hash {
        NoHash(Padded(s, prec, w, f), base, prec, w, f);
      }
    }
    len := PutSign(buf, len, negative, f);
    idx := OutReversed(sink, idx0, buf, len, w, f);
  }

  lemma NoHash(s: string, base: nat, prec: nat, width: nat, f: Flags)
    requires |s| <= SCRATCH && !f.hash
    ensures Hashed(s, base, prec, width, f) == s
  {
  }

  /** The conversion loop, which runs at least once and stops at a full scratch buffer. */
  method PutDigits(buf: array<char>, value0: nat, base: nat, upper: bool) returns (len: nat)
    requires buf.Length == SCRATCH && 2 <= base <= 16
    modifies buf
    ensures len <= SCRATCH
    ensures var s := RevDigits(value0, base, upper); buf[..len] == (if |s| <= SCRATCH then s else s[..SCRATCH])
  {
    hide RevDigits;
    ghost var s := RevDigits(value0, base, upper);
    var value: nat := value0;
    len := 0;
    while true
      invariant 0 <= len < SCRATCH && |s| > len
      invariant buf[..len] == s[..len] && RevDigits(value, base, upper) == s[len..]
      decreases SCRATCH - len
    {
      QuotIs(value, base);
      OneDigit(value, base, upper);
      ghost var rest := s[len..];
      buf[len] := DigitChar(value % base, upper);
      assert s[len] == rest[0];
      assert s[len + 1..] == rest[1..];
      len := len + 1;
      value := value / base;
      assert buf[..len] == buf[..len - 1] + [s[len - 1]] == s[..len];
      if !(value > 0 && len < SCRATCH) {
        break;
      }
    }
    if value == 0 {
      assert s[len..] == "";
    }
  }

  lemma OneDigit(value: nat, base: nat, upper: bool)
    requires 2 <= base <= 16
    ensures var s := RevDigits(value, base, upper);
      && s[0] == DigitChar(Rem(value, base), upper)
      && s[1..] == (if Quot(value, base) == 0 then "" else RevDigits(Quot(value, base), base, upper))
  {
  }

  /** _ntoa_long and _ntoa_long_long, which differ only in the type of the value. */
  method Ntoa(sink: Sink, idx0: nat, value: nat, negative: bool, base: nat, prec: nat, width: nat, f0: Flags)
    returns (idx: nat)
    requires sink.Valid() && idx0 == |sink.text| && 2 <= base <= 16
    modifies sink, sink.buffer
    ensures sink.Valid() && idx == |sink.text|
    ensures sink.text == old(sink.text) + IntegerText(value, negative, base, prec, width, f0)
  {
    hide RevDigits, Formatted, Overlay, NonNul;
    var f := f0;
    var buf := new char[SCRATCH];
    var len := 0;
    if value == 0 {
      f := f.(hash := false);
    }
    if !f.precision || value > 0 {
      len := PutDigits(buf, value, base, f.upper);
    }
    assert buf[..len] == Scratch(value, base, f);
    idx := NtoaFormat(sink, idx0, buf, len, negative, base, prec, width, f);
  }

  // ------------------------------------------------------------- the directive parser

  method ReadFlags(fmt: string, i0: nat, f0: Flags) returns (f: Flags, i: nat)
    ensures forall c: Cursor :: c.i == i0 && c.f == f0 ==> ParseFlags(fmt, c) == c.(i := i, f := f)
  {
    i, f := i0, f0;
    hide AddFlag, IsFlag;
    var n := true;
    while n
      invariant i0 <= i
      invariant n ==>
        forall c: Cursor :: c.i == i0 && c.f == f0 ==> ParseFlags(fmt, c) == ParseFlags(fmt, c.(i := i, f := f))
      invariant !n ==> forall c: Cursor :: c.i == i0 && c.f == f0 ==> ParseFlags(fmt, c) == c.(i := i, f := f)
      decreases n, |fmt| - i
    {
      f, n := ReadFlag(At(fmt, i), f);
      if n {
        i := i + 1;
      }
    }
  }

  /** The switch over one flag character. */
  method ReadFlag(c: char, f0: Flags) returns (f: Flags, n: bool)
    ensures n == IsFlag(c) && f == if n then AddFlag(f0, c) else f0
    ensures n ==> c != '\0'
  {
    f, n := f0, true;
    if c == '0' {
      f := f.(zeropad := true);
    } else if c == '-' {
      f := f.(left := true);
    } else if c == '+' {
      f := f.(plus := true);
    } else if c == ' ' {
      f := f.(space := true);
    } else if c == '#' {
      f := f.(hash := true);
    } else {
      n := false;
    }
  }

  /** _atoi */
  method ReadNumber(fmt: string, i0: nat) returns (v: nat, i: nat)
    ensures (v, i) == Atoi(fmt, i0, 0)
  {
    v, i := 0, i0;
    while IsDigit(At(fmt, i))
      invariant i0 <= i && Atoi(fmt, i0, 0) == Atoi(fmt, i, v)
      decreases |fmt| - i
    {
      v := (v * 10 + (fmt[i] - '0') as nat) % 0x1_0000_0000;
      i := i + 1;
    }
  }

  method ReadWidth(fmt: string, args: seq<Arg>, c: Cursor) returns (r: Cursor)
    requires c.width == 0
    ensures r == ParseWidth(fmt, args, c)
  {
    hide Atoi;
    r := c;
    if IsDigit(At(fmt, c.i)) {
      var v, i := ReadNumber(fmt, c.i);
      r := c.(width := v, i := i);
    } else if At(fmt, c.i) == '*' {
      var w := ToInt(NumAt(args, c.k));
      r := r.(k := r.k + 1);
      if w < 0 {
        r := r.(f := r.f.(left := true), width := -w);
      } else {
        r := r.(width := w);
      }
      r := r.(i := r.i + 1);
    }
  }

  method ReadPrec(fmt: string, args: seq<Arg>, c: Cursor) returns (r: Cursor)
    ensures r == ParsePrec(fmt, args, c)
  {
    hide Atoi;
    r := c.(prec := 0);
    if At(fmt, r.i) == '.' {
      r := r.(f := r.f.(precision := true), i := r.i + 1);
      if IsDigit(At(fmt, r.i)) {
        var v, i := ReadNumber(fmt, r.i);
        r := r.(prec := v, i := i);
      } else if At(fmt, r.i) == '*' {
        var prec := ToInt(NumAt(args, r.k));
        r := r.(k := r.k + 1, prec := if prec > 0 then prec else 0, i := r.i + 1);
      }
    }
  }

  method ReadLength(fmt: string, c: Cursor) returns (r: Cursor)
    ensures r == ParseLength(fmt, c)
  {
    r := c;
    var h := At(fmt, c.i);
    if h == 'l' {
      r := r.(f := r.f.(long := true), i := r.i + 1);
      if At(fmt, r.i) == 'l' {
        r := r.(f := r.f.(longlong := true), i := r.i + 1);
      }
    } else if h == 'h' {
      r := r.(f := r.f.(short := true), i := r.i + 1);
      if At(fmt, r.i) == 'h' {
        r := r.(f := r.f.(chr := true), i := r.i + 1);
      }
    } else if h == 't' || h == 'j' || h == 'z' {
      r := r.(f := r.f.(long := true), i := r.i + 1);
    }
  }

  lemma DirectiveIs(fmt: string, args: seq<Arg>, i: nat, k: nat, a: Cursor, b: Cursor, c: Cursor, d: Cursor)
    requires a == ParseFlags(fmt, Begin(i + 1, k)) && b == ParseWidth(fmt, args, a)
    requires c == ParsePrec(fmt, args, b) && d == ParseLength(fmt, c)
    ensures Directive(fmt, args, i, k) == d
  {
    hide ParseFlags, ParseWidth, ParsePrec, ParseLength;
    assert ReadParts(fmt, args, d, 5) == d;
    assert ReadParts(fmt, args, c, 4) == d;
    assert ReadParts(fmt, args, b, 3) == d;
    assert ReadParts(fmt, args, a, 2) == d;
    assert ReadParts(fmt, args, Begin(i + 1, k), 1) == d;
  }

  /** The evaluation of flags, width, precision and length of the directive whose '%' is at i. */
  method ReadDirective(fmt: string, args: seq<Arg>, i: nat, k: nat) returns (r: Cursor)
    ensures r == Directive(fmt, args, i, k)
  {
    hide ParseFlags, ParseWidth, ParsePrec, ParseLength, Directive;
    var f, j := ReadFlags(fmt, i + 1, NO_FLAGS);
    var a := Cursor(j, k, f, 0, 0);
    assert a == Begin(i + 1, k).(i := j, f := f);
    var b := ReadWidth(fmt, args, a);
    var c := ReadPrec(fmt, args, b);
    r := ReadLength(fmt, c);
    DirectiveIs(fmt, args, i, k, a, b, c, r);
  }

  // ------------------------------------------------------------- the conversions

  /** The base of a conversion; decimals drop the '#'. */
  method SetBase(conv: char, f0: Flags) returns (base: nat, f: Flags)
    requires IsInteger(conv)
    ensures base == BaseOf(conv) && f == f0.(hash := f0.hash && base != 10)
  {
    f := f0;
    if conv == 'x' || conv == 'X' {
      base := 16;
    } else if conv == 'o' {
      base := 8;
    } else if conv == 'b' {
      base := 2;
    } else {
      base := 10;
      f := f.(hash := false);
    }
  }

  method AdjustFlags(conv: char, f0: Flags) returns (base: nat, f: Flags)
    requires IsInteger(conv)
    ensures base == BaseOf(conv) && f == Adjust(conv, f0)
  {
    base, f := SetBase(conv, f0);
    f := SetCase(conv, f);
    f := DropFlags(conv, f);
  }

  method SetCase(conv: char, f0: Flags) returns (f: Flags)
    ensures f == f0.(upper := f0.upper || conv == 'X')
  {
    f := f0;
    if conv == 'X' {
      f := f.(upper := true);
    }
  }

  /** Signs are for signed conversions only, and a precision overrides '0'. */
  method DropFlags(conv: char, f0: Flags) returns (f: Flags)
    ensures f == f0.(plus := f0.plus && IsSigned(conv), space := f0.space && IsSigned(conv),
                     zeropad := f0.zeropad && !f0.precision)
  {
    f := f0;
    if conv != 'i' && conv != 'd' {
      f := f.(plus := false, space := false);
    }
    if f.precision {
      f := f.(zeropad := false);
    }
  }

  method ConvertInteger(sink: Sink, idx0: nat, conv: char, v: int, width: nat, prec: nat, f0: Flags) returns (idx: nat)
    requires sink.Valid() && idx0 == |sink.text| && IsInteger(conv)
    modifies sink, sink.buffer
    ensures sink.Valid() && idx == |sink.text|
    ensures sink.text == old(sink.text) + IntegerConv(conv, v, width, prec, f0)
  {
    hide IntegerText, Overlay, NonNul, SignedArg, UnsignedArg, BaseOf, Adjust;
    var base, f := AdjustFlags(conv, f0);
    if conv == 'i' || conv == 'd' {
      var value := SignedArg(v, f);
      idx := Ntoa(sink, idx0, if value > 0 then value else -value, value < 0, base, prec, width, f);
    } else {
      idx := Ntoa(sink, idx0, UnsignedArg(v, f), false, base, prec, width, f);
    }
  }

  /** The padding loops of %c and %s, whose counter starts at l0. */
  method PadBlanks(sink: Sink, idx0: nat, l0: nat, width: nat) returns (idx: nat)
    requires sink.Valid() && idx0 == |sink.text|
    modifies sink, sink.buffer
    ensures sink.Valid() && idx == |sink.text|
    ensures sink.text == old(sink.text) + Fill(' ', Minus(width, l0))
  {
    hide Fill, Overlay, NonNul;
    idx := idx0;
    var l := l0;
    FillNext(' ', 0);
    while true
      invariant l0 <= l && (l0 < l ==> l <= width) && sink.Valid() && idx == |sink.text|
      invariant sink.text == old(sink.text) + Fill(' ', l - l0)
      decreases width - l
    {
      l := l + 1;
      if !(l - 1 < width) {
        break;
      }
      FillNext(' ', l - 1 - l0);
      sink.Out(' ', idx);
      idx := idx + 1;
    }
  }

  method ConvertChar(sink: Sink, idx0: nat, v: int, width: nat, f: Flags) returns (idx: nat)
    requires sink.Valid() && idx0 == |sink.text|
    modifies sink, sink.buffer
    ensures sink.Valid() && idx == |sink.text|
    ensures sink.text == old(sink.text) + Justified([(v % 0x100) as char], width, f)
  {
    hide Fill, Overlay, NonNul;
    idx := idx0;
    var c := (v % 0x100) as char;
    if !f.left {
      idx := PadBlanks(sink, idx, 1, width);
    }
    sink.Out(c, idx);
    idx := idx + 1;
    if f.left {
      idx := PadBlanks(sink, idx, 1, width);
    }
  }

  /** _strnlen_s */
  method StrnlenS(s: string, maxsize0: nat) returns (n: nat)
    requires '\0' !in s
    ensures n == Minimum(|s|, maxsize0)
  {
    n := 0;
    var maxsize: int := maxsize0;
    while At(s, n) != '\0'
      invariant n <= |s| && maxsize == maxsize0 - n >= 0
      decreases |s| - n
    {
      maxsize := maxsize - 1;
      if maxsize + 1 == 0 {
        break;
      }
      n := n + 1;
    }
  }

  /** The output loop of %s, limited by the precision if there is one. */
  method OutString(sink: Sink, idx0: nat, s: string, limited: bool, precision0: nat) returns (idx: nat)
    requires sink.Valid() && idx0 == |sink.text| && '\0' !in s
    modifies sink, sink.buffer
    ensures sink.Valid() && idx == |sink.text|
    ensures sink.text == old(sink.text) + if limited && precision0 < |s| then s[..precision0] else s
  {
    hide Overlay, NonNul;
    idx := idx0;
    var p, precision: int := 0, precision0;
    while At(s, p) != '\0'
      invariant 0 <= p <= |s| && (limited ==> precision == precision0 - p >= 0)
      invariant sink.Valid() && idx == |sink.text| && sink.text == old(sink.text) + s[..p]
      decreases |s| - p
    {
      if limited {
        precision := precision - 1;
        if precision + 1 == 0 {
          break;
        }
      }
      sink.Out(s[p], idx);
      idx := idx + 1;
      p := p + 1;
    }
    assert s[..|s|] == s;
  }

  /** SIZE_MAX, the limit given to _strnlen_s when there is no precision. */
  const SIZE_MAX: nat := 0xFFFF_FFFF_FFFF_FFFF

  method ConvertString(sink: Sink, idx0: nat, s: string, prec: nat, width: nat, f: Flags) returns (idx: nat)
    requires sink.Valid() && idx0 == |sink.text| && '\0' !in s && |s| < 0x1_0000_0000
    requires !f.precision ==> prec == 0
    modifies sink, sink.buffer
    ensures sink.Valid() && idx == |sink.text|
    ensures sink.text == old(sink.text) + StringText(s, prec, width, f)
  {
    hide Fill, Overlay, NonNul;
    idx := idx0;
    ghost var body := if f.precision && prec < |s| then s[..prec] else s;
    var l := StrnlenS(s, if prec > 0 then prec else SIZE_MAX);
    if f.precision {
      l := if l < prec then l else prec;
    }
    assert f.precision ==> l == |body|;
    if !f.left {
      idx := PadBlanks(sink, idx, l, width);
    }
    idx := OutString(sink, idx, s, f.precision, prec);
    if f.left {
      idx := PadBlanks(sink, idx, l, width);
    }
  }

  // ------------------------------------------------------------- the engine

  /** The string arguments are C strings of less than 4 GiB. */
  predicate CStrings(args: seq<Arg>) {
    forall k :: 0 <= k < |args| && args[k].Str? ==> '\0' !in args[k].text && |args[k].text| < 0x1_0000_0000
  }

  method ConvertPointer(sink: Sink, idx0: nat, v: int, prec: nat, f0: Flags) returns (idx: nat)
    requires sink.Valid() && idx0 == |sink.text|
    modifies sink, sink.buffer
    ensures sink.Valid() && idx == |sink.text|
    ensures sink.text == old(sink.text) +
      IntegerText(v % 0x1_0000_0000_0000_0000, false, 16, prec, POINTER_WIDTH, f0.(zeropad := true, upper := true))
    ensures !f0.plus && !f0.space && !f0.hash && !f0.left && prec <= POINTER_WIDTH ==>
      var text := sink.text[|old(sink.text)|..];
      |text| == POINTER_WIDTH && UpperHex(text) && ReadBack(text, 16) == v % 0x1_0000_0000_0000_0000
  {
    hide IntegerText, Overlay, NonNul;
    PointerDigitsIff(v % 0x1_0000_0000_0000_0000, prec, f0);
    var width := POINTER_WIDTH;
    var f := f0.(zeropad := true, upper := true);
    idx := Ntoa(sink, idx0, v % 0x1_0000_0000_0000_0000, false, 16, prec, width, f);
  }

  /** The switch over the conversion character. */
  method Convert(sink: Sink, idx0: nat, args: seq<Arg>, conv: char, c: Cursor) returns (idx: nat, k: nat)
    requires sink.Valid() && idx0 == |sink.text| && CStrings(args) && !IsFloat(conv)
    requires !c.f.precision ==> c.prec == 0
    modifies sink, sink.buffer
    ensures sink.Valid() && idx == |sink.text| && k == NextArg(conv, c.k)
    ensures sink.text == old(sink.text) + Conversion(args, conv, c)
  {
    hide IntegerText, IntegerConv, Justified, StringText, Overlay, NonNul, IsInteger;
    if IsInteger(conv) {
      idx := ConvertInteger(sink, idx0, conv, NumAt(args, c.k), c.width, c.prec, c.f);
      k := c.k + 1;
    } else if conv == 'c' {
      idx := ConvertChar(sink, idx0, NumAt(args, c.k), c.width, c.f);
      k := c.k + 1;
    } else if conv == 's' {
      idx := ConvertString(sink, idx0, StrAt(args, c.k), c.prec, c.width, c.f);
      k := c.k + 1;
    } else if conv == 'p' {
      idx := ConvertPointer(sink, idx0, NumAt(args, c.k), c.prec, c.f);
      k := c.k + 1;
    } else {
      sink.Out(conv, idx0);
      idx := idx0 + 1;
      k := c.k;
    }
  }

  lemma TextFirst(args: seq<Arg>, done: string, first: string, ps: Pieces)
    requires Whole(ps)
    ensures done + (first + TextOf(args, ps)) == done + first + TextOf(args, ps)
  {
  }

  /** The loop of _vsnprintf over the format. */
  method Format(sink: Sink, fmt: string, args: seq<Arg>) returns (idx: nat)
    requires sink.Valid() && sink.text == "" && '\0' !in fmt && CStrings(args) && Complete(fmt, args)
    modifies sink, sink.buffer
    ensures sink.Valid() && idx == |sink.text| && sink.text == Output(fmt, args)
  {
    hide Directive, Conversion, NextArg, Overlay, NonNul, IsFloat, CStrings;
    idx := 0;
    var i, k: nat := 0, 0;
    while At(fmt, i) != '\0'
      invariant i <= |fmt| && sink.Valid() && idx == |sink.text|
      invariant Whole(Parse(fmt, i, args, k))
      invariant Output(fmt, args) == sink.text + TextOf(args, Parse(fmt, i, args, k))
      decreases |fmt| - i
    {
      ghost var done := sink.text;
      if fmt[i] != '%' {
        TextFirst(args, done, [fmt[i]], Parse(fmt, i + 1, args, k));
        sink.Out(fmt[i], idx);
        idx := idx + 1;
        i := i + 1;
      } else {
        var c := ReadDirective(fmt, args, i, k);
        var conv := At(fmt, c.i);
        TextFirst(args, done, Conversion(args, conv, c), Parse(fmt, c.i + 1, args, NextArg(conv, c.k)));
        idx, k := Convert(sink, idx, args, conv, c);
        i := c.i + 1;
      }
    }
    assert Parse(fmt, i, args, k) == End;
  }

  /** (int)idx: the length itself as long as it fits. */
  function AsInt(n: nat): (r: int)
    ensures n < 0x8000_0000 ==> r == n
    ensures -0x8000_0000 <= r < 0x8000_0000 && (r - n) % 0x1_0000_0000 == 0
  {
    ToInt(n)
  }

  /** _vsnprintf */
  method Vsnprintf(sink: Sink, fmt: string, args: seq<Arg>) returns (ret: int)
    requires sink.Valid() && sink.text == "" && '\0' !in fmt && CStrings(args) && Complete(fmt, args)
    modifies sink, sink.buffer
    ensures ret == AsInt(|Output(fmt, args)|)
    ensures sink.delivered == sink.before + (if sink.kind.ToFunction? then NonNul(Output(fmt, args)) else "")
    ensures sink.buffer[..] == Terminated(sink.start, Output(fmt, args), sink.kind, sink.maxlen)
  {
    var idx := Format(sink, fmt, args);
    TerminatedIs(sink.start, Output(fmt, args), sink.kind, sink.maxlen);
    sink.Terminate(idx);
    ret := AsInt(idx);
  }

  /** A buffer after the call: the first maxlen - 1 characters of the output or all of it, a NUL,
      and the rest as it was. */
  function Terminated(start: string, text: string, kind: Kind, maxlen: nat): string {
    if !kind.ToBuffer? || maxlen == 0 || maxlen > |start| then start
    else
      var n := Minimum(|text|, maxlen - 1);
      text[..n] + ['\0'] + start[n + 1..]
  }

  lemma TerminatedIs(start: string, text: string, kind: Kind, maxlen: nat)
    requires kind.ToBuffer? ==> maxlen <= |start|
    ensures kind.ToBuffer? && maxlen > 0 ==>
      Terminated(start, text, kind, maxlen) == Overlay(start, text, maxlen)[Minimum(|text|, maxlen - 1) := '\0']
    ensures kind.ToBuffer? && maxlen == 0 ==> Overlay(start, text, maxlen) == start
  {
    if kind.ToBuffer? && maxlen == 0 {
      assert text[..0] + start[0..] == start;
    }
  }

  /** snprintf_ and vsnprintf_; a null buffer selects the null output. */
  method Snprintf(buffer: array?<char>, count: nat, fmt: string, args: seq<Arg>) returns (ret: int)
    requires buffer != null ==> count <= buffer.Length
    requires '\0' !in fmt && CStrings(args) && Complete(fmt, args)
    modifies if buffer != null then {buffer} else {}
    ensures ret == AsInt(|Output(fmt, args)|)
    ensures buffer != null ==> buffer[..] == Terminated(old(buffer[..]), Output(fmt, args), ToBuffer, count)
  {
    hide Output, Complete, CStrings, Overlay, NonNul;
    if buffer == null {
      var none := new char[0];
      var sink := new Sink(ToNull, none, count, "");
      ret := Vsnprintf(sink, fmt, args);
    } else {
      var sink := new Sink(ToBuffer, buffer, count, "");
      ret := Vsnprintf(sink, fmt, args);
    }
  }

  /** fctprintf, and printf_ with _putchar: `delivered` is what the output function received. */
  method Fctprintf(fmt: string, args: seq<Arg>, received: string) returns (ret: int, delivered: string)
    requires '\0' !in fmt && CStrings(args) && Complete(fmt, args)
    ensures ret == AsInt(|Output(fmt, args)|)
    ensures delivered == received + NonNul(Output(fmt, args))
  {
    hide Output, Complete, CStrings, Overlay, NonNul;
    var none := new char[1];
    var sink := new Sink(ToFunction, none, SIZE_MAX, received);
    ret := Vsnprintf(sink, fmt, args);
    delivered := sink.delivered;
  }

  /** Truncation is a prefix: the buffer holds the first characters of the untruncated output, as
      many as leave room for the NUL after them, and nothing from `count` on is touched. */
  lemma TruncationIsPrefix(start: string, text: string, count: nat)
    requires count <= |start|
    ensures var b := Terminated(start, text, ToBuffer, count);
      var n := Minimum(|text|, if count > 0 then count - 1 else 0);
      && |b| == |start| && b[..n] <= text && b[count..] == start[count..]
      && (count > 0 ==> b[n] == '\0' && b[n + 1..] == start[n + 1..])
      && (count > |text| ==> b[..n] == text)
  {
    if count > 0 {
      var n := Minimum(|text|, count - 1);
      var b := Terminated(start, text, ToBuffer, count);
      assert b[..n] == text[..n];
    }
  }

  /** Only NULs are withheld from an output function. */
  lemma {:induction false} DeliveredAll(s: string)
    requires '\0' !in s
    ensures NonNul(s) == s
    decreases |s|
  {
    if s != "" {
      DeliveredAll(s[..|s| - 1]);
      assert s == s[..|s| - 1] + [s[|s| - 1]];
    }
  }

  /** A NUL between two pieces of output is dropped, and the pieces arrive one after the other. */
  lemma {:induction false} NulDropped(s: string, t: string)
    requires '\0' !in s
    ensures NonNul(s + ['\0'] + t) == s + NonNul(t)
    decreases |t|
  {
    hide NonNul;
    if t == "" {
      assert s + ['\0'] + t == s + ['\0'];
      NonNulLast(s, '\0');
      DeliveredAll(s);
      NonNulEmpty();
    } else {
      var rest, c := t[..|t| - 1], t[|t| - 1];
      assert t == rest + [c];
      assert s + ['\0'] + t == (s + ['\0'] + rest) + [c];
      NulDropped(s, rest);
      NonNulLast(s + ['\0'] + rest, c);
      NonNulLast(rest, c);
    }
  }

  lemma NonNulEmpty()
    ensures NonNul("") == ""
  {
  }

  lemma NonNulLast(s: string, c: char)
    ensures NonNul(s + [c]) == NonNul(s) + (if c != '\0' then [c] else "")
  {
    assert (s + [c])[..|s|] == s;
  }
}
