/** The gzip header skip of spl/common/gunzip.c, against the member header format of section 2.3
    of RFC 1952. */
module Gzip {
  import opened Ints

  datatype Option<T> = None | Some(value: T)

  const DEFLATED: u8 := 8

  /** The tests `flags & HEAD_CRC`, `flags & EXTRA_FIELD`, `flags & ORIG_NAME`, `flags & COMMENT`. */
  predicate HasCrc(flags: u8) { flags / 2 % 2 == 1 }
  predicate HasExtra(flags: u8) { flags / 4 % 2 == 1 }
  predicate HasName(flags: u8) { flags / 8 % 2 == 1 }
  predicate HasComment(flags: u8) { flags / 0x10 % 2 == 1 }

  /** The little-endian length of the extra field. */
  function Word(lo: u8, hi: u8): nat {
    (lo as int) + 0x100 * (hi as int)
  }

  // ------------------------------------------------------------- what the code computes

  predicate GoodFlags(s: seq<u8>)
    requires |s| >= 4
  {
    s[2] == DEFLATED && s[3] < 0x20
  }

  predicate NulFrom(s: seq<u8>, i: nat) {
    exists k :: i <= k < |s| && s[k] == 0
  }

  /** The position after the first zero byte at or after i. */
  function AfterNul(s: seq<u8>, i: nat): (r: nat)
    requires NulFrom(s, i)
    ensures i < r <= |s| && s[r - 1] == 0
    ensures forall k :: i <= k < r - 1 ==> s[k] != 0
    decreases |s| - i
  {
    if s[i] == 0 then i + 1 else AfterNul(s, i + 1)
  }

  function AfterExtra(s: seq<u8>): (r: nat)
    requires |s| >= 4 && (HasExtra(s[3]) ==> |s| >= 12)
  {
    if HasExtra(s[3]) then 12 + Word(s[10], s[11]) else 10
  }

  function AfterText(s: seq<u8>, i: nat, present: bool): (r: nat)
    requires present ==> NulFrom(s, i)
  {
    if present then AfterNul(s, i) else i
  }

  /** Every byte the code looks at lies in the buffer, which it does not check. */
  predicate Readable(s: seq<u8>) {
    && |s| >= 4
    && (GoodFlags(s) ==>
          && (HasExtra(s[3]) ==> |s| >= 12)
          && (HasName(s[3]) ==> NulFrom(s, AfterExtra(s)))
          && (HasComment(s[3]) ==> NulFrom(s, AfterText(s, AfterExtra(s), HasName(s[3])))))
  }

  function HeaderEnd(s: seq<u8>): (r: nat)
    requires Readable(s) && GoodFlags(s)
  {
    var i := AfterText(s, AfterText(s, AfterExtra(s), HasName(s[3])), HasComment(s[3]));
    if HasCrc(s[3]) then i + 2 else i
  }

  /** The result for a buffer whose first `len` bytes are said to be valid. */
  function Offset(s: seq<u8>, len: int): (r: int)
    requires Readable(s)
  {
    if !GoodFlags(s) || HeaderEnd(s) >= len then -1 else HeaderEnd(s)
  }

  method SkipText(src: array<u8>, start: nat) returns (i: nat)
    requires NulFrom(src[..], start)
    ensures i == AfterNul(src[..], start)
  {
    i := start;
    while true
      invariant start <= i && NulFrom(src[..], i)
      invariant AfterNul(src[..], i) == AfterNul(src[..], start)
      decreases src.Length - i
    {
      i := i + 1;
      if src[i - 1] == 0 {
        break;
      }
    }
  }

  method ParseHeader(src: array<u8>, len: nat) returns (r: int)
    requires Readable(src[..])
    ensures r == Offset(src[..], len)
  {
    var i := 10;
    var flags := src[3];
    if src[2] != DEFLATED || flags >= 0x20 {
      return -1;
    }
    if HasExtra(flags) {
      i := 12 + Word(src[10], src[11]);
    }
    if HasName(flags) {
      i := SkipText(src, i);
    }
    if HasComment(flags) {
      i := SkipText(src, i);
    }
    if HasCrc(flags) {
      i := i + 2;
    }
    if i >= len {
      return -1;
    }
    return i;
  }

  /** The copy of the skip at the head of gzwrite, up to the computation of the payload size. */
  method GzwriteSkip(src: array<u8>, len: int) returns (r: int, payloadSize: int)
    requires Readable(src[..])
    ensures r == Offset(src[..], len - 8)
    ensures r >= 0 ==> payloadSize == len - 8 - r > 0
  {
    var i := 10;
    var flags := src[3];
    payloadSize := 0;
    if src[2] != DEFLATED || flags >= 0x20 {
      return -1, 0;
    }
    if HasExtra(flags) {
      i := 12 + Word(src[10], src[11]);
    }
    if HasName(flags) {
      i := SkipText(src, i);
    }
    if HasComment(flags) {
      i := SkipText(src, i);
    }
    if HasCrc(flags) {
      i := i + 2;
    }
    if i >= len - 8 {
      return -1, 0;
    }
    return i, len - i - 8;
  }

  // ------------------------------------------------------------- the format

  /** A member header: the two ID bytes (which the code does not look at), the FTEXT bit, and the
      optional parts, each present exactly when its flag is set. */
  datatype Header = Header(
    id1: u8, id2: u8, ftext: bool, mtime: seq<u8>, xfl: u8, os: u8,
    extra: Option<seq<u8>>, name: Option<seq<u8>>, comment: Option<seq<u8>>,
    crc16: Option<(u8, u8)>)

  predicate WellFormed(h: Header) {
    && |h.mtime| == 4
    && (h.extra.Some? ==> |h.extra.value| < 0x1_0000)
    && (h.name.Some? ==> 0 !in h.name.value)
    && (h.comment.Some? ==> 0 !in h.comment.value)
  }

  function FlagByte(h: Header): u8 {
    (if h.ftext then 1 else 0) + (if h.crc16.Some? then 2 else 0) + (if h.extra.Some? then 4 else 0)
    + (if h.name.Some? then 8 else 0) + (if h.comment.Some? then 16 else 0)
  }

  function RenderFixed(h: Header): seq<u8> {
    [h.id1, h.id2, 8, FlagByte(h)] + h.mtime + [h.xfl, h.os]
  }

  function RenderExtra(e: Option<seq<u8>>): seq<u8>
    requires e.Some? ==> |e.value| < 0x1_0000
  {
    if e.None? then [] else [|e.value| % 0x100, |e.value| / 0x100] + e.value
  }

  function RenderText(t: Option<seq<u8>>): seq<u8> {
    if t.None? then [] else t.value + [0]
  }

  function RenderCrc(c: Option<(u8, u8)>): seq<u8> {
    if c.None? then [] else [c.value.0, c.value.1]
  }

  function Render(h: Header): seq<u8>
    requires WellFormed(h)
  {
    RenderFixed(h) + RenderExtra(h.extra) + RenderText(h.name) + RenderText(h.comment) + RenderCrc(h.crc16)
  }

  lemma FlagsOf(h: Header)
    ensures var f := FlagByte(h);
      && f < 0x20
      && (f % 2 == 1 <==> h.ftext)
      && (HasCrc(f) <==> h.crc16.Some?)
      && (HasExtra(f) <==> h.extra.Some?)
      && (HasName(f) <==> h.name.Some?)
      && (HasComment(f) <==> h.comment.Some?)
  {
  }

  /** `part` stands at position i of s. */
  predicate At(s: seq<u8>, i: nat, part: seq<u8>) {
    i + |part| <= |s| && s[i..i + |part|] == part
  }

  lemma AfterNulAt(s: seq<u8>, i: nat, t: seq<u8>)
    requires At(s, i, t + [0]) && 0 !in t
    ensures NulFrom(s, i) && AfterNul(s, i) == i + |t| + 1
  {
    assert s[i + |t|] == s[i..i + |t| + 1][|t|] == 0;
    forall k | i <= k < i + |t| ensures s[k] != 0 {
      assert s[k] == s[i..i + |t| + 1][k - i] == t[k - i];
    }
  }

  lemma TextAt(s: seq<u8>, i: nat, t: Option<seq<u8>>, present: bool)
    requires present <==> t.Some?
    requires At(s, i, RenderText(t)) && (t.Some? ==> 0 !in t.value)
    ensures present ==> NulFrom(s, i)
    ensures AfterText(s, i, present) == i + |RenderText(t)|
  {
    if t.Some? {
      AfterNulAt(s, i, t.value);
    }
  }

  lemma PartAt(s: seq<u8>, a: seq<u8>, b: seq<u8>, c: seq<u8>)
    requires a + b + c <= s
    ensures At(s, |a|, b)
  {
    assert (a + b + c)[|a|..|a| + |b|] == b;
    assert s[|a|..|a| + |b|] == s[..|a + b + c|][|a|..|a| + |b|];
  }

  /** Where the name, the comment and the header CRC start. */
  function NameAt(h: Header): nat
    requires WellFormed(h)
  {
    10 + |RenderExtra(h.extra)|
  }

  function CommentAt(h: Header): nat
    requires WellFormed(h)
  {
    NameAt(h) + |RenderText(h.name)|
  }

  function CrcAt(h: Header): nat
    requires WellFormed(h)
  {
    CommentAt(h) + |RenderText(h.comment)|
  }

  /** The five parts under names of their own. */
  lemma PartsOf(h: Header) returns (f: seq<u8>, x: seq<u8>, n: seq<u8>, c: seq<u8>, r: seq<u8>)
    requires WellFormed(h)
    ensures Render(h) == f + x + n + c + r && |f| == 10
    ensures f == RenderFixed(h) && x == RenderExtra(h.extra) && n == RenderText(h.name) && c == RenderText(h.comment)
    ensures r == RenderCrc(h.crc16)
    ensures NameAt(h) == |f| + |x| && CommentAt(h) == |f| + |x| + |n| && CrcAt(h) == |f| + |x| + |n| + |c|
  {
    FixedSize(h);
    hide RenderFixed, RenderExtra, RenderText, RenderCrc;
    f, x, n, c, r := RenderFixed(h), RenderExtra(h.extra), RenderText(h.name), RenderText(h.comment), RenderCrc(h.crc16);
  }

  lemma PartsAt(s: seq<u8>, h: Header)
    requires WellFormed(h) && Render(h) <= s
    ensures At(s, 0, RenderFixed(h)) && At(s, 10, RenderExtra(h.extra))
    ensures At(s, NameAt(h), RenderText(h.name)) && At(s, CommentAt(h), RenderText(h.comment))
    ensures At(s, CrcAt(h), RenderCrc(h.crc16)) && |Render(h)| == CrcAt(h) + |RenderCrc(h.crc16)|
  {
    hide *;
    var f, x, n, c, r := PartsOf(h);
    FivePartsAt(s, f, x, n, c, r);
  }

  lemma FixedSize(h: Header)
    requires WellFormed(h)
    ensures |RenderFixed(h)| == 10
  {
  }

  lemma FivePartsAt(s: seq<u8>, f: seq<u8>, x: seq<u8>, n: seq<u8>, c: seq<u8>, r: seq<u8>)
    requires f + x + n + c + r <= s
    ensures At(s, 0, f) && At(s, |f|, x) && At(s, |f| + |x|, n) && At(s, |f| + |x| + |n|, c)
    ensures At(s, |f| + |x| + |n| + |c|, r)
  {
    var all := f + x + n + c + r;
    assert [] + f + (x + n + c + r) == all;
    PartAt(s, [], f, x + n + c + r);
    assert f + x + (n + c + r) == all;
    PartAt(s, f, x, n + c + r);
    assert (f + x) + n + (c + r) == all;
    PartAt(s, f + x, n, c + r);
    PartAt(s, f + x + n, c, r);
    assert (f + x + n + c) + r + [] == all;
    PartAt(s, f + x + n + c, r, []);
  }

  lemma ExtraAt(s: seq<u8>, e: Option<seq<u8>>)
    requires |s| >= 10 && (HasExtra(s[3]) <==> e.Some?)
    requires (e.Some? ==> |e.value| < 0x1_0000) && At(s, 10, RenderExtra(e))
    ensures HasExtra(s[3]) ==> |s| >= 12
    ensures AfterExtra(s) == 10 + |RenderExtra(e)|
  {
    if e.Some? {
      assert s[10] == s[10..10 + |RenderExtra(e)|][0];
      assert s[11] == s[10..10 + |RenderExtra(e)|][1];
    }
  }

  lemma FixedAt(s: seq<u8>, h: Header)
    requires WellFormed(h) && At(s, 0, RenderFixed(h))
    ensures |s| >= 10 && GoodFlags(s) && s[3] == FlagByte(h)
  {
    var f := RenderFixed(h);
    FlagsOf(h);
    assert f[2] == DEFLATED && f[3] == FlagByte(h);
    assert forall k :: 0 <= k < 10 ==> s[k] == s[0..10][k];
  }

  lemma CrcSize(c: Option<(u8, u8)>)
    ensures |RenderCrc(c)| == if c.Some? then 2 else 0
  {
  }

  /** Whatever optional parts a header has, a buffer that starts with its rendering is read inside
      its bounds, and the result is the header's length exactly when at least one byte follows it
      within `len`; otherwise it is -1. */
  lemma ParseOfRender(h: Header, s: seq<u8>, len: nat)
    requires WellFormed(h) && Render(h) <= s
    ensures Readable(s) && GoodFlags(s) && HeaderEnd(s) == |Render(h)|
    ensures Offset(s, len) == if |Render(h)| < len then |Render(h)| else -1
  {
    PartsAt(s, h);
    FlagsOf(h);
    FixedAt(s, h);
    CrcSize(h.crc16);
    hide Render, RenderFixed, RenderExtra, RenderText, RenderCrc, At, FlagByte, HasCrc, HasExtra, HasName, HasComment, NulFrom;
    ExtraAt(s, h.extra);
    TextAt(s, NameAt(h), h.name, HasName(s[3]));
    TextAt(s, CommentAt(h), h.comment, HasComment(s[3]));
    hide WellFormed, GoodFlags;
  }

  // ------------------------------------------------------------- the converse

  /** The optional part between positions i and j is absent, or is text closed by a zero byte. */
  predicate TextSpan(s: seq<u8>, i: nat, j: nat, present: bool) {
    && i <= j <= |s|
    && (if present then i < j && s[j - 1] == 0 && 0 !in s[i..j - 1] else i == j)
  }

  /** The optional parts of a header end at positions n, c, e and r. */
  predicate Layout(s: seq<u8>, n: nat, c: nat, e: nat, r: nat) {
    && 10 <= n <= |s| && GoodFlags(s)
    && (if HasExtra(s[3]) then 12 <= n && n == 12 + Word(s[10], s[11]) else n == 10)
    && TextSpan(s, n, c, HasName(s[3])) && TextSpan(s, c, e, HasComment(s[3]))
    && r <= |s| && r == (if HasCrc(s[3]) then e + 2 else e)
  }

  function TextOf(s: seq<u8>, i: nat, j: nat, present: bool): Option<seq<u8>>
    requires TextSpan(s, i, j, present)
  {
    if present then Some(s[i..j - 1]) else None
  }

  function HeaderWith(s: seq<u8>, n: nat, c: nat, e: nat, r: nat): Header
    requires Layout(s, n, c, e, r)
  {
    Header(s[0], s[1], s[3] % 2 == 1, s[4..8], s[8], s[9],
           if HasExtra(s[3]) then Some(s[12..n]) else None,
           TextOf(s, n, c, HasName(s[3])), TextOf(s, c, e, HasComment(s[3])),
           if HasCrc(s[3]) then Some((s[e], s[e + 1])) else None)
  }

  lemma LayoutOf(s: seq<u8>)
    requires Readable(s) && GoodFlags(s) && HeaderEnd(s) <= |s|
    ensures var n := AfterExtra(s);
      var c := AfterText(s, n, HasName(s[3]));
      Layout(s, n, c, AfterText(s, c, HasComment(s[3])), HeaderEnd(s))
  {
  }

  /** The header that a buffer starts with. */
  function HeaderOf(s: seq<u8>): Header
    requires Readable(s) && GoodFlags(s) && HeaderEnd(s) <= |s|
  {
    LayoutOf(s);
    var n := AfterExtra(s);
    var c := AfterText(s, n, HasName(s[3]));
    HeaderWith(s, n, c, AfterText(s, c, HasComment(s[3])), HeaderEnd(s))
  }

  lemma Join(s: seq<u8>, i: nat, j: nat)
    requires i <= j <= |s|
    ensures s[..i] + s[i..j] == s[..j]
  {
  }

  lemma RenderTextOf(s: seq<u8>, i: nat, j: nat, present: bool)
    requires TextSpan(s, i, j, present)
    ensures RenderText(TextOf(s, i, j, present)) == s[i..j]
  {
  }

  lemma FlagBits(f: u8)
    requires f < 0x20
    ensures f == f % 2 + 2 * (f / 2 % 2) + 4 * (f / 4 % 2) + 8 * (f / 8 % 2) + 16 * (f / 0x10 % 2)
  {
  }

  lemma RenderFixedOf(s: seq<u8>, h: Header)
    requires |s| >= 10 && s[2] == DEFLATED && s[3] < 0x20
    requires h.id1 == s[0] && h.id2 == s[1] && h.mtime == s[4..8] && h.xfl == s[8] && h.os == s[9]
    requires h.ftext == (s[3] % 2 == 1) && h.crc16.Some? == HasCrc(s[3]) && h.extra.Some? == HasExtra(s[3])
    requires h.name.Some? == HasName(s[3]) && h.comment.Some? == HasComment(s[3])
    ensures RenderFixed(h) == s[..10]
  {
    FlagBits(s[3]);
    assert FlagByte(h) == s[3];
  }

  lemma WordBytes(lo: u8, hi: u8)
    ensures Word(lo, hi) < 0x1_0000 && Word(lo, hi) % 0x100 == lo && Word(lo, hi) / 0x100 == hi
  {
  }

  lemma RenderWith(s: seq<u8>, n: nat, c: nat, e: nat, r: nat)
    requires Layout(s, n, c, e, r)
    ensures WellFormed(HeaderWith(s, n, c, e, r)) && Render(HeaderWith(s, n, c, e, r)) == s[..r]
  {
    var h := HeaderWith(s, n, c, e, r);
    if HasExtra(s[3]) {
      WordBytes(s[10], s[11]);
    }
    assert RenderExtra(h.extra) == s[10..n];
    assert RenderCrc(h.crc16) == s[e..r];
    RenderFixedOf(s, h);
    RenderTextOf(s, n, c, HasName(s[3]));
    RenderTextOf(s, c, e, HasComment(s[3]));
    Join(s, 10, n);
    Join(s, n, c);
    Join(s, c, e);
    Join(s, e, r);
  }

  /** Conversely the bytes before a header end inside the buffer are the rendering of a
      well-formed header, so the code accepts nothing but headers (with any ID bytes). */
  lemma RenderOfParse(s: seq<u8>)
    requires Readable(s) && GoodFlags(s) && HeaderEnd(s) <= |s|
    ensures WellFormed(HeaderOf(s)) && Render(HeaderOf(s)) == s[..HeaderEnd(s)]
  {
    LayoutOf(s);
    var n := AfterExtra(s);
    var c := AfterText(s, n, HasName(s[3]));
    RenderWith(s, n, c, AfterText(s, c, HasComment(s[3])), HeaderEnd(s));
  }

  lemma AcceptedIsHeader(s: seq<u8>, len: nat)
    requires Readable(s) && len <= |s| && Offset(s, len) >= 0
    ensures WellFormed(HeaderOf(s)) && Offset(s, len) < len && Render(HeaderOf(s)) == s[..Offset(s, len)]
  {
    RenderOfParse(s);
  }

  /** Reading the rendering of a header gives back every one of its fields. */
  lemma HeaderOfRender(h: Header, s: seq<u8>)
    requires WellFormed(h) && Render(h) <= s
    ensures Readable(s) && GoodFlags(s) && HeaderEnd(s) <= |s| && HeaderOf(s) == h
  {
    ParseOfRender(h, s, 0);
    RenderOfParse(s);
    RenderInjective(h, HeaderOf(s));
  }

  lemma RenderInjective(h: Header, g: Header)
    requires WellFormed(h) && WellFormed(g) && Render(h) == Render(g)
    ensures h == g
  {
    var s := Render(h);
    hide At, Render, RenderFixed, RenderExtra, RenderText, RenderCrc, HasExtra, FlagByte;
    WholeRender(h);
    WholeRender(g);
    PartsAt(s, h);
    PartsAt(s, g);
    SameFlags(s, h, g);
    SameExtraAt(s, h, g);
    SameTextAt(s, NameAt(h), h.name, g.name);
    SameTextAt(s, CommentAt(h), h.comment, g.comment);
    SameCrcAt(s, CrcAt(h), h.crc16, g.crc16);
  }

  lemma WholeRender(h: Header)
    requires WellFormed(h)
    ensures Render(h) <= Render(h)
  {
  }

  lemma SameCrcAt(s: seq<u8>, i: nat, c: Option<(u8, u8)>, d: Option<(u8, u8)>)
    requires At(s, i, RenderCrc(c)) && At(s, i, RenderCrc(d)) && c.Some? == d.Some?
    ensures c == d
  {
    SameCrc(c, d);
  }

  lemma SameFlags(s: seq<u8>, h: Header, g: Header)
    requires WellFormed(h) && WellFormed(g) && At(s, 0, RenderFixed(h)) && At(s, 0, RenderFixed(g))
    ensures h.id1 == g.id1 && h.id2 == g.id2 && h.mtime == g.mtime && h.xfl == g.xfl && h.os == g.os
    ensures h.ftext == g.ftext && h.extra.Some? == g.extra.Some? && h.name.Some? == g.name.Some?
    ensures h.comment.Some? == g.comment.Some? && h.crc16.Some? == g.crc16.Some?
    ensures |s| >= 10 && (HasExtra(s[3]) <==> h.extra.Some?)
  {
    FixedAt(s, h);
    FixedAt(s, g);
    FlagsOf(h);
    FlagsOf(g);
    SameFixed(h, g);
  }

  lemma SameExtraAt(s: seq<u8>, h: Header, g: Header)
    requires WellFormed(h) && WellFormed(g) && |s| >= 10
    requires HasExtra(s[3]) <==> h.extra.Some?
    requires h.extra.Some? == g.extra.Some?
    requires At(s, 10, RenderExtra(h.extra)) && At(s, 10, RenderExtra(g.extra))
    ensures h.extra == g.extra
  {
    ExtraAt(s, h.extra);
    ExtraAt(s, g.extra);
    SameExtra(h.extra, g.extra);
  }

  lemma SameTextAt(s: seq<u8>, i: nat, t: Option<seq<u8>>, u: Option<seq<u8>>)
    requires t.Some? == u.Some? && At(s, i, RenderText(t)) && At(s, i, RenderText(u))
    requires (t.Some? ==> 0 !in t.value) && (u.Some? ==> 0 !in u.value)
    ensures t == u
  {
    TextAt(s, i, t, t.Some?);
    TextAt(s, i, u, t.Some?);
    SameText(t, u);
  }

  lemma SameFixed(h: Header, g: Header)
    requires WellFormed(h) && WellFormed(g) && RenderFixed(h) == RenderFixed(g)
    ensures h.id1 == g.id1 && h.id2 == g.id2 && h.mtime == g.mtime && h.xfl == g.xfl && h.os == g.os
  {
    var a, b := RenderFixed(h), RenderFixed(g);
    assert a[0] == h.id1 && a[1] == h.id2 && a[4..8] == h.mtime && a[8] == h.xfl && a[9] == h.os;
    assert b[0] == g.id1 && b[1] == g.id2 && b[4..8] == g.mtime && b[8] == g.xfl && b[9] == g.os;
  }

  lemma SameExtra(e: Option<seq<u8>>, f: Option<seq<u8>>)
    requires (e.Some? ==> |e.value| < 0x1_0000) && (f.Some? ==> |f.value| < 0x1_0000)
    requires RenderExtra(e) == RenderExtra(f)
    ensures e == f
  {
    if e.Some? {
      assert RenderExtra(e)[2..] == e.value;
      assert f.Some?;
      assert RenderExtra(f)[2..] == f.value;
    }
  }

  lemma SameText(t: Option<seq<u8>>, u: Option<seq<u8>>)
    requires RenderText(t) == RenderText(u)
    ensures t == u
  {
    if t.Some? {
      assert RenderText(t)[..|t.value|] == t.value;
      assert u.Some?;
      assert RenderText(u)[..|u.value|] == u.value;
    }
  }

  lemma SameCrc(c: Option<(u8, u8)>, d: Option<(u8, u8)>)
    requires RenderCrc(c) == RenderCrc(d)
    ensures c == d
  {
    if c.Some? {
      assert RenderCrc(c)[0] == c.value.0 && RenderCrc(c)[1] == c.value.1;
      assert d.Some?;
      assert RenderCrc(d)[0] == d.value.0 && RenderCrc(d)[1] == d.value.1;
    }
  }

  /** gzwrite starts inflating at the offset gzip_parse_header reports, and does so exactly when
      more than the eight trailer bytes follow it. */
  lemma GzwriteAgrees(s: seq<u8>, len: int)
    requires Readable(s)
    ensures Offset(s, len - 8) >= 0 <==> 0 <= Offset(s, len) < len - 8
    ensures Offset(s, len - 8) >= 0 ==> Offset(s, len - 8) == Offset(s, len)
  {
  }
}
