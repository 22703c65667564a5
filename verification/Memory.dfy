/** The boot library's word-at-a-time memset and memcpy (spl/common/memset_sunxi.c,
    spl/common/memcpy_sunxi.c).  Memory is one array of bytes indexed by address;
    W is sizeof(long), 4 or 8. */
module Memory {
  import opened BitVectors

  /** Byte k of a little-endian word. */
  function ByteOf(word: bv64, k: nat): byte
    requires k < 8
  {
    match k
    case 0 => (word & 0xff) as byte
    case 1 => ((word >> 8) & 0xff) as byte
    case 2 => ((word >> 16) & 0xff) as byte
    case 3 => ((word >> 24) & 0xff) as byte
    case 4 => ((word >> 32) & 0xff) as byte
    case 5 => ((word >> 40) & 0xff) as byte
    case 6 => ((word >> 48) & 0xff) as byte
    case 7 => ((word >> 56) & 0xff) as byte
  }

  predicate Aligned(a: nat, W: nat)
    requires W == 4 || W == 8
  {
    if W == 4 then a % 4 == 0 else a % 8 == 0
  }

  /** One store through an `unsigned long *`. */
  method StoreWord(mem: array<byte>, at: nat, word: bv64, W: nat)
    requires W == 4 || W == 8
    requires at + W <= mem.Length
    modifies mem
    ensures forall a :: at <= a < at + W ==> mem[a] == ByteOf(word, a - at)
    ensures forall a :: 0 <= a < mem.Length && !(at <= a < at + W) ==> mem[a] == old(mem[a])
  {
    for k := 0 to W
      invariant forall a :: at <= a < at + k ==> mem[a] == ByteOf(word, a - at)
      invariant forall a :: 0 <= a < mem.Length && !(at <= a < at + k) ==> mem[a] == old(mem[a])
    {
      mem[at + k] := ByteOf(word, k);
    }
  }

  lemma HalvesOf(half: bv64, w: bv64, low: bv64)
    requires half >> 32 == 0 && w == (half << 32) | half && low == w & 0xFFFF_FFFF
    ensures low == half && w >> 32 == half
  {
  }

  lemma LowByte(w: bv64, low: bv64, k: nat)
    requires low == w & 0xFFFF_FFFF && k < 4
    ensures ByteOf(w, k) == ByteOf(low, k)
  {
  }

  lemma HighByte(w: bv64, high: bv64, k: nat)
    requires high == w >> 32 && k < 4
    ensures ByteOf(w, k + 4) == ByteOf(high, k)
  {
  }

  /** Shift-and-or doubling keeps a replicated byte pattern: the low four bytes of `half`
      become the high four bytes of the word as well. */
  lemma DoubledPattern(half: bv64, w: bv64, c: byte)
    requires half >> 32 == 0 && w == (half << 32) | half
    requires forall k :: 0 <= k < 4 ==> ByteOf(half, k) == c
    ensures forall k :: 0 <= k < 8 ==> ByteOf(w, k) == c
  {
    hide ByteOf;
    HalvesOf(half, w, w & 0xFFFF_FFFF);
    forall k | 0 <= k < 8
      ensures ByteOf(w, k) == c
    {
      if k < 4 {
        LowByte(w, half, k);
      } else {
        HighByte(w, half, k - 4);
      }
    }
  }

  /** memset's `buffer`: the fill byte replicated by shifting and or-ing. */
  method Replicate(c: byte, W: nat) returns (buffer: bv64)
    requires W == 4 || W == 8
    ensures forall k :: 0 <= k < W ==> ByteOf(buffer, k) == c
  {
    var d := c as bv64;
    buffer := (d << 8) | d;
    buffer := buffer | (buffer << 16);
    var i := 32;
    while i < W * 8
      invariant i == 32 || (i == 64 && W == 8)
      invariant i == 32 ==> buffer >> 32 == 0
      invariant forall k :: 0 <= k < i / 8 ==> ByteOf(buffer, k) == c
      decreases 64 - i
    {
      ghost var half := buffer;
      buffer := (buffer << (i as bv7)) | buffer;
      assert i as bv7 == 32;
      DoubledPattern(half, buffer, c);
      i := i * 2;
    }
  }

  /** memset: bytewise up to a word boundary, four words at a time, one word at a time,
      bytewise for the rest. */
  method Memset(mem: array<byte>, m: nat, c: byte, count: nat, W: nat)
    requires W == 4 || W == 8
    requires m + count <= mem.Length
    modifies mem
    ensures forall a :: m <= a < m + count ==> mem[a] == c
    ensures forall a :: 0 <= a < mem.Length && !(m <= a < m + count) ==> mem[a] == old(mem[a])
  {
    var s: nat, n: nat := m, count;
    while !Aligned(s, W)
      invariant m <= s && s + n == m + count
      invariant Filled(mem, m, s, c) && Kept(old(mem[..]), mem, m, s)
      decreases n
    {
      if n == 0 {
        return;
      }
      n := n - 1;
      mem[s] := c;
      s := s + 1;
    }
    if n >= W {
      var buffer := Replicate(c, W);
      while n >= W * 4
        invariant m <= s && s + n == m + count
        invariant Filled(mem, m, s, c) && Kept(old(mem[..]), mem, m, s)
      {
        s := FillWord(mem, m, s, c, buffer, W, old(mem[..]));
        s := FillWord(mem, m, s, c, buffer, W, old(mem[..]));
        s := FillWord(mem, m, s, c, buffer, W, old(mem[..]));
        s := FillWord(mem, m, s, c, buffer, W, old(mem[..]));
        n := n - 4 * W;
      }
      while n >= W
        invariant m <= s && s + n == m + count
        invariant Filled(mem, m, s, c) && Kept(old(mem[..]), mem, m, s)
      {
        s := FillWord(mem, m, s, c, buffer, W, old(mem[..]));
        n := n - W;
      }
    }
    while n != 0
      invariant m <= s && s + n == m + count
      invariant Filled(mem, m, s, c) && Kept(old(mem[..]), mem, m, s)
    {
      n := n - 1;
      mem[s] := c;
      s := s + 1;
    }
  }

  ghost predicate Filled(mem: array<byte>, lo: nat, hi: nat, c: byte)
    reads mem
  {
    hi <= mem.Length && forall a :: lo <= a < hi ==> mem[a] == c
  }

  /** Only addresses in [lo, hi) may differ from the bytes `was`. */
  ghost predicate Kept(was: seq<byte>, mem: array<byte>, lo: nat, hi: nat)
    reads mem
  {
    |was| == mem.Length && forall a {:trigger mem[a]} :: 0 <= a < mem.Length && !(lo <= a < hi) ==> mem[a] == was[a]
  }

  /** One word of memset's aligned loops. */
  method FillWord(mem: array<byte>, m: nat, s: nat, c: byte, buffer: bv64, W: nat, ghost was: seq<byte>)
      returns (next: nat)
    requires W == 4 || W == 8
    requires m <= s && s + W <= mem.Length
    requires forall k :: 0 <= k < W ==> ByteOf(buffer, k) == c
    requires Filled(mem, m, s, c) && Kept(was, mem, m, s)
    modifies mem
    ensures next == s + W
    ensures Filled(mem, m, next, c) && Kept(was, mem, m, next)
  {
    StoreWord(mem, s, buffer, W);
    next := s + W;
  }

  /** The bytes [dst, dst + k) hold what [src, src + k) held in `was`; nothing else changed. */
  ghost predicate Copied(was: seq<byte>, mem: array<byte>, dst: nat, src: nat, k: nat)
    reads mem
  {
    && |was| == mem.Length && dst + k <= mem.Length && src + k <= mem.Length
    && (forall a {:trigger mem[a]} :: dst <= a < dst + k ==> mem[a] == was[src + a - dst])
    && Kept(was, mem, dst, dst + k)
  }

  /** One byte of memcpy's last loop. */
  method CopyByte(mem: array<byte>, dst: nat, src: nat, k: nat, ghost was: seq<byte>) returns (next: nat)
    requires dst + k < mem.Length && src + k < mem.Length
    requires dst <= src || src + k < dst
    requires Copied(was, mem, dst, src, k)
    modifies mem
    ensures next == k + 1 && Copied(was, mem, dst, src, next)
  {
    mem[dst + k] := mem[src + k];
    next := k + 1;
  }

  /** One word of memcpy's aligned loops: the W bytes are read before any is written. */
  method CopyWord(mem: array<byte>, dst: nat, src: nat, k: nat, W: nat, ghost was: seq<byte>)
      returns (next: nat)
    requires W == 4 || W == 8
    requires dst + k + W <= mem.Length && src + k + W <= mem.Length
    requires dst <= src || src + k + W <= dst
    requires Copied(was, mem, dst, src, k)
    modifies mem
    ensures next == k + W && Copied(was, mem, dst, src, next)
  {
    var word := mem[src + k..src + k + W];
    for j := 0 to W
      invariant Copied(was, mem, dst, src, k + j)
    {
      assert word[j] == was[src + k + j];
      mem[dst + k + j] := word[j];
    }
    next := k + W;
  }

  /** The body of memcpy's unrolled loop. */
  method CopyFourWords(mem: array<byte>, dst: nat, src: nat, k: nat, W: nat, ghost was: seq<byte>)
      returns (next: nat)
    requires W == 4 || W == 8
    requires dst + k + 4 * W <= mem.Length && src + k + 4 * W <= mem.Length
    requires dst <= src || src + k + 4 * W <= dst
    requires Copied(was, mem, dst, src, k)
    modifies mem
    ensures next == k + 4 * W && Copied(was, mem, dst, src, next)
  {
    next := CopyWord(mem, dst, src, k, W, was);
    next := CopyWord(mem, dst, src, next, W, was);
    next := CopyWord(mem, dst, src, next, W, was);
    next := CopyWord(mem, dst, src, next, W, was);
  }

  /** The aligned part of memcpy: four words at a time, then one word at a time. */
  method CopyWords(mem: array<byte>, dst: nat, src: nat, len: nat, W: nat, ghost was: seq<byte>)
      returns (k: nat)
    requires W == 4 || W == 8
    requires dst + len <= mem.Length && src + len <= mem.Length
    requires dst <= src || src + len <= dst
    requires was == mem[..]
    modifies mem
    ensures k <= len < k + W && Copied(was, mem, dst, src, k)
  {
    k := 0;
    while len - k >= W * 4
      invariant k <= len && Copied(was, mem, dst, src, k)
      decreases len - k
    {
      k := CopyFourWords(mem, dst, src, k, W, was);
    }
    while len - k >= W
      invariant k <= len && Copied(was, mem, dst, src, k)
      decreases len - k
    {
      k := CopyWord(mem, dst, src, k, W, was);
    }
  }

  /** memcpy.  Correct for disjoint ranges and also whenever the destination starts at or
      below the source, because every loop runs upwards. */
  method Memcpy(mem: array<byte>, dst0: nat, src0: nat, len: nat, W: nat)
    requires W == 4 || W == 8
    requires dst0 + len <= mem.Length && src0 + len <= mem.Length
    requires dst0 <= src0 || src0 + len <= dst0
    modifies mem
    ensures forall a :: dst0 <= a < dst0 + len ==> mem[a] == old(mem[src0 + a - dst0])
    ensures forall a :: 0 <= a < mem.Length && !(dst0 <= a < dst0 + len) ==> mem[a] == old(mem[a])
  {
    var k: nat := 0;
    ghost var was := mem[..];
    if len >= W * 4 && Aligned(src0, W) && Aligned(dst0, W) {
      k := CopyWords(mem, dst0, src0, len, W, was);
    }
    while k < len
      invariant k <= len && Copied(was, mem, dst0, src0, k)
    {
      k := CopyByte(mem, dst0, src0, k, was);
    }
  }
}
