/** The image checksum of spl/common/boot_utils.c: the sum of the image's 32-bit words with a
    fixed stamp in place of the stored sum, in its unrolled and its four-lane form. */
module Checksum {
  import opened Ints

  const STAMP_VALUE: u32 := 0x5F0A6C39

  /** Word index of add_sum in sbrom_toc1_head_info_t. */
  const ADD_SUM: nat := 5

  /** Addition as the 32-bit registers do it. */
  function Add(a: u32, b: u32): u32 {
    (a + b) % U32
  }

  /** The unbounded sum of the first n words. */
  function Total(s: seq<u32>, n: nat): nat
    requires n <= |s|
    decreases n
  {
    if n == 0 then 0 else Total(s, n - 1) + s[n - 1]
  }

  /** The sum an image of n words should store. */
  function StampedSum(s: seq<u32>, n: nat): u32
    requires n <= |s| && ADD_SUM < |s|
  {
    Total(s[ADD_SUM := STAMP_VALUE], n) % U32
  }

  predicate Passes(s: seq<u32>, n: nat)
    requires n <= |s| && ADD_SUM < |s|
  {
    s[ADD_SUM] == StampedSum(s, n)
  }

  lemma AddWord(sum: u32, t: nat, w: u32)
    requires sum == t % U32
    ensures Add(sum, w) == (t + w) % U32
  {
  }

  lemma TotalFour(s: seq<u32>, i: nat)
    requires i + 4 <= |s|
    ensures Total(s, i + 4) == Total(s, i) + s[i] + s[i + 1] + s[i + 2] + s[i + 3]
  {
    assert Total(s, i + 2) == Total(s, i) + s[i] + s[i + 1];
    assert Total(s, i + 4) == Total(s, i + 2) + s[i + 2] + s[i + 3];
  }

  /** The four additions of one pass of the unrolled loop. */
  method AddFour(buf: array<u32>, i: nat, sum0: u32) returns (sum: u32)
    requires i + 4 <= buf.Length && sum0 == Total(buf[..], i) % U32
    ensures sum == Total(buf[..], i + 4) % U32
  {
    sum := Add(sum0, buf[i]);
    sum := Add(sum, buf[i + 1]);
    sum := Add(sum, buf[i + 2]);
    sum := Add(sum, buf[i + 3]);
    ghost var s, t := buf[..], Total(buf[..], i);
    AddWord(sum0, t, s[i]);
    AddWord(Add(sum0, s[i]), t + s[i], s[i + 1]);
    AddWord(Add(Add(sum0, s[i]), s[i + 1]), t + s[i] + s[i + 1], s[i + 2]);
    AddWord(Add(Add(Add(sum0, s[i]), s[i + 1]), s[i + 2]), t + s[i] + s[i + 1] + s[i + 2], s[i + 3]);
    TotalFour(s, i);
  }

  /** The words after the last full group of four. */
  method AddRest(buf: array<u32>, start: nat, n: nat, sum0: u32) returns (sum: u32)
    requires start <= n <= buf.Length && sum0 == Total(buf[..], start) % U32
    ensures sum == Total(buf[..], n) % U32
  {
    var i, count := start, n - start;
    sum := sum0;
    while count > 0
      invariant 0 <= count && i + count == n
      invariant sum == Total(buf[..], i) % U32
    {
      AddWord(sum, Total(buf[..], i), buf[i]);
      sum := Add(sum, buf[i]);
      i, count := i + 1, count - 1;
    }
  }

  /** The unrolled version.  Its first loop runs before it tests the count, so it needs at least
      four words. */
  method VerifyAddsum(buf: array<u32>, size: nat) returns (r: int)
    requires ADD_SUM < buf.Length && 4 <= size / 4 <= buf.Length
    modifies buf
    ensures buf[..] == old(buf[..])
    ensures r == if Passes(old(buf[..]), size / 4) then 0 else -1
  {
    var srcSum := buf[ADD_SUM];
    buf[ADD_SUM] := STAMP_VALUE;
    var sum := SumUnrolled(buf, size / 4);
    assert buf[..] == old(buf[..])[ADD_SUM := STAMP_VALUE];
    buf[ADD_SUM] := srcSum;
    assert buf[..] == old(buf[..]);
    r := if sum == srcSum then 0 else -1;
  }

  method SumUnrolled(buf: array<u32>, n: nat) returns (sum: u32)
    requires 4 <= n <= buf.Length
    ensures sum == Total(buf[..], n) % U32
  {
    var i, count := 0, n;
    sum := 0;
    while true
      invariant 4 <= count && i + count == n
      invariant sum == Total(buf[..], i) % U32
      decreases count
    {
      sum := AddFour(buf, i, sum);
      i, count := i + 4, count - 4;
      if !(count > 4 - 1) {
        break;
      }
    }
    sum := AddRest(buf, i, n, sum);
  }

  /** The four-lane version, for any number of words. */
  method VerifyAddsumLanes(buf: array<u32>, size: nat) returns (r: int)
    requires ADD_SUM < buf.Length && size / 4 <= buf.Length
    modifies buf
    ensures buf[..] == old(buf[..])
    ensures r == if Passes(old(buf[..]), size / 4) then 0 else -1
  {
    var srcSum := buf[ADD_SUM];
    buf[ADD_SUM] := STAMP_VALUE;
    var sum := SumLanes(buf, size / 4);
    assert buf[..] == old(buf[..])[ADD_SUM := STAMP_VALUE];
    buf[ADD_SUM] := srcSum;
    assert buf[..] == old(buf[..]);
    r := if sum == srcSum then 0 else -1;
  }

  lemma ModPlus(x: int, y: int, e: int)
    requires x % U32 == y % U32
    ensures (x + e) % U32 == (y + e) % U32
  {
  }

  lemma AddWraps(a: u32, b: u32) returns (k: int)
    ensures 0 <= k <= 1 && Add(a, b) == a + b - k * U32
  {
    k := if a + b < U32 then 0 else 1;
  }

  lemma ModShift(x: int, k: int)
    ensures (x - k * U32) % U32 == x % U32
  {
  }

  lemma LanesStep(l: (u32, u32, u32, u32), t: nat, a: u32, b: u32, c: u32, d: u32)
    requires (l.0 + l.1 + l.2 + l.3) % U32 == t % U32
    ensures (Add(l.0, a) + Add(l.1, b) + Add(l.2, c) + Add(l.3, d)) % U32 == (t + a + b + c + d) % U32
  {
    var p := AddWraps(l.0, a);
    var q := AddWraps(l.1, b);
    var r := AddWraps(l.2, c);
    var s := AddWraps(l.3, d);
    ModPlus(l.0 + l.1 + l.2 + l.3, t, a + b + c + d);
    ModShift(l.0 + l.1 + l.2 + l.3 + (a + b + c + d), p + q + r + s);
    assert t + (a + b + c + d) == t + a + b + c + d;
  }

  lemma LanesTotal(l: (u32, u32, u32, u32))
    ensures Add(Add(Add(Add(0, l.0), l.1), l.2), l.3) == (l.0 + l.1 + l.2 + l.3) % U32
  {
    AddWord(0, 0, l.0);
    AddWord(Add(0, l.0), l.0, l.1);
    AddWord(Add(Add(0, l.0), l.1), l.0 + l.1, l.2);
    AddWord(Add(Add(Add(0, l.0), l.1), l.2), l.0 + l.1 + l.2, l.3);
  }

  method SumLanes(buf: array<u32>, n: nat) returns (sum: u32)
    requires n <= buf.Length
    ensures sum == Total(buf[..], n) % U32
  {
    var lanes: (u32, u32, u32, u32) := (0, 0, 0, 0);
    var i, count := 0, n;
    while count >= 4
      invariant 0 <= count && i + count == n
      invariant (lanes.0 + lanes.1 + lanes.2 + lanes.3) % U32 == Total(buf[..], i) % U32
    {
      TotalFour(buf[..], i);
      LanesStep(lanes, Total(buf[..], i), buf[i], buf[i + 1], buf[i + 2], buf[i + 3]);
      lanes := (Add(lanes.0, buf[i]), Add(lanes.1, buf[i + 1]), Add(lanes.2, buf[i + 2]), Add(lanes.3, buf[i + 3]));
      i, count := i + 4, count - 4;
    }
    LanesTotal(lanes);
    sum := Add(0, lanes.0);
    sum := Add(sum, lanes.1);
    sum := Add(sum, lanes.2);
    sum := Add(sum, lanes.3);
    sum := AddRest(buf, i, n, sum);
  }

  // ------------------------------------------------------------- what the checksum promises

  /** Storing the stamped sum in any image makes it pass. */
  lemma StampedImagePasses(s: seq<u32>, n: nat)
    requires n <= |s| && ADD_SUM < |s|
    ensures Passes(s[ADD_SUM := StampedSum(s, n)], n)
  {
    var t := s[ADD_SUM := StampedSum(s, n)];
    assert t[ADD_SUM := STAMP_VALUE] == s[ADD_SUM := STAMP_VALUE];
  }

  lemma {:induction false} TotalUpdate(s: seq<u32>, n: nat, k: nat, v: u32)
    requires n <= |s| && k < |s|
    ensures Total(s[k := v], n) == if k < n then Total(s, n) - s[k] + v else Total(s, n)
    decreases n
  {
    if n > 0 {
      TotalUpdate(s, n - 1, k, v);
    }
  }

  /** What the stored sum has to be: all other words and the stamp. */
  lemma PassesIff(s: seq<u32>, n: nat)
    requires 5 < n <= |s|
    ensures Passes(s, n) <==> s[5] == (Total(s, n) - s[5] + 0x5F0A6C39) % 0x1_0000_0000
  {
    TotalUpdate(s, n, ADD_SUM, STAMP_VALUE);
  }

  /** In a passing image, changing one word that is summed, or the stored sum, is detected. */
  lemma DetectsOneWord(s: seq<u32>, n: nat, k: nat, v: u32)
    requires ADD_SUM < |s| && n <= |s| && (k < n || k == ADD_SUM)
    requires Passes(s, n) && v != s[k]
    ensures !Passes(s[k := v], n)
  {
    var t := s[k := v];
    var base := s[ADD_SUM := STAMP_VALUE];
    if k == ADD_SUM {
      assert t[ADD_SUM := STAMP_VALUE] == base;
    } else {
      assert t[ADD_SUM := STAMP_VALUE] == base[k := v];
      TotalUpdate(base, n, k, v);
      DifferentSums(Total(base, n), s[k], v);
    }
  }

  lemma DifferentSums(t: int, a: u32, b: u32)
    requires a != b
    ensures t % U32 != (t - a + b) % U32
  {
  }

  /** A change of two summed words goes undetected exactly when it keeps their sum modulo 2^32. */
  lemma TwoWordsUndetectedIff(s: seq<u32>, n: nat, j: nat, k: nat, v: u32, w: u32)
    requires ADD_SUM < |s| && n <= |s| && j < n && k < n && j != k && j != ADD_SUM && k != ADD_SUM
    requires Passes(s, n)
    ensures Passes(s[j := v][k := w], n) <==> Add(v, w) == Add(s[j], s[k])
  {
    var before, after := TwoWordTotals(s, n, j, k, v, w);
    SameSums(before, s[j] as int + s[k] as int, v as int + w as int);
  }

  /** The sums with the stamp in place before and after two words change. */
  lemma TwoWordTotals(s: seq<u32>, n: nat, j: nat, k: nat, v: u32, w: u32) returns (before: int, after: int)
    requires ADD_SUM < |s| && n <= |s| && j < n && k < n && j != k && j != ADD_SUM && k != ADD_SUM
    ensures before % U32 == StampedSum(s, n) && after % U32 == StampedSum(s[j := v][k := w], n)
    ensures after == before - (s[j] as int + s[k] as int) + (v as int + w as int)
  {
    var base := s[ADD_SUM := STAMP_VALUE];
    assert s[j := v][k := w][ADD_SUM := STAMP_VALUE] == base[j := v][k := w];
    TotalUpdate(base, n, j, v);
    TotalUpdate(base[j := v], n, k, w);
    before, after := Total(base, n), Total(base[j := v][k := w], n);
  }

  lemma SameSums(t: int, a: int, b: int)
    ensures t % U32 == (t - a + b) % U32 <==> a % U32 == b % U32
  {
    if t % U32 == (t - a + b) % U32 {
      ModPlus(t, t - a + b, a - t);
    }
    if a % U32 == b % U32 {
      ModPlus(a, b, t - a);
    }
  }
}
