/** What every call of malloc, free and realloc does to the boot heap, and what follows for
    whole runs. */
module HeapProofs {
  import opened Ints
  import opened HeapModel

  // ------------------------------------------------------------------ rounding

  /** Requests up to 0xFFFFFFF0 are rounded up to the next multiple of 16; above that the
      addition wraps and the block has no payload at all. */
  lemma AlignRounds(x: u32)
    ensures Align(x) % 16 == 0
    ensures x <= 0xFFFF_FFF0 ==> x <= Align(x) < x + 16
    ensures x > 0xFFFF_FFF0 ==> Align(x) == 0
  {
    if x <= 0xFFFF_FFF0 {
      assert (x + 15) % U32 == x + 15;
    } else {
      assert (x + 15) % U32 == x + 15 - U32;
    }
  }

  // ------------------------------------------------------------------ one call

  lemma InsertKeeps(h: Heap, i: nat, b: Block)
    requires WellFormed(h)
    requires i <= |h.blocks| && Fits(h, i, b.size)
    requires b.address == EndBefore(h, i) + HEADER && b.size == Align(b.oSize)
    ensures WellFormed(Insert(h, i, b))
  {
    var h' := Insert(h, i, b);
    forall k: nat | k < |h'.blocks|
      ensures Rounded(h', k)
    {
      assert k < i ==> Rounded(h, k);
      assert k > i ==> Rounded(h, k - 1);
    }
    forall k: nat | k <= |h'.blocks|
      ensures Apart(h', k)
    {
      assert k < i ==> Apart(h, k);
      assert k > i + 1 ==> Apart(h, k - 1);
    }
  }

  lemma RemoveKeeps(h: Heap, i: nat)
    requires WellFormed(h) && i < |h.blocks|
    ensures WellFormed(Remove(h, i))
  {
    var h' := Remove(h, i);
    assert Rounded(h, i) && Apart(h, i) && Apart(h, i + 1);
    forall k: nat | k < |h'.blocks|
      ensures Rounded(h', k)
    {
      assert Rounded(h, if k < i then k else k + 1);
    }
    forall k: nat | k < |h'.blocks| || 0 < k == |h'.blocks|
      ensures Apart(h', k)
    {
      assert Apart(h, if k < i then k else k + 1);
    }
  }

  lemma ResizeKeeps(h: Heap, i: nat, b: Block)
    requires WellFormed(h) && i < |h.blocks|
    requires b.address == h.blocks[i].address && b.size == Align(b.oSize)
    requires AddressAt(h, i + 1) >= b.address + b.size + 2 * HEADER
    ensures WellFormed(h.(blocks := h.blocks[i := b]))
  {
    var h' := h.(blocks := h.blocks[i := b]);
    forall k: nat | k < |h'.blocks|
      ensures Rounded(h', k)
    {
      assert Rounded(h, k);
    }
    forall k: nat | k <= |h'.blocks|
      ensures Apart(h', k)
    {
      assert Apart(h, k);
    }
  }

  lemma MallocKeeps(h: Heap, n: u32)
    requires WellFormed(h)
    ensures WellFormed(Malloc(h, n).0)
  {
    var i := FirstFit(h, Align(n), 0);
    if n != 0 && i <= |h.blocks| {
      EndsAscend(h, 0, i);
      InsertKeeps(h, i, Block(EndBefore(h, i) + HEADER, Align(n), n));
    }
  }

  lemma DropKeeps(h: Heap, p: int)
    requires WellFormed(h)
    ensures WellFormed(Drop(h, p))
  {
    if Listed(h, p) {
      RemoveKeeps(h, Find(h, p, 0));
    }
  }

  lemma FreeKeeps(h: Heap, p: int)
    requires WellFormed(h) && FreeOk(h, p)
    ensures WellFormed(Free(h, p))
  {
    DropKeeps(h, p);
  }

  lemma ReallocKeeps(h: Heap, p: int, n: u32)
    requires WellFormed(h) && ReallocOk(h, p, n)
    ensures WellFormed(Realloc(h, p, n).0)
  {
    var i := Find(h, p, 0);
    if p == 0 {
      MallocKeeps(h, n);
    } else if n != 0 && i < |h.blocks| {
      var b := h.blocks[i];
      var actual := Grown(b, n);
      if MustMove(h, p, n) {
        MallocKeeps(h, actual);
        RemoveKeeps(h, i);
        DropKeeps(Malloc(h, actual).0, p);
      } else if actual != b.size {
        ResizeKeeps(h, i, Block(p, actual, AddU32(b.oSize, n)));
      }
    }
  }

  // ------------------------------------------------------------------ first fit

  /** malloc fails exactly on an empty request, when no two adjacent nodes leave two headers of 24
      bytes plus the rounded size, or when the lowest such gap starts at address zero. */
  lemma MallocComplete(h: Heap, n: u32)
    requires WellFormed(h)
    ensures Malloc(h, n).1 == 0 <==>
      || n == 0
      || (forall k: nat :: k <= |h.blocks| ==> AddressAt(h, k) - EndBefore(h, k) < 48 + Align(n))
      || (h.lo == 0 && AddressAt(h, 0) >= 48 + Align(n))
  {
    assert forall k: nat :: k <= |h.blocks| ==> (Fits(h, k, Align(n)) <==> AddressAt(h, k) - EndBefore(h, k) >= 48 + Align(n));
    var i := FirstFit(h, Align(n), 0);
    if i <= |h.blocks| {
      EndsAscend(h, 0, i);
      if i > 0 {
        EndsAscend(h, 0, i - 1);
        assert Apart(h, i - 1) && Rounded(h, i - 1);
      }
    }
  }

  /** When malloc succeeds it links one new block into the lowest gap that fits. */
  lemma MallocTakesLowest(h: Heap, n: u32) returns (i: nat)
    requires WellFormed(h) && Malloc(h, n).1 != 0
    ensures i <= |h.blocks| && Fits(h, i, Align(n)) && AddressAt(h, i) - EndBefore(h, i) >= 48 + Align(n)
    ensures forall k: nat :: k < i ==> !Fits(h, k, Align(n)) && AddressAt(h, k) - EndBefore(h, k) < 48 + Align(n)
    ensures Malloc(h, n).1 == EndBefore(h, i) + 24
    ensures Malloc(h, n).0.blocks == h.blocks[..i] + [Block(Malloc(h, n).1, Align(n), n)] + h.blocks[i..]
  {
    i := FirstFit(h, Align(n), 0);
    forall k: nat | k < i
      ensures !Fits(h, k, Align(n)) && AddressAt(h, k) - EndBefore(h, k) < 48 + Align(n)
    {
      assert !Fits(h, k, Align(n));
    }
  }

  /** The block malloc returns meets no header and no payload of the blocks already there. */
  lemma MallocIsFresh(h: Heap, n: u32, k: nat)
    requires WellFormed(h) && k < |h.blocks|
    requires Malloc(h, n).1 != 0
    ensures var p, b := Malloc(h, n).1, h.blocks[k];
      p + Align(n) <= b.address - HEADER || b.address + b.size <= p - HEADER
    ensures var p := Malloc(h, n).1; h.lo + HEADER <= p && p + Align(n) + HEADER <= h.hi
  {
    MallocKeeps(h, n);
    var h' := Malloc(h, n).0;
    var i := FirstFit(h, Align(n), 0);
    InBounds(h', i, i);
    if k < i {
      InBounds(h', k, i);
    } else {
      InBounds(h', i, k + 1);
      assert h'.blocks[k + 1] == h.blocks[k];
    }
  }

  /** A heap whose end address wrapped below its start never serves a request. */
  lemma BackwardsHeapIsFull(h: Heap, n: u32)
    requires WellFormed(h) && h.hi < h.lo
    ensures h.blocks == [] && Malloc(h, n) == (h, 0)
  {
    if h.blocks != [] {
      assert Apart(h, |h.blocks|);
      EndsAscend(h, 0, |h.blocks|);
    }
  }

  // ------------------------------------------------------------------ lookups

  lemma FindAt(h: Heap, i: nat)
    requires WellFormed(h) && i < |h.blocks|
    ensures Find(h, h.blocks[i].address, 0) == i
    ensures h.lo + HEADER <= h.blocks[i].address < h.hi
  {
    var r := Find(h, h.blocks[i].address, 0);
    InBounds(h, i, i);
    assert Rounded(h, i);
    if r < i {
      assert Rounded(h, r);
      InBounds(h, r, i);
    }
  }

  /** free undoes malloc: the heap is exactly what it was. */
  lemma FreeUndoesMalloc(h: Heap, n: u32)
    requires WellFormed(h) && Malloc(h, n).1 != 0
    ensures var (h', p) := Malloc(h, n); FreeOk(h', p) && Free(h', p) == h
  {
    MallocKeeps(h, n);
    var (h', p) := Malloc(h, n);
    var i := FirstFit(h, Align(n), 0);
    FindAt(h', i);
    assert Remove(h', i).blocks == h.blocks;
  }

  function FreeAll(h: Heap, ps: seq<int>): Heap
    requires h.hi !in ps
    decreases |ps|
  {
    if ps == [] then h else FreeAll(Free(h, ps[0]), ps[1..])
  }

  /** The block at position k, if there is one, is among the addresses ps. */
  predicate Covered(h: Heap, k: nat, ps: seq<int>) {
    k < |h.blocks| ==> h.blocks[k].address in ps
  }

  /** Freeing every block, in any order, leaves the list as malloc_init made it. */
  lemma {:induction false} FreeAllEmpties(h: Heap, ps: seq<int>)
    requires WellFormed(h) && h.hi !in ps
    requires forall k: nat :: Covered(h, k, ps)
    ensures FreeAll(h, ps) == Heap(h.lo, h.hi, [])
    decreases |ps|
  {
    if ps == [] {
      assert Covered(h, 0, ps);
    } else {
      var h1 := Free(h, ps[0]);
      FreeKeeps(h, ps[0]);
      if ps[0] == 0 && Listed(h, 0) {
        FindAt(h, Find(h, 0, 0));
      }
      assert h1 == Drop(h, ps[0]);
      forall k: nat
        ensures Covered(h1, k, ps[1..])
      {
        if k < |h1.blocks| {
          var j := StillThere(h, ps[0], k);
          assert Covered(h, j, ps);
        }
      }
      FreeAllEmpties(h1, ps[1..]);
    }
  }

  lemma StillThere(h: Heap, p: int, k: nat) returns (j: nat)
    requires WellFormed(h) && k < |Drop(h, p).blocks|
    ensures Drop(h, p).blocks[k].address != p
    ensures j < |h.blocks| && h.blocks[j] == Drop(h, p).blocks[k]
  {
    var i := Find(h, p, 0);
    j := if k < i then k else k + 1;
    FindAt(h, j);
  }

  /** Positions in a list that has just grown by one block. */
  lemma FindInserted(h: Heap, j: nat, b: Block, k: nat)
    requires j <= |h.blocks| && k < |h.blocks|
    requires WellFormed(Insert(h, j, b))
    ensures Find(Insert(h, j, b), b.address, 0) == j
    ensures Find(Insert(h, j, b), h.blocks[k].address, 0) == if j <= k then k + 1 else k
    ensures h.blocks[k].address != b.address
  {
    var h1 := Insert(h, j, b);
    FindAt(h1, j);
    assert h1.blocks[if j <= k then k + 1 else k] == h.blocks[k];
    FindAt(h1, if j <= k then k + 1 else k);
  }

  /** The block handed out is at least as large as the request exactly when rounding the request
      up does not wrap; a request above 0xFFFFFFF0 gets a block of size 0. */
  lemma MallocLargeEnoughIff(h: Heap, n: u32)
    requires WellFormed(h) && Malloc(h, n).1 != 0
    ensures var (h', p) := Malloc(h, n);
      Listed(h', p) && var b := h'.blocks[Find(h', p, 0)];
      b.oSize == n && (b.size >= n <==> n <= 0xFFFF_FFF0) && (n > 0xFFFF_FFF0 ==> b.size == 0)
  {
    var i := MallocTakesLowest(h, n);
    MallocKeeps(h, n);
    var (h', p) := Malloc(h, n);
    assert h'.blocks[i] == Block(p, Align(n), n);
    FindAt(h', i);
    AlignRounds(n);
  }

  // ------------------------------------------------------------------ realloc

  /** The heap after malloc inserted block b at j and realloc unlinked the block at i, with
      its predecessor's `next` read before the insertion. */
  function MovedHeap(h: Heap, j: nat, b: Block, i: nat): Heap
    requires j <= |h.blocks| && i < |h.blocks|
  {
    if j == i then Remove(h, i) else Drop(Insert(h, j, b), h.blocks[i].address)
  }

  lemma StaleDropsBoth(h: Heap, b: Block, i: nat)
    requires i < |h.blocks| && WellFormed(Insert(h, i, b))
    ensures var h' := MovedHeap(h, i, b, i); !Listed(h', b.address) && !Listed(h', h.blocks[i].address)
  {
    var h' := Remove(h, i);
    forall k | 0 <= k < |h'.blocks|
      ensures h'.blocks[k].address != b.address && h'.blocks[k].address != h.blocks[i].address
    {
      var k0 := if k < i then k else k + 1;
      FindInserted(h, i, b, k0);
      FindInserted(h, i, b, i);
    }
  }

  lemma MoveSwapsBlocks(h: Heap, j: nat, b: Block, i: nat)
    requires i < |h.blocks| && j <= |h.blocks| && j != i
    requires WellFormed(Insert(h, j, b))
    ensures var h' := MovedHeap(h, j, b, i); Listed(h', b.address) && !Listed(h', h.blocks[i].address)
  {
    FindInserted(h, j, b, i);
    var h1, p := Insert(h, j, b), h.blocks[i].address;
    var h' := Drop(h1, p);
    DropKeeps(h1, p);
    var at := Find(h1, p, 0);
    var j' := if j < at then j else j - 1;
    assert h'.blocks[j'] == b;
    FindAt(h', j');
    forall k | 0 <= k < |h'.blocks|
      ensures h'.blocks[k].address != p
    {
      var _ := StillThere(h1, p, k);
    }
  }

  lemma ReallocByMove(h: Heap, i: nat, n: u32)
    requires WellFormed(h) && i < |h.blocks| && MustMove(h, h.blocks[i].address, n)
    requires ReallocOk(h, h.blocks[i].address, n)
    ensures var (p, actual) := (h.blocks[i].address, Grown(h.blocks[i], n));
      var tmp, j := Malloc(h, actual).1, FirstFit(h, Align(actual), 0);
      Realloc(h, p, n) == if tmp == 0 then (h, 0) else (MovedHeap(h, j, Block(tmp, Align(actual), actual), i), tmp)
  {
    FindAt(h, i);
    AlignTwice(AddU32(h.blocks[i].oSize, n));
  }

  lemma ReallocInPlace(h: Heap, i: nat, n: u32)
    requires WellFormed(h) && i < |h.blocks| && n != 0
    requires Grown(h.blocks[i], n) != h.blocks[i].size && !MustMove(h, h.blocks[i].address, n)
    requires ReallocOk(h, h.blocks[i].address, n)
    ensures var b := h.blocks[i];
      Realloc(h, b.address, n) ==
        (h.(blocks := h.blocks[i := Block(b.address, Grown(b, n), AddU32(b.oSize, n))]), b.address)
  {
    FindAt(h, i);
  }

  lemma AlignTwice(x: u32)
    ensures Align(Align(x)) == Align(x)
  {
    AlignRounds(x);
    AlignRounds(Align(x));
  }

  /** What realloc answers.  A null pointer asks for a new block; no more bytes give the pointer
      back; an address that is not on the list gives null, save the end of the heap.  A listed
      block is refused exactly when its rounded size changes, there is no room behind it and
      malloc finds none elsewhere; it stays where it is whenever it can. */
  predicate Answers(h: Heap, p: int, n: u32, r: int) {
    var i := Find(h, p, 0);
    if p == 0 then r == Malloc(h, n).1
    else if n == 0 then r == p
    else if i == |h.blocks| then r == if p == h.hi then p else 0
    else
      var b := h.blocks[i];
      var size := Align((b.oSize + n) % 0x1_0000_0000);
      var next := if i + 1 < |h.blocks| then h.blocks[i + 1].address else h.hi;
      var stays := size == b.size || next >= p + size + 48;
      && (r == 0 <==> !stays && Malloc(h, size).1 == 0)
      && (stays ==> r == p)
      && (!stays ==> r == Malloc(h, size).1)
  }

  /** What realloc leaves of the list when it does not move a block: the list itself, or with the
      one block's size and request changed. */
  predicate Leaves(h: Heap, p: int, n: u32, h': Heap, r: int) {
    && (p == 0 ==> h' == Malloc(h, n).0)
    && (p != 0 && (r == 0 || n == 0 || !Listed(h, p)) ==> h' == h)
    && (p != 0 && n != 0 && Listed(h, p) && r == p ==>
          var i := Find(h, p, 0);
          var sum := (h.blocks[i].oSize + n) % 0x1_0000_0000;
          h' == if Align(sum) == h.blocks[i].size then h
                else Heap(h.lo, h.hi, h.blocks[..i] + [Block(p, Align(sum), sum)] + h.blocks[i + 1..]))
  }

  /** The answer of realloc and what it leaves, for every allowed call. */
  lemma ReallocAnswers(h: Heap, p: int, n: u32)
    requires WellFormed(h) && ReallocOk(h, p, n)
    ensures Answers(h, p, n, Realloc(h, p, n).1) && Leaves(h, p, n, Realloc(h, p, n).0, Realloc(h, p, n).1)
  {
    var i := Find(h, p, 0);
    if p != 0 && n != 0 && i < |h.blocks| {
      FindAt(h, i);
      NewElsewhere(h, i, Grown(h.blocks[i], n));
      ListedAnswers(h, p, n);
      ListedLeaves(h, p, n);
    }
  }

  lemma NewElsewhere(h: Heap, i: nat, n: u32)
    requires WellFormed(h) && i < |h.blocks|
    ensures Malloc(h, n).1 != 0 ==> Malloc(h, n).1 != h.blocks[i].address
  {
    if Malloc(h, n).1 != 0 {
      MallocIsFresh(h, n, i);
      assert Rounded(h, i);
      AlignRounds(h.blocks[i].oSize);
      AlignRounds(n);
    }
  }

  lemma ListedAnswers(h: Heap, p: int, n: u32)
    requires ReallocOk(h, p, n) && p != 0 && n != 0 && Listed(h, p)
    ensures Answers(h, p, n, Realloc(h, p, n).1)
  {
    hide Malloc, Drop, Align, CopyOverruns;
  }

  lemma ListedLeaves(h: Heap, p: int, n: u32)
    requires ReallocOk(h, p, n) && p != 0 && n != 0 && Listed(h, p)
    requires var q := Malloc(h, Grown(h.blocks[Find(h, p, 0)], n)).1; q != 0 ==> q != p
    ensures Leaves(h, p, n, Realloc(h, p, n).0, Realloc(h, p, n).1)
  {
    hide Malloc, Drop, Align, CopyOverruns;
    var i := Find(h, p, 0);
    var b' := Block(p, Grown(h.blocks[i], n), AddU32(h.blocks[i].oSize, n));
    assert h.blocks[i := b'] == h.blocks[..i] + [b'] + h.blocks[i + 1..];
  }

  /** A moved block is on the live list exactly when first fit did not choose the gap
      directly before the old block; the old block is gone either way. */
  lemma MovedBlockListed(h: Heap, p: int, n: u32)
    requires WellFormed(h) && MustMove(h, p, n) && ReallocOk(h, p, n) && Realloc(h, p, n).1 != 0
    ensures var (h', r) := Realloc(h, p, n);
      (Listed(h', r) <==> !StalePrev(h, p, n)) && !Listed(h', p) && r != p
  {
    var i := Find(h, p, 0);
    var actual := Grown(h.blocks[i], n);
    MallocKeeps(h, actual);
    var j := FirstFit(h, actual, 0);
    var b := Block(EndBefore(h, j) + HEADER, Align(actual), actual);
    FindInserted(h, j, b, i);
    if j == i {
      StaleDropsBoth(h, b, i);
    } else {
      MoveSwapsBlocks(h, j, b, i);
    }
  }

  /** The failing case on a concrete heap: block 0x1018 is freed, the block at 0x1140 has no
      room to grow, its copy goes into the freed gap, and both nodes are unlinked.  The next
      malloc hands out the address the caller has just been given. */
  lemma StalePrevHandsOutTwice()
    ensures var h := Heap(0x1000, 0x1400, [Block(0x1140, 32, 32), Block(0x1178, 64, 64)]);
      && WellFormed(h) && StalePrev(h, 0x1140, 64) && ReallocOk(h, 0x1140, 64)
      && Realloc(h, 0x1140, 64).1 == 0x1018
      && Malloc(Realloc(h, 0x1140, 64).0, 96).1 == 0x1018
  {
    var h := Heap(0x1000, 0x1400, [Block(0x1140, 32, 32), Block(0x1178, 64, 64)]);
    assert Find(h, 0x1140, 0) == 0;
    assert Fits(h, 0, 96);
    var h' := Remove(h, 0);
    assert h'.blocks == [Block(0x1178, 64, 64)];
    assert Fits(h', 0, 96);
  }

  /** When a block has to change its rounded size, the new size is smaller exactly when the sum of
      the two requests is too large for 32 bits and the block has a payload at all. */
  lemma GrownSmallerIff(b: Block, n: u32)
    requires b.size == Align(b.oSize)
    ensures Grown(b, n) != b.size ==> (Grown(b, n) < b.size <==> b.oSize + n > 0xFFFF_FFF0 && b.size > 0)
    ensures Grown(b, n) % 16 == 0
  {
    var sum := AddU32(b.oSize, n);
    AlignRounds(b.oSize);
    AlignRounds(sum);
    hide Align;
    assert sum == if b.oSize + n < U32 then b.oSize + n else b.oSize + n - U32;
  }

  /** A moving realloc copies the whole old payload.  The copy stays inside the new block exactly
      when it does not overrun. */
  lemma CopyFitsIff(h: Heap, p: int, n: u32)
    requires WellFormed(h) && MustMove(h, p, n)
    requires Malloc(h, Grown(h.blocks[Find(h, p, 0)], n)).1 != 0
    ensures var b := h.blocks[Find(h, p, 0)];
      var (h', tmp) := Malloc(h, Grown(b, n));
      Listed(h', tmp) && (b.size <= h'.blocks[Find(h', tmp, 0)].size <==> !CopyOverruns(h, p, n))
  {
    var b := h.blocks[Find(h, p, 0)];
    var actual := Grown(b, n);
    assert Rounded(h, Find(h, p, 0));
    GrownSmallerIff(b, n);
    AlignTwice(AddU32(b.oSize, n));
    var j := MallocTakesLowest(h, actual);
    MallocKeeps(h, actual);
    var h' := Malloc(h, actual).0;
    assert h'.blocks[j].size == Align(actual) == actual;
    FindAt(h', j);
  }

  /** The overrun on a concrete heap: the 32 bytes of the block at 0x1068 are copied into a new
      block of 16 bytes at 0x1018, over the header of the listed block at 0x1040. */
  lemma WrappedSumOverrunsHeader()
    ensures var h := Heap(0x1000, 0x1400, [Block(0x1040, 16, 16), Block(0x1068, 32, 32), Block(0x10A0, 16, 16)]);
      var n: u32 := 0xFFFF_FFF0;
      && WellFormed(h) && CopyOverruns(h, 0x1068, n) && !StalePrev(h, 0x1068, n)
      && var (h', tmp) := Malloc(h, Grown(h.blocks[Find(h, 0x1068, 0)], n));
      && tmp == 0x1018 && h'.blocks == [Block(0x1018, 16, 16)] + h.blocks
      && tmp < 0x1040 && 0x1040 - HEADER < tmp + h.blocks[Find(h, 0x1068, 0)].size
  {
    var h := Heap(0x1000, 0x1400, [Block(0x1040, 16, 16), Block(0x1068, 32, 32), Block(0x10A0, 16, 16)]);
    var n: u32 := 0xFFFF_FFF0;
    assert Find(h, 0x1068, 0) == Find(h, 0x1068, 1) == 1;
    assert AddU32(32, n) == 16;
    assert Grown(h.blocks[1], n) == 16;
    assert Fits(h, 0, 16);
    assert FirstFit(h, 16, 0) == 0;
  }

  // ------------------------------------------------------------------ runs

  datatype Call = CallMalloc(n: u32) | CallFree(p: int) | CallRealloc(p: int, n: u32)

  /** The heap together with the addresses the callers hold. */
  datatype Use = Use(heap: Heap, held: set<int>)

  /** The calls the code carries out without leaving its own memory. */
  predicate CallOk(h: Heap, c: Call) {
    match c
    case CallMalloc(n) => true
    case CallFree(p) => FreeOk(h, p)
    case CallRealloc(p, n) => ReallocOk(h, p, n)
  }

  function Step(u: Use, c: Call): Use
    requires CallOk(u.heap, c)
  {
    match c
    case CallMalloc(n) =>
      var (h, p) := Malloc(u.heap, n);
      Use(h, if p == 0 then u.held else u.held + {p})
    case CallFree(p) =>
      Use(Free(u.heap, p), u.held - {p})
    case CallRealloc(p, n) =>
      var (h, r) := Realloc(u.heap, p, n);
      Use(h, if r == 0 || (p != 0 && p !in u.held) then u.held else u.held - {p} + {r})
  }

  /** Every call of a run is one of those, on the heap it meets. */
  predicate CallsOk(u: Use, calls: seq<Call>)
    decreases |calls|
  {
    calls == [] || (CallOk(u.heap, calls[0]) && CallsOk(Step(u, calls[0]), calls[1..]))
  }

  function Run(u: Use, calls: seq<Call>): (r: Use)
    requires CallsOk(u, calls)
    ensures r.heap.lo == u.heap.lo && r.heap.hi == u.heap.hi
    decreases |calls|
  {
    if calls == [] then u else Run(Step(u, calls[0]), calls[1..])
  }

  /** The guard of the failing realloc is never taken. */
  predicate NeverStale(u: Use, calls: seq<Call>)
    requires CallsOk(u, calls)
    decreases |calls|
  {
    calls == [] ||
    (!(calls[0].CallRealloc? && StalePrev(u.heap, calls[0].p, calls[0].n)) && NeverStale(Step(u, calls[0]), calls[1..]))
  }

  /** The callers hold exactly the addresses of the listed blocks. */
  ghost predicate Tracked(u: Use) {
    WellFormed(u.heap) && 0 !in u.held && forall p :: p != 0 ==> (p in u.held <==> Listed(u.heap, p))
  }

  lemma StepKeeps(u: Use, c: Call)
    requires WellFormed(u.heap) && CallOk(u.heap, c)
    ensures WellFormed(Step(u, c).heap)
  {
    match c
    case CallMalloc(n) => MallocKeeps(u.heap, n);
    case CallFree(p) => FreeKeeps(u.heap, p);
    case CallRealloc(p, n) => ReallocKeeps(u.heap, p, n);
  }

  /** Every heap reached by such calls is well formed, stale reallocs included: as far as the calls
      themselves write, the list stays intact. */
  lemma {:induction false} RunKeeps(u: Use, calls: seq<Call>)
    requires WellFormed(u.heap) && CallsOk(u, calls)
    ensures WellFormed(Run(u, calls).heap)
    decreases |calls|
  {
    if calls != [] {
      StepKeeps(u, calls[0]);
      RunKeeps(Step(u, calls[0]), calls[1..]);
    }
  }

  lemma InsertListed(h: Heap, i: nat, b: Block, q: int)
    requires i <= |h.blocks|
    ensures Listed(Insert(h, i, b), q) <==> Listed(h, q) || q == b.address
  {
    var h1 := Insert(h, i, b);
    assert h1.blocks[i] == b;
    var k, k1 := Find(h, q, 0), Find(h1, q, 0);
    if k < |h.blocks| {
      assert h1.blocks[if i <= k then k + 1 else k] == h.blocks[k];
    }
    if k1 < |h1.blocks| && k1 != i {
      assert h.blocks[if i < k1 then k1 - 1 else k1] == h1.blocks[k1];
    }
  }

  lemma DropListed(h: Heap, p: int, q: int)
    requires WellFormed(h)
    ensures Listed(Drop(h, p), q) <==> Listed(h, q) && q != p
  {
    var h1, i := Drop(h, p), Find(h, p, 0);
    var k, k1 := Find(h, q, 0), Find(h1, q, 0);
    if k1 < |h1.blocks| {
      var j := StillThere(h, p, k1);
    }
    if k < |h.blocks| && q != p && i < |h.blocks| {
      assert h1.blocks[if k < i then k else k - 1] == h.blocks[k];
    }
  }

  lemma MallocListed(h: Heap, n: u32, q: int)
    requires WellFormed(h)
    ensures Listed(Malloc(h, n).0, q) <==> Listed(h, q) || (Malloc(h, n).1 != 0 && q == Malloc(h, n).1)
  {
    var i := FirstFit(h, Align(n), 0);
    if n != 0 && i <= |h.blocks| {
      EndsAscend(h, 0, i);
      InsertListed(h, i, Block(EndBefore(h, i) + HEADER, Align(n), n), q);
    }
  }

  lemma ReallocListed(h: Heap, p: int, n: u32, q: int)
    requires WellFormed(h) && Listed(h, p) && p != 0 && ReallocOk(h, p, n) && !StalePrev(h, p, n)
    ensures var (h', r) := Realloc(h, p, n);
      Listed(h', q) <==> if r == 0 then Listed(h, q) else (Listed(h, q) && q != p) || q == r
  {
    var (h', r) := Realloc(h, p, n);
    var i := Find(h, p, 0);
    var actual := Grown(h.blocks[i], n);
    if MustMove(h, p, n) {
      MallocKeeps(h, actual);
      MallocListed(h, actual, q);
      DropListed(Malloc(h, actual).0, p, q);
      if r != 0 {
        MovedBlockListed(h, p, n);
      }
    } else {
      var k, k1 := Find(h, q, 0), Find(h', q, 0);
      assert k < |h.blocks| ==> h'.blocks[k].address == h.blocks[k].address;
      assert k1 < |h'.blocks| ==> h'.blocks[k1].address == h.blocks[k1].address;
    }
  }

  lemma StepTracked(u: Use, c: Call)
    requires Tracked(u) && CallOk(u.heap, c)
    requires !(c.CallRealloc? && StalePrev(u.heap, c.p, c.n))
    ensures Tracked(Step(u, c))
  {
    var u' := Step(u, c);
    StepKeeps(u, c);
    forall q | q != 0
      ensures q in u'.held <==> Listed(u'.heap, q)
    {
      match c {
        case CallMalloc(n) => MallocListed(u.heap, n, q);
        case CallFree(p) =>
          if p != 0 {
            DropListed(u.heap, p, q);
          }
        case CallRealloc(p, n) =>
          if p == 0 {
            MallocListed(u.heap, n, q);
          } else if p in u.held {
            ReallocListed(u.heap, p, n, q);
          }
      }
    }
  }

  /** Over every run of such calls that never takes the stale guard, the addresses the callers hold
      are exactly the blocks on the list. */
  lemma {:induction false} RunTracked(u: Use, calls: seq<Call>)
    requires Tracked(u) && CallsOk(u, calls) && NeverStale(u, calls)
    ensures Tracked(Run(u, calls))
    decreases |calls|
  {
    if calls != [] {
      StepTracked(u, calls[0]);
      RunTracked(Step(u, calls[0]), calls[1..]);
    }
  }

  /** From a fresh heap, after any such run, two held blocks never overlap, headers included,
      and all of them lie inside the heap. */
  lemma HeldBlocksAreDisjoint(lo: int, hi: int, calls: seq<Call>, p: int, q: int)
    requires 0 <= lo && 0 <= hi
    requires CallsOk(Use(Heap(lo, hi, []), {}), calls) && NeverStale(Use(Heap(lo, hi, []), {}), calls)
    requires var u := Run(Use(Heap(lo, hi, []), {}), calls); p in u.held && q in u.held && p != q
    ensures var h := Run(Use(Heap(lo, hi, []), {}), calls).heap;
      Listed(h, p) && Listed(h, q) &&
      var a, b := h.blocks[Find(h, p, 0)], h.blocks[Find(h, q, 0)];
      && a.address == p && b.address == q
      && lo <= p - HEADER && p + a.size <= hi
      && (p + a.size <= q - HEADER || q + b.size <= p - HEADER)
  {
    var u0 := Use(Heap(lo, hi, []), {});
    assert Tracked(u0);
    RunTracked(u0, calls);
    var h := Run(u0, calls).heap;
    var i, j := Find(h, p, 0), Find(h, q, 0);
    InBounds(h, i, i);
    if i < j {
      InBounds(h, i, j);
    } else {
      InBounds(h, j, i);
    }
  }

  // ------------------------------------------------------------------ payload bytes

  predicate InPayload(h: Heap, k: nat, a: int)
    requires k < |h.blocks|
  {
    h.blocks[k].address <= a < h.blocks[k].address + h.blocks[k].size
  }

  /** Every payload byte of the blocks of h is the same in two memories. */
  ghost predicate SamePayloads<T>(h: Heap, was: seq<T>, now: seq<T>) {
    && |was| == |now|
    && forall k: nat, a: nat :: k < |h.blocks| && a < |now| && InPayload(h, k, a) ==> now[a] == was[a]
  }

  lemma HeaderMissesPayload(h: Heap, i: nat, k: nat, a: int)
    requires WellFormed(h) && i < |h.blocks| && k < |h.blocks| && InPayload(h, k, a)
    ensures !(h.blocks[i].address - HEADER <= a < h.blocks[i].address)
  {
    if k < i {
      InBounds(h, k, i);
    } else if i < k {
      InBounds(h, i, k);
      assert Rounded(h, i);
    }
  }

  /** Agreement on a longer list gives agreement on the list without one block. */
  lemma SameWithout<T>(h: Heap, i: nat, b: Block, was: seq<T>, now: seq<T>)
    requires i <= |h.blocks| && SamePayloads(Insert(h, i, b), was, now)
    ensures SamePayloads(h, was, now)
  {
    var h1 := Insert(h, i, b);
    forall k: nat, a: nat | k < |h.blocks| && a < |now| && InPayload(h, k, a)
      ensures now[a] == was[a]
    {
      assert InPayload(h1, if k < i then k else k + 1, a);
    }
  }

  /** Writes confined to the payload of block i leave the other blocks alone. */
  lemma SameElsewhere<T>(h: Heap, i: nat, was: seq<T>, now: seq<T>)
    requires WellFormed(h) && i < |h.blocks| && |was| == |now|
    requires forall a: nat :: a < |now| && !InPayload(h, i, a) ==> now[a] == was[a]
    ensures SamePayloads(Remove(h, i), was, now)
  {
    var h1 := Remove(h, i);
    forall k: nat, a: nat | k < |h1.blocks| && a < |now| && InPayload(h1, k, a)
      ensures now[a] == was[a]
    {
      var k0 := if k < i then k else k + 1;
      assert h.blocks[k0] == h1.blocks[k];
      if k0 < i {
        InBounds(h, k0, i);
      } else {
        InBounds(h, i, k0);
      }
    }
  }

  /** The n bytes at dst hold what the n bytes at src held before. */
  ghost predicate BytesMoved<T>(was: seq<T>, src: int, now: seq<T>, dst: int, n: int) {
    && 0 <= src && src + n <= |was| && 0 <= dst && dst + n <= |now|
    && forall a :: dst <= a < dst + n ==> now[a] == was[src + a - dst]
  }

  ghost predicate SameOutside<T>(was: seq<T>, now: seq<T>, dst: int, n: int) {
    |was| == |now| && forall a :: 0 <= a < |now| && !(dst <= a < dst + n) ==> now[a] == was[a]
  }

  /** Where the old and the new block lie while realloc copies: in bounds and disjoint. */
  lemma MoveLayout(h: Heap, j: nat, b: Block, i: nat)
    requires i < |h.blocks| && j <= |h.blocks| && b.size >= 0
    requires WellFormed(h) && WellFormed(Insert(h, j, b))
    ensures var p, size := h.blocks[i].address, h.blocks[i].size;
      && 0 <= size && h.lo <= p && p + size <= h.hi
      && h.lo <= b.address && b.address + b.size <= h.hi
      && (b.address + b.size <= p || p + size <= b.address)
  {
    var h1, at := Insert(h, j, b), if j <= i then i + 1 else i;
    assert h1.blocks[at] == h.blocks[i] && h1.blocks[j] == b;
    assert Rounded(h, i);
    InBounds(h1, at, at);
    InBounds(h1, j, j);
    if at < j {
      InBounds(h1, at, j);
    } else {
      InBounds(h1, j, at);
    }
  }

  /** malloc, copy and unlink together: m1 after malloc, m2 after the copy, m3 at the end. */
  lemma MoveBytes<T>(h: Heap, j: nat, b: Block, i: nat, m0: seq<T>, m1: seq<T>, m2: seq<T>, m3: seq<T>)
    requires i < |h.blocks| && j <= |h.blocks| && b.size >= h.blocks[i].size
    requires WellFormed(h) && WellFormed(Insert(h, j, b)) && h.hi <= |m0|
    requires SamePayloads(h, m0, m1)
    requires BytesMoved(m1, h.blocks[i].address, m2, b.address, h.blocks[i].size)
    requires SameOutside(m1, m2, b.address, h.blocks[i].size)
    requires SamePayloads(Insert(h, j, b), m2, m3)
    ensures SamePayloads(h, m0, m3)
    ensures BytesMoved(m0, h.blocks[i].address, m3, b.address, h.blocks[i].size)
  {
    var h1 := Insert(h, j, b);
    var p, size := h.blocks[i].address, h.blocks[i].size;
    assert Rounded(h, i);
    MoveLayout(h, j, b, i);
    assert h1.blocks[j] == b && Remove(h1, j).blocks == h.blocks;
    assert forall a: nat :: a < |m2| && !InPayload(h1, j, a) ==> m2[a] == m1[a];
    SameElsewhere(h1, j, m1, m2);
    SameWithout(h, j, b, m2, m3);
    forall k: nat, a: nat | k < |h.blocks| && a < |m3| && InPayload(h, k, a)
      ensures m3[a] == m0[a]
    {
      assert m1[a] == m0[a] && m2[a] == m1[a];
    }
    forall a | b.address <= a < b.address + size
      ensures m3[a] == m0[p + a - b.address]
    {
      assert InPayload(h1, j, a) && InPayload(h, i, p + a - b.address);
      assert m3[a] == m2[a];
    }
  }
}
