/** The boot heap of spl/common/malloc.c as a value: the heap's two ends and, in list order,
    the blocks between the head and the tail sentinel.  A block's header occupies the HEADER
    bytes just below its address. */
module HeapModel {
  import opened Ints

  /** sizeof(struct alloc_struct_t) with 64-bit addresses and pointers. */
  const HEADER: nat := 24

  datatype Block = Block(address: int, size: int, oSize: u32)
  datatype Heap = Heap(lo: int, hi: int, blocks: seq<Block>)

  /** MY_BYTE_ALIGN on a __u32: the addition wraps. */
  function Align(x: u32): (r: u32) {
    (x + 15) % U32 / 16 * 16
  }

  function AddU32(x: u32, y: u32): u32 {
    (x + y) % U32
  }

  /** `ptr->address + ptr->size` for the node before position i; node 0 is the head. */
  function EndBefore(h: Heap, i: nat): int
    requires i <= |h.blocks|
  {
    if i == 0 then h.lo else h.blocks[i - 1].address + h.blocks[i - 1].size
  }

  /** `ptr->next->address` for the node before position i. */
  function AddressAt(h: Heap, i: nat): int
    requires i <= |h.blocks|
  {
    if i == |h.blocks| then h.hi else h.blocks[i].address
  }

  /** Room for a block of `need` bytes between two adjacent nodes, as malloc and realloc test it. */
  predicate Fits(h: Heap, i: nat, need: int)
    requires i <= |h.blocks|
  {
    AddressAt(h, i) >= EndBefore(h, i) + 2 * HEADER + need
  }

  /** The block at position i, or the tail: its header starts at or after the end of the
      node before it. */
  predicate Apart(h: Heap, i: nat)
    requires i <= |h.blocks|
  {
    EndBefore(h, i) + HEADER <= AddressAt(h, i)
  }

  predicate Rounded(h: Heap, i: nat)
    requires i < |h.blocks|
  {
    h.blocks[i].size == Align(h.blocks[i].oSize)
  }

  /** The heap invariant, node by node. */
  ghost predicate WellFormed(h: Heap) {
    && 0 <= h.lo && 0 <= h.hi
    && (forall i: nat :: i < |h.blocks| ==> Rounded(h, i))
    && (forall i: nat :: i < |h.blocks| || 0 < i == |h.blocks| ==> Apart(h, i))
  }

  /** What the invariant means: every header and payload lies inside the heap, above
      everything earlier in the list. */
  lemma {:induction false} InBounds(h: Heap, i: nat, j: nat)
    requires WellFormed(h)
    requires i <= j < |h.blocks|
    ensures h.lo <= h.blocks[i].address - HEADER
    ensures h.blocks[i].address + h.blocks[i].size + HEADER <= h.hi
    ensures i < j ==> h.blocks[i].address + h.blocks[i].size <= h.blocks[j].address - HEADER
  {
    assert Apart(h, i) && Apart(h, j) && Apart(h, |h.blocks|);
    EndsAscend(h, 0, i);
    EndsAscend(h, i + 1, |h.blocks|);
    if i < j {
      EndsAscend(h, i + 1, j);
    }
  }

  lemma {:induction false} EndsAscend(h: Heap, i: nat, j: nat)
    requires WellFormed(h)
    requires i <= j <= |h.blocks|
    ensures EndBefore(h, i) <= EndBefore(h, j)
    decreases j - i
  {
    if i < j {
      EndsAscend(h, i, j - 1);
      assert Rounded(h, j - 1) && Apart(h, j - 1);
    }
  }

  // ---------------------------------------------------------------- first fit

  /** The first position at or after i with room, or |blocks| + 1. */
  function FirstFit(h: Heap, need: int, i: nat): (r: nat)
    requires i <= |h.blocks| + 1
    ensures i <= r <= |h.blocks| + 1
    ensures r <= |h.blocks| ==> Fits(h, r, need)
    ensures forall k :: i <= k < r && k <= |h.blocks| ==> !Fits(h, k, need)
    decreases |h.blocks| + 1 - i
  {
    if i > |h.blocks| || Fits(h, i, need) then i else FirstFit(h, need, i + 1)
  }

  function Insert(h: Heap, i: nat, b: Block): Heap
    requires i <= |h.blocks|
  {
    h.(blocks := h.blocks[..i] + [b] + h.blocks[i..])
  }

  function Remove(h: Heap, i: nat): Heap
    requires i < |h.blocks|
  {
    h.(blocks := h.blocks[..i] + h.blocks[i + 1..])
  }

  /** malloc: the new heap and the returned pointer, 0 standing for the null pointer. */
  function Malloc(h: Heap, numBytes: u32): (Heap, int) {
    var i := FirstFit(h, Align(numBytes), 0);
    if numBytes == 0 || i > |h.blocks| || EndBefore(h, i) == 0 then
      (h, 0)
    else
      var address := EndBefore(h, i) + HEADER;
      (Insert(h, i, Block(address, Align(numBytes), numBytes)), address)
  }

  /** The list position of the block whose payload starts at p, or |blocks|. */
  function Find(h: Heap, p: int, i: nat): (r: nat)
    requires i <= |h.blocks|
    ensures i <= r <= |h.blocks|
    ensures r < |h.blocks| ==> h.blocks[r].address == p
    ensures forall k :: i <= k < r ==> h.blocks[k].address != p
    decreases |h.blocks| - i
  {
    if i == |h.blocks| || h.blocks[i].address == p then i else Find(h, p, i + 1)
  }

  predicate Listed(h: Heap, p: int) {
    Find(h, p, 0) < |h.blocks|
  }

  /** The list without the block whose payload starts at p, if there is one. */
  function Drop(h: Heap, p: int): Heap {
    if Listed(h, p) then Remove(h, Find(h, p, 0)) else h
  }

  /** Given the heap's own end address, free would unlink the tail, after which the chain is no
      heap any more. */
  predicate FreeOk(h: Heap, p: int) {
    p == 0 || p != h.hi
  }

  /** free; an address that is not on the list leaves the heap alone. */
  function Free(h: Heap, p: int): Heap
    requires FreeOk(h, p)
  {
    if p == 0 then h else Drop(h, p)
  }

  /** The block size realloc aims for: the request is added to the original request. */
  function Grown(b: Block, numBytes: u32): u32 {
    Align(AddU32(b.oSize, numBytes))
  }

  /** realloc has to move the block: it found it, the rounded size changes, and there is
      no room behind it. */
  predicate MustMove(h: Heap, p: int, numBytes: u32) {
    var i := Find(h, p, 0);
    && p != 0 && numBytes != 0 && i < |h.blocks|
    && Grown(h.blocks[i], numBytes) != h.blocks[i].size
    && AddressAt(h, i + 1) < p + Grown(h.blocks[i], numBytes) + 2 * HEADER
  }

  /** realloc is about to copy the old payload into a smaller block: the block is moved, and the
      sum of the old and the new request is more than can be rounded up in 32 bits. */
  predicate CopyOverruns(h: Heap, p: int, numBytes: u32) {
    MustMove(h, p, numBytes) &&
    var b := h.blocks[Find(h, p, 0)];
    b.size > 0 && b.oSize + numBytes > 0xFFFF_FFF0 && Malloc(h, Grown(b, numBytes)).1 != 0
  }

  /** Given the heap's end address, realloc takes the tail for a block of size 0, and unless the
      rounded request is 0 as well it reads the tail's successor, which is null. */
  predicate ReadsPastTail(h: Heap, p: int, numBytes: u32) {
    p != 0 && numBytes != 0 && p == h.hi && Align(numBytes) != 0
  }

  /** The calls of realloc that write inside their own block only and follow no null pointer. */
  predicate ReallocOk(h: Heap, p: int, numBytes: u32) {
    !ReadsPastTail(h, p, numBytes) && !CopyOverruns(h, p, numBytes)
  }

  /** The guard of the failing case: first fit picks the gap directly before the block that
      is being moved, so the node put there is unlinked together with the block. */
  predicate StalePrev(h: Heap, p: int, numBytes: u32) {
    MustMove(h, p, numBytes) &&
    var i := Find(h, p, 0);
    FirstFit(h, Grown(h.blocks[i], numBytes), 0) == i
  }

  function Realloc(h: Heap, p: int, numBytes: u32): (Heap, int)
    requires ReallocOk(h, p, numBytes)
  {
    var i := Find(h, p, 0);
    if p == 0 then Malloc(h, numBytes)
    else if numBytes == 0 then (h, p)
    else if i == |h.blocks| then (h, if p == h.hi then p else 0)
    else
      var b := h.blocks[i];
      var actual := Grown(b, numBytes);
      if actual == b.size then (h, p)
      else if !MustMove(h, p, numBytes) then
        (h.(blocks := h.blocks[i := Block(p, actual, AddU32(b.oSize, numBytes))]), p)
      else
        var (h1, tmp) := Malloc(h, actual);
        if tmp == 0 then (h, 0)
        else if StalePrev(h, p, numBytes) then (Remove(h, i), tmp)
        else (Drop(h1, p), tmp)
  }
}
