/** The allocator as the boot loader runs it: nodes chained through `next`, their headers
    lying in the heap memory, and the payload bytes around them. */
module BootHeap {
  import opened BitVectors
  import opened Ints
  import opened Memory
  import opened HeapModel
  import opened HeapBytes
  import opened HeapProofs

  function Cut(h: Heap, i: nat, count: nat): Heap
    requires i + count <= |h.blocks|
  {
    h.(blocks := h.blocks[..i] + h.blocks[i + count..])
  }

  function Spliced<T>(s: seq<T>, i: nat, count: nat): seq<T>
    requires i + count <= |s|
  {
    s[..i] + s[i + count..]
  }

  lemma SplicedDistinct<T>(s: seq<T>, i: nat, count: nat)
    requires i + count <= |s| && forall j, k :: 0 <= j < k < |s| ==> s[j] != s[k]
    ensures var r := Spliced(s, i, count); forall j, k :: 0 <= j < k < |r| ==> r[j] != r[k]
  {
    var r := Spliced(s, i, count);
    forall j, k | 0 <= j < k < |r|
      ensures r[j] != r[k]
    {
      assert r[j] == s[if j < i then j else j + count] && r[k] == s[if k < i then k else k + count];
    }
  }

  lemma SplicedEnds<T>(s: seq<T>, i: nat, count: nat)
    requires 0 < i && i + count < |s|
    ensures var r := Spliced(s, i, count); |r| == |s| - count && r[0] == s[0] && r[|r| - 1] == s[|s| - 1]
    ensures forall n :: n in Spliced(s, i, count) ==> n in s
  {
  }

  class Node {
    var address: int
    var size: int
    var oSize: u32
    var next: Node?

    constructor (address: int, size: int, oSize: u32, next: Node?)
      ensures this.address == address && this.size == size && this.oSize == oSize && this.next == next
    {
      this.address, this.size, this.oSize, this.next := address, size, oSize, next;
    }
  }

  ghost predicate MirrorsAt(ns: seq<Node>, h: Heap, i: nat)
    requires |ns| == |h.blocks| + 2 && i < |h.blocks|
    reads ns
  {
    Block(ns[i + 1].address, ns[i + 1].size, ns[i + 1].oSize) == h.blocks[i]
  }

  /** A chain in which node i is linked past `count` nodes is a chain without them. */
  lemma SplicedLinks(ns: seq<Node>, i: nat, count: nat)
    requires i + 1 + count < |ns| && ns[i].next == ns[i + 1 + count]
    requires forall k {:trigger ns[k].next} :: 0 <= k < |ns| - 1 && k != i ==> ns[k].next == ns[k + 1]
    ensures var r := Spliced(ns, i + 1, count);
      forall k {:trigger r[k].next} :: 0 <= k < |r| - 1 ==> r[k].next == r[k + 1]
  {
    var r := Spliced(ns, i + 1, count);
    forall k {:trigger r[k].next} | 0 <= k < |r| - 1
      ensures r[k].next == r[k + 1]
    {
      assert r[k] == ns[if k <= i then k else k + count] && r[k + 1] == ns[if k < i then k + 1 else k + 1 + count];
    }
  }

  class BootHeap {
    const head: Node
    const tail: Node
    const mem: array<byte>      // indexed by physical address
    ghost var nodes: seq<Node>  // the chain, sentinels included
    ghost var heap: Heap        // its value

    ghost predicate Mirrors(i: nat)
      requires |nodes| == |heap.blocks| + 2 && i < |heap.blocks|
      reads this, nodes
    {
      MirrorsAt(nodes, heap, i)
    }

    ghost predicate Mirrored()
      reads this, nodes
    {
      && |nodes| == |heap.blocks| + 2
      && nodes[0] == head && nodes[|nodes| - 1] == tail
      && (forall i, j :: 0 <= i < j < |nodes| ==> nodes[i] != nodes[j])
      && tail.next == null && tail.size == 0 && tail.oSize == 0
      && head.address == heap.lo && head.size == 0 && tail.address == heap.hi
      && (forall i: nat :: i < |heap.blocks| ==> Mirrors(i))
    }

    ghost predicate Linked()
      reads this, nodes
    {
      Mirrored() && forall i {:trigger nodes[i].next} :: 0 <= i < |nodes| - 1 ==> nodes[i].next == nodes[i + 1]
    }

    /** The chain once node at has been linked past the `count` nodes after it. */
    ghost predicate Skips(at: nat, count: nat)
      reads this, nodes
    {
      && Mirrored() && at + count <= |heap.blocks| && nodes[at].next == nodes[at + 1 + count]
      && forall i {:trigger nodes[i].next} :: 0 <= i < |nodes| - 1 && i != at ==> nodes[i].next == nodes[i + 1]
    }

    ghost predicate Valid()
      reads this, nodes
    {
      Linked() && WellFormed(heap) && heap.hi <= mem.Length
    }

    /** malloc_init.  The end address is a 32-bit sum, so the end of a heap that reaches past 2^32
        lies below its start. */
    constructor (mem: array<byte>, pHeapHead: u32, nHeapSize: u32)
      requires AddU32(pHeapHead, nHeapSize) <= mem.Length
      ensures Valid() && fresh(nodes) && this.mem == mem
      ensures heap == Heap(pHeapHead, AddU32(pHeapHead, nHeapSize), [])
    {
      var last := new Node(AddU32(pHeapHead, nHeapSize), 0, 0, null);
      var first := new Node(pHeapHead, 0, 0, last);
      this.mem := mem;
      head, tail := first, last;
      nodes := [first, last];
      heap := Heap(pHeapHead, AddU32(pHeapHead, nHeapSize), []);
    }

    /** Filling in the fields of the node for block i overwrites the HEADER bytes below its
        payload with the fields' representation. */
    method StoreHeader(at: nat, ghost h: Heap, ghost i: nat)
      requires WellFormed(h) && h.hi <= mem.Length
      requires i < |h.blocks| && at == h.blocks[i].address - HEADER
      modifies mem
      ensures SamePayloads(h, old(mem[..]), mem[..])
      ensures forall a :: 0 <= a < mem.Length && !(h.lo <= a < h.hi) ==> mem[a] == old(mem[a])
    {
      InBounds(h, i, i);
      assert Rounded(h, i);
      for k := 0 to HEADER
        invariant forall a :: 0 <= a < mem.Length && !(at <= a < at + HEADER) ==> mem[a] == old(mem[a])
      {
        mem[at + k] := *;
      }
      forall k: nat, a: nat | k < |h.blocks| && a < mem.Length && InPayload(h, k, a)
        ensures mem[..][a] == old(mem[..])[a]
      {
        HeaderMissesPayload(h, i, k, a);
      }
    }

    /** Rewriting a field of the node at chain position i; the head is not in heap memory. */
    method Touch(n: Node, ghost h: Heap, ghost i: nat)
      requires WellFormed(h) && h.hi <= mem.Length && i <= |h.blocks|
      requires n == head <==> i == 0
      requires i > 0 ==> n.address == h.blocks[i - 1].address
      modifies mem
      ensures SamePayloads(h, old(mem[..]), mem[..])
    {
      if n != head {
        InBounds(h, i - 1, i - 1);
        StoreHeader(n.address - HEADER, h, i - 1);
      }
    }

    /** The loop both realloc and free use to find the node before the one holding p. */
    method FindPrev(p: int) returns (prev: Node, ghost i: nat)
      requires Valid()
      ensures i == Find(heap, p, 0)
      ensures var k := Find(heap, p, 0); prev == if k < |heap.blocks| || p == heap.hi then nodes[k] else tail
    {
      prev, i := head, 0;
      while prev.next != null
        invariant i < |nodes| && prev == nodes[i]
        invariant Find(heap, p, 0) == if i <= |heap.blocks| then Find(heap, p, i) else |heap.blocks|
        invariant i > |heap.blocks| ==> p != heap.hi
        decreases |nodes| - i
      {
        assert prev.next == nodes[i + 1] && (i < |heap.blocks| ==> Mirrors(i));
        if prev.next.address == p {
          break;
        }
        prev, i := prev.next, i + 1;
      }
      i := if i <= |heap.blocks| then i else |heap.blocks|;
    }

    /** Relinking prev: the `count` nodes after position i leave the chain.  When the last of them
        is the tail, the chain then ends at prev and mirrors no heap. */
    method Unlink(prev: Node, next: Node?, ghost i: nat, ghost count: nat)
      requires Valid() && 0 < count && i + count <= |heap.blocks| + 1
      requires prev == nodes[i]
      requires if i + count <= |heap.blocks| then next == nodes[i + 1 + count] else next == null
      requires i + count <= |heap.blocks| ==> WellFormed(Cut(heap, i, count))
      modifies this, prev, mem
      ensures i + count <= |old(heap).blocks| ==>
        && Valid() && heap == Cut(old(heap), i, count)
        && nodes == Spliced(old(nodes), i + 1, count)
      ensures i + count > |old(heap).blocks| ==> heap == old(heap) && nodes == old(nodes) && prev.next == null
      ensures SamePayloads(old(heap), old(mem[..]), mem[..])
    {
      assert i > 0 ==> Mirrors(i - 1);
      Touch(prev, heap, i);
      CutChain(prev, next, i, count);
    }

    method CutChain(prev: Node, next: Node?, ghost i: nat, ghost count: nat)
      requires Linked() && i + count <= |heap.blocks| + 1
      requires prev == nodes[i]
      requires i + count <= |heap.blocks| ==> next == nodes[i + 1 + count]
      modifies this`nodes, this`heap, prev`next
      ensures i + count <= |old(heap).blocks| ==>
        && Linked() && heap == Cut(old(heap), i, count)
        && nodes == Spliced(old(nodes), i + 1, count)
      ensures i + count > |old(heap).blocks| ==> heap == old(heap) && nodes == old(nodes) && prev.next == next
    {
      prev.next := next;
      if i + count <= |heap.blocks| {
        forall k: nat | k < |heap.blocks|
          ensures Mirrors(k)
        {
          assert old(Mirrors(k));
        }
        Forget(i, count);
      }
    }

    /** The skipped nodes are no longer part of the chain. */
    ghost method Forget(i: nat, count: nat)
      requires Skips(i, count)
      modifies this`nodes, this`heap
      ensures Linked() && heap == Cut(old(heap), i, count)
      ensures nodes == Spliced(old(nodes), i + 1, count)
    {
      var ns, h := Spliced(nodes, i + 1, count), Cut(heap, i, count);
      SplicedDistinct(nodes, i + 1, count);
      SplicedLinks(nodes, i, count);
      forall k: nat | k < |h.blocks|
        ensures MirrorsAt(ns, h, k)
      {
        assert Mirrors(if k < i then k else k + count);
      }
      SplicedEnds(nodes, i + 1, count);
      assert |h.blocks| == |heap.blocks| - count && h.lo == heap.lo && h.hi == heap.hi;
      hide Spliced, Cut, MirrorsAt;
      nodes, heap := ns, h;
      forall k: nat | k < |heap.blocks|
        ensures Mirrors(k)
      {
        assert MirrorsAt(nodes, heap, k);
      }
    }

    /** Linking a node filled in with block b in behind ptr. */
    method Link(ptr: Node, newptr: Node, ghost i: nat, ghost b: Block)
      requires Valid() && i <= |heap.blocks|
      requires ptr == nodes[i] && newptr !in nodes
      requires Block(newptr.address, newptr.size, newptr.oSize) == b && newptr.next == ptr.next
      requires WellFormed(Insert(heap, i, b))
      modifies this, ptr, mem
      ensures Valid() && heap == Insert(old(heap), i, b)
      ensures nodes == old(nodes[..i + 1]) + [newptr] + old(nodes[i + 1..])
      ensures SamePayloads(heap, old(mem[..]), mem[..])
    {
      assert i > 0 ==> Mirrors(i - 1);
      Touch(newptr, Insert(heap, i, b), i + 1);
      Touch(ptr, Insert(heap, i, b), i);
      InsertInChain(ptr, newptr, i, b);
    }

    method InsertInChain(ptr: Node, newptr: Node, ghost i: nat, ghost b: Block)
      requires Linked() && i <= |heap.blocks|
      requires ptr == nodes[i] && newptr !in nodes
      requires Block(newptr.address, newptr.size, newptr.oSize) == b && newptr.next == ptr.next
      modifies this`nodes, this`heap, ptr`next
      ensures Linked() && heap == Insert(old(heap), i, b)
      ensures nodes == old(nodes[..i + 1]) + [newptr] + old(nodes[i + 1..])
    {
      ptr.next := newptr;
      nodes := nodes[..i + 1] + [newptr] + nodes[i + 1..];
      heap := Insert(heap, i, b);
      forall k: nat | k < |heap.blocks|
        ensures Mirrors(k)
      {
        assert k < i ==> old(Mirrors(k));
        assert k > i ==> old(Mirrors(k - 1));
      }
    }

    /** malloc's scan for the first gap that is wide enough. */
    method FindGap(actual: u32) returns (ptr: Node, ghost i: nat)
      requires Valid()
      ensures i == FirstFit(heap, actual, 0)
      ensures ptr == nodes[FirstFit(heap, actual, 0)]
      ensures ptr.next == null <==> FirstFit(heap, actual, 0) > |heap.blocks|
    {
      ptr, i := head, 0;
      while ptr.next != null
        invariant i < |nodes| && ptr == nodes[i]
        invariant FirstFit(heap, actual, 0) == FirstFit(heap, actual, i)
        decreases |nodes| - i
      {
        AtNode(ptr, i);
        if ptr.next.address >= ptr.address + ptr.size + 2 * HEADER + actual {
          return;
        }
        ptr, i := ptr.next, i + 1;
      }
    }

    method Malloc(numBytes: u32) returns (p: int)
      requires Valid()
      modifies this, nodes, mem
      ensures Valid() && (heap, p) == HeapModel.Malloc(old(heap), numBytes)
      ensures p == 0 ==> nodes == old(nodes)
      ensures p != 0 ==>
        var i := FirstFit(old(heap), Align(numBytes), 0);
        |nodes| == |old(nodes)| + 1 && nodes[..i + 1] == old(nodes)[..i + 1] && nodes[i + 2..] == old(nodes)[i + 1..]
      ensures forall n :: n in nodes ==> n in old(nodes) || fresh(n)
      ensures SamePayloads(old(heap), old(mem[..]), mem[..])
    {
      if numBytes == 0 {
        return 0;
      }
      var actual := Align(numBytes);
      var ptr, i := FindGap(actual);
      if ptr.next == null {
        return 0;
      }
      AtNode(ptr, i);
      EndsAscend(heap, 0, i);
      if ptr.address + ptr.size == 0 {
        return 0;
      }
      p := NewBlock(ptr, actual, numBytes, i);
    }

    /** The node malloc builds behind ptr. */
    method NewBlock(ptr: Node, actual: u32, numBytes: u32, ghost i: nat) returns (p: int)
      requires Valid() && i <= |heap.blocks| && ptr == nodes[i]
      requires actual == Align(numBytes) && Fits(heap, i, actual)
      modifies this, ptr, mem
      ensures Valid() && p == EndBefore(old(heap), i) + HEADER && heap == Insert(old(heap), i, Block(p, actual, numBytes))
      ensures exists n :: fresh(n) && nodes == old(nodes[..i + 1]) + [n] + old(nodes[i + 1..])
      ensures SamePayloads(old(heap), old(mem[..]), mem[..])
    {
      AtNode(ptr, i);
      var newptr := new Node(ptr.address + ptr.size + HEADER, actual, numBytes, ptr.next);
      ghost var h, b := heap, Block(newptr.address, actual, numBytes);
      InsertKeeps(h, i, b);
      Link(ptr, newptr, i, b);
      SameWithout(h, i, b, old(mem[..]), mem[..]);
      p := newptr.address;
    }

    /** What the fields of a node and of its successor say about the heap's value. */
    lemma AtNode(ptr: Node, i: nat)
      requires Valid() && i < |nodes| - 1 && ptr == nodes[i]
      ensures ptr.next == nodes[i + 1] && i <= |heap.blocks|
      ensures ptr.address + ptr.size == EndBefore(heap, i)
      ensures nodes[i + 1].address == AddressAt(heap, i)
    {
      assert i > 0 ==> Mirrors(i - 1);
      assert i < |heap.blocks| ==> Mirrors(i);
    }

    /** free.  The address of the tail unlinks the tail: the nodes stay as they are, but the chain
        from the head ends before it. */
    method Free(p: int)
      requires Valid()
      modifies this, nodes, mem
      ensures Linked() <==> FreeOk(old(heap), p)
      ensures FreeOk(old(heap), p) ==> Valid() && heap == HeapModel.Free(old(heap), p)
      ensures !FreeOk(old(heap), p) ==>
        && heap == old(heap) && nodes == old(nodes) && nodes[|heap.blocks|].next == null
        && forall k :: 0 <= k < |heap.blocks| ==> nodes[k].next == nodes[k + 1]
      ensures forall n :: n in nodes ==> n in old(nodes)
      ensures SamePayloads(old(heap), old(mem[..]), mem[..])
    {
      if p == 0 {
        return;
      }
      var prev, i := FindPrev(p);
      if i < |heap.blocks| {
        AtNode(prev, i);
        FindAt(heap, i);
      }
      if prev.next == null {
        return;
      }
      AtNode(prev, i);
      if i < |heap.blocks| {
        AtNode(prev.next, i + 1);
        RemoveKeeps(heap, i);
      }
      Unlink(prev, prev.next.next, i, 1);
    }

    /** realloc's growth in place. */
    method Resize(ptr: Node, size: u32, oSize: u32, ghost i: nat)
      requires Valid() && i < |heap.blocks| && ptr == nodes[i + 1]
      requires WellFormed(heap.(blocks := heap.blocks[i := Block(ptr.address, size, oSize)]))
      modifies this, ptr, mem
      ensures Valid() && heap == old(heap.(blocks := heap.blocks[i := Block(ptr.address, size, oSize)]))
      ensures nodes == old(nodes)
      ensures SamePayloads(old(heap), old(mem[..]), mem[..])
    {
      ghost var h := heap;
      assert Mirrors(i);
      Touch(ptr, h, i + 1);
      ptr.size, ptr.oSize := size, oSize;
      heap := h.(blocks := h.blocks[i := Block(ptr.address, size, oSize)]);
      forall k: nat | k < |heap.blocks|
        ensures Mirrors(k)
      {
        assert old(Mirrors(k));
      }
    }

    /** realloc's copy to a new block; prev was looked up before malloc relinked the list. */
    method Move(prev: Node, ptr: Node, actual: u32, ghost i: nat) returns (tmp: int)
      requires Valid() && i < |heap.blocks|
      requires prev == nodes[i] && ptr == nodes[i + 1]
      requires actual % 16 == 0 && (HeapModel.Malloc(heap, actual).1 != 0 ==> actual >= heap.blocks[i].size)
      modifies this, nodes, mem
      ensures Valid() && tmp == HeapModel.Malloc(old(heap), actual).1
      ensures tmp == 0 ==> heap == old(heap)
      ensures tmp != 0 ==>
        var j := FirstFit(old(heap), Align(actual), 0);
        heap == MovedHeap(old(heap), j, Block(tmp, Align(actual), actual), i)
      ensures forall n :: n in nodes ==> n in old(nodes) || fresh(n)
      ensures SamePayloads(old(heap), old(mem[..]), mem[..])
      ensures tmp != 0 ==> BytesMoved(old(mem[..]), old(ptr.address), mem[..], tmp, old(ptr.size))
    {
      ghost var h, m0 := heap, mem[..];
      assert Mirrors(i);
      tmp := Malloc(actual);
      if tmp == 0 {
        return;
      }
      ghost var j := FirstFit(h, Align(actual), 0);
      ghost var at := if j <= i then i + 1 else i;
      assert nodes[at + 1] == ptr && (j != i ==> nodes[at] == prev);
      assert heap == Insert(h, j, Block(tmp, Align(actual), actual));
      assert Mirrors(at);
      AlignRounds(actual);
      CopyAndUnlink(prev, ptr, tmp, h, j, Block(tmp, Align(actual), actual), i, m0);
    }

    /** The rest of a move once malloc has linked the new block b at position j of h. */
    method CopyAndUnlink(prev: Node, ptr: Node, tmp: int, ghost h: Heap, ghost j: nat, ghost b: Block, ghost i: nat,
                         ghost m0: seq<byte>)
      requires Valid() && WellFormed(h) && i < |h.blocks| && j <= |h.blocks| && heap == Insert(h, j, b)
      requires b.address == tmp && b.size >= h.blocks[i].size
      requires var at := if j <= i then i + 1 else i;
        nodes[at + 1] == ptr && nodes[if j == i then i else at] == prev
      requires ptr.address == h.blocks[i].address && ptr.size == h.blocks[i].size
      requires SamePayloads(h, m0, mem[..])
      modifies this, prev, mem
      ensures Valid() && heap == MovedHeap(h, j, b, i)
      ensures forall n :: n in nodes ==> n in old(nodes)
      ensures SamePayloads(h, m0, mem[..])
      ensures BytesMoved(m0, h.blocks[i].address, mem[..], tmp, h.blocks[i].size)
    {
      assert |m0| == mem.Length && 0 <= h.lo;
      assert Rounded(h, i) && h.blocks[i].size >= 0;
      hide WellFormed, SamePayloads, BytesMoved, SameOutside, MovedHeap, Mirrored;
      ghost var m1 := mem[..];
      MoveLayout(h, j, b, i);
      CopyPayload(tmp, ptr.address, ptr.size);
      ghost var m2 := mem[..];
      UnlinkMoved(prev, ptr, h, j, b, i);
      MoveBytes(h, j, b, i, m0, m1, m2, mem[..]);
    }

    method UnlinkMoved(prev: Node, ptr: Node, ghost h: Heap, ghost j: nat, ghost b: Block, ghost i: nat)
      requires Valid() && WellFormed(h) && i < |h.blocks| && j <= |h.blocks| && heap == Insert(h, j, b)
      requires var at := if j <= i then i + 1 else i;
        nodes[at + 1] == ptr && nodes[if j == i then i else at] == prev
      modifies this, prev, mem
      ensures Valid() && heap == MovedHeap(h, j, b, i)
      ensures forall n :: n in nodes ==> n in old(nodes)
      ensures SamePayloads(old(heap), old(mem[..]), mem[..])
    {
      assert 0 <= h.lo && |nodes| == |heap.blocks| + 2;
      hide WellFormed, SamePayloads, MovedHeap, Mirrored, Linked, Valid, Cut, Spliced;
      ghost var at, count := if j <= i then i + 1 else i, if j == i then 2 else 1;
      FindAt(h, i);
      AtNode(ptr, at + 1);
      CutIsMoved(h, j, b, i);
      SplicedEnds(nodes, at + 2 - count, count);
      Unlink(prev, ptr.next, at + 1 - count, count);
    }

    /** The copy of the old payload into the new block. */
    method CopyPayload(dst: int, src: int, size: int)
      requires 0 <= dst && 0 <= src && 0 <= size && dst + size <= mem.Length && src + size <= mem.Length
      requires dst + size <= src || src + size <= dst
      modifies mem
      ensures BytesMoved(old(mem[..]), src, mem[..], dst, size) && SameOutside(old(mem[..]), mem[..], dst, size)
    {
      Memcpy(mem, dst, src, size, 8);
    }

    lemma CutIsMoved(h: Heap, j: nat, b: Block, i: nat)
      requires i < |h.blocks| && j <= |h.blocks| && h.blocks[i].address != 0
      requires WellFormed(h) && WellFormed(Insert(h, j, b))
      ensures var at, count := if j <= i then i + 1 else i, if j == i then 2 else 1;
        var cut := Cut(Insert(h, j, b), at + 1 - count, count);
        cut == MovedHeap(h, j, b, i) && WellFormed(cut)
    {
      if j == i {
        assert Cut(Insert(h, j, b), i, 2) == Remove(h, i);
        RemoveKeeps(h, i);
      } else {
        FindInserted(h, j, b, i);
        RemoveKeeps(Insert(h, j, b), if j <= i then i + 1 else i);
      }
    }

    /** realloc, on the calls whose copy fits into the new block. */
    method Realloc(p: int, numBytes: u32) returns (r: int)
      requires Valid() && ReallocOk(heap, p, numBytes)
      modifies this, nodes, mem
      ensures Valid() && (heap, r) == HeapModel.Realloc(old(heap), p, numBytes)
      ensures forall n :: n in nodes ==> n in old(nodes) || fresh(n)
      ensures Answers(old(heap), p, numBytes, r)
      ensures CallBytes(old(heap), CallRealloc(p, numBytes), old(mem[..]), mem[..])
    {
      ReallocAnswers(heap, p, numBytes);
      hide Answers;
      if p == 0 {
        r := Malloc(numBytes);
        return;
      }
      if numBytes == 0 {
        if Listed(heap, p) {
          ghost var k := Find(heap, p, 0);
          InBounds(heap, k, k);
        }
        return p;
      }
      var prev, i := FindPrev(p);
      if i < |heap.blocks| {
        AtNode(prev, i);
        assert Mirrors(i);
      }
      var ptr := prev.next;
      if ptr == null {
        return 0;
      }
      var actual := Align(AddU32(ptr.oSize, numBytes));
      if actual == ptr.size {
        if i < |heap.blocks| {
          InBounds(heap, i, i);
        }
        return p;
      }
      r := Grow(prev, ptr, actual, p, numBytes, i);
    }

    /** realloc once the block is found at position i and has to change its size. */
    method Grow(prev: Node, ptr: Node, actual: u32, p: int, numBytes: u32, ghost i: nat) returns (r: int)
      requires Valid() && i < |heap.blocks| && numBytes != 0
      requires prev == nodes[i] && ptr == nodes[i + 1] && p == heap.blocks[i].address
      requires actual == Grown(heap.blocks[i], numBytes) != heap.blocks[i].size
      requires ReallocOk(heap, p, numBytes)
      modifies this, nodes, mem
      ensures Valid() && (heap, r) == HeapModel.Realloc(old(heap), p, numBytes)
      ensures forall n :: n in nodes ==> n in old(nodes) || fresh(n)
      ensures SamePayloads(old(heap), old(mem[..]), mem[..])
      ensures r != 0 ==> BytesMoved(old(mem[..]), p, mem[..], r, old(heap).blocks[i].size)
    {
      ghost var h := heap;
      assert Mirrors(i) && Rounded(heap, i);
      FindAt(heap, i);
      AtNode(ptr, i + 1);
      GrownSmallerIff(heap.blocks[i], numBytes);
      InBounds(heap, i, i);
      assert i == Find(heap, p, 0);
      if ptr.next.address >= ptr.address + actual + 2 * HEADER {
        ReallocInPlace(h, i, numBytes);
        ResizeKeeps(heap, i, Block(ptr.address, actual, AddU32(ptr.oSize, numBytes)));
        Resize(ptr, actual, AddU32(ptr.oSize, numBytes), i);
        forall a | h.blocks[i].address <= a < h.blocks[i].address + h.blocks[i].size
          ensures mem[..][a] == old(mem[..])[a]
        {
          assert InPayload(h, i, a);
        }
        return p;
      }
      ReallocByMove(h, i, numBytes);
      r := Move(prev, ptr, actual, i);
    }
  }
}
