/** What becomes of the payload bytes over whole runs: the allocator's calls interleaved with the
    holders' own stores. */
module HeapBytes {
  import opened Ints
  import opened HeapModel
  import opened HeapProofs

  function SizeOf(h: Heap, p: int): int {
    if Listed(h, p) then h.blocks[Find(h, p, 0)].size else 0
  }

  /** What a call leaves of the payload bytes: every block's stay, and a reallocated block's are at
      the result as well. */
  ghost predicate CallBytes<T>(h: Heap, c: Call, was: seq<T>, now: seq<T>)
    requires CallOk(h, c)
  {
    && SamePayloads(h, was, now)
    && (c.CallRealloc? && c.p != 0 && Listed(h, c.p) && Realloc(h, c.p, c.n).1 != 0 ==>
          BytesMoved(was, c.p, now, Realloc(h, c.p, c.n).1, SizeOf(h, c.p)))
  }

  /** A call, or the store of byte b at offset k of the block at p. */
  datatype Op<T> = Do(call: Call) | Store(p: int, k: nat, b: T)

  datatype World<T> = World(use: Use, mem: seq<T>)

  /** Callers store into their own blocks only, and no realloc takes the stale guard. */
  ghost predicate Next<T>(w: World<T>, op: Op<T>, w': World<T>) {
    match op
    case Do(c) =>
      && CallOk(w.use.heap, c) && !(c.CallRealloc? && StalePrev(w.use.heap, c.p, c.n))
      && w'.use == Step(w.use, c) && CallBytes(w.use.heap, c, w.mem, w'.mem)
    case Store(p, k, b) =>
      && p in w.use.held && k < SizeOf(w.use.heap, p) && 0 <= p + k < |w.mem|
      && w' == w.(mem := w.mem[p + k := b])
  }

  ghost predicate IsRun<T>(ws: seq<World<T>>, ops: seq<Op<T>>) {
    |ws| == |ops| + 1 && forall i :: 0 <= i < |ops| ==> Next(ws[i], ops[i], ws[i + 1])
  }

  /** Where the block at p is after the operation. */
  function Follow<T>(h: Heap, op: Op<T>, p: int): int {
    if op.Do? && op.call.CallRealloc? && op.call.p == p && ReallocOk(h, p, op.call.n) && Realloc(h, p, op.call.n).1 != 0
    then Realloc(h, p, op.call.n).1 else p
  }

  /** The operation neither frees the block at p nor stores into its byte k, nor is it a realloc
      whose wrapped sum makes the block too small for the byte. */
  predicate Spares<T>(h: Heap, op: Op<T>, p: int, k: nat) {
    match op
    case Do(CallMalloc(n)) => true
    case Do(CallFree(q)) => q != p
    case Do(CallRealloc(q, n)) => q == p && n != 0 && Listed(h, p) ==> k < Grown(h.blocks[Find(h, p, 0)], n)
    case Store(q, j, b) => q != p || j != k
  }

  lemma PayloadByte(h: Heap, p: int, k: nat) returns (i: nat)
    requires WellFormed(h) && k < SizeOf(h, p)
    ensures i == Find(h, p, 0) < |h.blocks| && InPayload(h, i, p + k) && 0 <= p + k < h.hi
  {
    i := Find(h, p, 0);
    InBounds(h, i, i);
  }

  /** Bytes of different blocks are different bytes. */
  lemma BytesApart(h: Heap, p: int, k: nat, q: int, j: nat)
    requires WellFormed(h) && k < SizeOf(h, p) && j < SizeOf(h, q) && p != q
    ensures p + k != q + j
  {
    var a, b := Find(h, p, 0), Find(h, q, 0);
    if a < b {
      InBounds(h, a, b);
    } else {
      InBounds(h, b, a);
    }
  }

  // ------------------------------------------------------------- a block's size

  lemma InsertSize(h: Heap, i: nat, b: Block, p: int)
    requires i <= |h.blocks| && WellFormed(Insert(h, i, b)) && Listed(h, p)
    ensures Listed(Insert(h, i, b), p) && SizeOf(Insert(h, i, b), p) == SizeOf(h, p)
    ensures SizeOf(Insert(h, i, b), b.address) == b.size
  {
    FindInserted(h, i, b, Find(h, p, 0));
  }

  lemma DropSize(h: Heap, q: int, p: int)
    requires WellFormed(h) && Listed(h, p) && p != q
    ensures SizeOf(Drop(h, q), p) == SizeOf(h, p)
  {
    DropKeeps(h, q);
    var h', i, k := Drop(h, q), Find(h, q, 0), Find(h, p, 0);
    var k' := if Listed(h, q) && i < k then k - 1 else k;
    assert h'.blocks[k'] == h.blocks[k];
    FindAt(h', k');
  }

  lemma MallocSize(h: Heap, n: u32, p: int)
    requires WellFormed(h) && Listed(h, p)
    ensures Listed(Malloc(h, n).0, p) && SizeOf(Malloc(h, n).0, p) == SizeOf(h, p)
    ensures Malloc(h, n).1 != 0 ==>
      SizeOf(Malloc(h, n).0, Malloc(h, n).1) == Align(n) && Malloc(h, n).1 != p && Listed(Malloc(h, n).0, Malloc(h, n).1)
  {
    MallocKeeps(h, n);
    var i := FirstFit(h, Align(n), 0);
    if n != 0 && i <= |h.blocks| {
      EndsAscend(h, 0, i);
    }
    if Malloc(h, n).1 != 0 {
      InsertSize(h, i, Block(Malloc(h, n).1, Align(n), n), p);
      FindInserted(h, i, Block(Malloc(h, n).1, Align(n), n), Find(h, p, 0));
    }
  }

  lemma ResizeSize(h: Heap, i: nat, b: Block, p: int)
    requires WellFormed(h) && i < |h.blocks| && b.address == h.blocks[i].address && Listed(h, p)
    requires WellFormed(h.(blocks := h.blocks[i := b]))
    ensures SizeOf(h.(blocks := h.blocks[i := b]), p) == if p == b.address then b.size else SizeOf(h, p)
  {
    var h', k := h.(blocks := h.blocks[i := b]), Find(h, p, 0);
    FindAt(h, i);
    FindAt(h', k);
  }

  /** After a realloc of q that is neither stale nor overruns: the size of every listed block. */
  lemma ReallocSize(h: Heap, q: int, n: u32, p: int)
    requires WellFormed(h) && Listed(h, p) && p != 0 && q != 0
    requires ReallocOk(h, q, n) && !StalePrev(h, q, n)
    ensures var (h', r) := Realloc(h, q, n);
      SizeOf(h', if p == q && r != 0 then r else p) ==
        if p == q && r != 0 && n != 0 then Grown(h.blocks[Find(h, q, 0)], n) else SizeOf(h, p)
  {
    if n != 0 && Listed(h, q) {
      var i := Find(h, q, 0);
      var b := h.blocks[i];
      var actual := Grown(b, n);
      ReallocKeeps(h, q, n);
      if MustMove(h, q, n) {
        AlignTwice(AddU32(b.oSize, n));
        MallocKeeps(h, actual);
        MallocSize(h, actual, p);
        var (h1, tmp) := Malloc(h, actual);
        if tmp != 0 {
          MallocSize(h, actual, q);
          DropSize(h1, q, if p == q then tmp else p);
        }
      } else if actual != b.size {
        ResizeSize(h, i, Block(q, actual, AddU32(b.oSize, n)), p);
      }
    }
  }

  lemma StepSize<T>(u: Use, c: Call, p: int, k: nat)
    requires Tracked(u) && CallOk(u.heap, c) && !(c.CallRealloc? && StalePrev(u.heap, c.p, c.n))
    requires p in u.held && k < SizeOf(u.heap, p) && Spares<T>(u.heap, Do(c), p, k)
    ensures k < SizeOf(Step(u, c).heap, Follow<T>(u.heap, Do(c), p))
  {
    match c
    case CallMalloc(n) => MallocSize(u.heap, n, p);
    case CallFree(q) => DropSize(u.heap, q, p);
    case CallRealloc(q, n) =>
      if q == 0 {
        MallocSize(u.heap, n, p);
      } else {
        ReallocSize(u.heap, q, n, p);
      }
  }

  // ------------------------------------------------------------- the run

  lemma CallSpares<T>(h: Heap, c: Call, p: int, k: nat, was: seq<T>, now: seq<T>)
    requires WellFormed(h) && h.hi <= |was| && k < SizeOf(h, p) && p != 0
    requires CallOk(h, c) && CallBytes(h, c, was, now)
    ensures var q := Follow<T>(h, Do(c), p); 0 <= q + k < |now| && now[q + k] == was[p + k]
  {
    var i := PayloadByte(h, p, k);
  }

  lemma CallStep<T>(w: World<T>, c: Call, w': World<T>, p: int, k: nat)
    requires Tracked(w.use) && w.use.heap.hi <= |w.mem| && p in w.use.held && k < SizeOf(w.use.heap, p)
    requires Next(w, Do(c), w') && Spares<T>(w.use.heap, Do(c), p, k)
    ensures Tracked(w'.use) && |w'.mem| == |w.mem| && w'.use.heap.hi == w.use.heap.hi
    ensures var q := Follow<T>(w.use.heap, Do(c), p);
      && q in w'.use.held && k < SizeOf(w'.use.heap, q)
      && 0 <= p + k < |w.mem| && 0 <= q + k < |w'.mem| && w'.mem[q + k] == w.mem[p + k]
  {
    HeldByte(w.use, p, k);
    StepTracked(w.use, c);
    StepSize<T>(w.use, c, p, k);
    CallSpares(w.use.heap, c, p, k, w.mem, w'.mem);
    SameEnd(w.use, c);
    hide Tracked, SizeOf, StalePrev, CallBytes, SamePayloads, BytesMoved, CallOk, ReallocOk;
  }

  lemma SameEnd(u: Use, c: Call)
    requires CallOk(u.heap, c)
    ensures Step(u, c).heap.hi == u.heap.hi
  {
  }

  lemma HeldByte(u: Use, p: int, k: nat)
    requires Tracked(u) && p in u.held && k < SizeOf(u.heap, p)
    ensures WellFormed(u.heap) && 0 !in u.held && Listed(u.heap, p) && 0 <= p + k < u.heap.hi
  {
    var i := PayloadByte(u.heap, p, k);
  }

  lemma StepBytes<T>(w: World<T>, op: Op<T>, w': World<T>, p: int, k: nat)
    requires Tracked(w.use) && w.use.heap.hi <= |w.mem| && p in w.use.held && k < SizeOf(w.use.heap, p)
    requires Next(w, op, w') && Spares(w.use.heap, op, p, k)
    ensures Tracked(w'.use) && w'.use.heap.hi <= |w'.mem|
    ensures var q := Follow(w.use.heap, op, p);
      && q in w'.use.held && k < SizeOf(w'.use.heap, q)
      && 0 <= p + k < |w.mem| && 0 <= q + k < |w'.mem| && w'.mem[q + k] == w.mem[p + k]
  {
    hide Tracked, SizeOf, StalePrev, CallBytes, CallOk, Step;
    match op {
      case Do(c) => CallStep(w, c, w', p, k);
      case Store(q, j, b) =>
        HeldByte(w.use, p, k);
        if q != p {
          BytesApart(w.use.heap, p, k, q, j);
        }
    }
  }

  /** Every operation of the run spares byte k of the block at p, wherever realloc takes it. */
  ghost predicate Undisturbed<T>(ws: seq<World<T>>, ops: seq<Op<T>>, p: int, k: nat)
    requires |ws| == |ops| + 1
    decreases |ops|
  {
    ops == [] ||
    (Spares(ws[0].use.heap, ops[0], p, k) && Undisturbed(ws[1..], ops[1..], Follow(ws[0].use.heap, ops[0], p), k))
  }

  function FinalAddress<T>(ws: seq<World<T>>, ops: seq<Op<T>>, p: int): int
    requires |ws| == |ops| + 1
    decreases |ops|
  {
    if ops == [] then p else FinalAddress(ws[1..], ops[1..], Follow(ws[0].use.heap, ops[0], p))
  }

  /** Over every run of calls and stores a held block's byte stays as its holder left it, at the
      address realloc last gave the block, until the block is freed or the byte stored into. */
  lemma {:induction false} RunBytes<T>(ws: seq<World<T>>, ops: seq<Op<T>>, p: int, k: nat)
    requires IsRun(ws, ops) && Undisturbed(ws, ops, p, k)
    requires Tracked(ws[0].use) && ws[0].use.heap.hi <= |ws[0].mem|
    requires p in ws[0].use.held && k < SizeOf(ws[0].use.heap, p)
    ensures var q, end := FinalAddress(ws, ops, p), ws[|ops|];
      && q in end.use.held && k < SizeOf(end.use.heap, q) && 0 <= p + k < |ws[0].mem| && 0 <= q + k < |end.mem|
      && end.mem[q + k] == ws[0].mem[p + k]
    decreases |ops|
  {
    hide Next, Spares, Follow, Tracked, SizeOf;
    if ops == [] {
      HeldByte(ws[0].use, p, k);
    } else {
      assert Next(ws[0], ops[0], ws[1]);
      StepBytes(ws[0], ops[0], ws[1], p, k);
      assert IsRun(ws[1..], ops[1..]) by {
        forall i | 0 <= i < |ops| - 1
          ensures Next(ws[1..][i], ops[1..][i], ws[1..][i + 1])
        {
          assert Next(ws[i + 1], ops[i + 1], ws[i + 2]);
        }
      }
      RunBytes(ws[1..], ops[1..], Follow(ws[0].use.heap, ops[0], p), k);
    }
  }
}
