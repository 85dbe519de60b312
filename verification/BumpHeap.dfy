/** The user-space bump allocator of r2_stubs.cpp. */
module BumpHeap {
  import opened Bytes

  const HEAP_SIZE: nat := 2 * 1024 * 1024

  /** (x + 15) & ~15 on unsigned long. */
  function Align(x: u64): u64 {
    (x + 15) % M64 / 16 * 16
  }

  /** malloc's size, at least one byte. */
  function Request(size: u64): u64 {
    if size == 0 then 1 else size
  }

  /** Offset handed out for a request at the given use, with unsigned wrap-around; None for nullptr. */
  function MallocAt(used: u64, size: u64): Option<nat> {
    var aligned := Align(used);
    if (aligned + Request(size)) % M64 > HEAP_SIZE then None else Some(aligned)
  }

  /** r2_heap_used afterwards. */
  function UsedAfter(used: u64, size: u64): u64 {
    if MallocAt(used, size).None? then used else (Align(used) + Request(size)) % M64
  }

  lemma AlignFacts(x: u64)
    requires x <= HEAP_SIZE
    ensures Align(x) % 16 == 0 && x <= Align(x) < x + 16 && Align(x) <= HEAP_SIZE
  {
    var y: int := x + 15;
    assert y % M64 == y;
    assert Align(x) == y / 16 * 16;
    assert y == 16 * (y / 16) + y % 16;
    if x < HEAP_SIZE {
      assert y / 16 <= HEAP_SIZE / 16;
    }
  }

  /** The only requests malloc gets wrong are those whose end wraps past 2^64: it succeeds exactly when the block fits
      the heap if and only if there is no wrap. */
  lemma MallocExact(used: u64, size: u64)
    requires used <= HEAP_SIZE
    ensures (MallocAt(used, size).Some? <==> Align(used) + Request(size) <= HEAP_SIZE) <==> Align(used) + Request(size) < M64
  {
    AlignFacts(used);
    var end: int := Align(used) + Request(size);
    if end < M64 {
      Small(end);
    } else {
      Small(end - M64);
      assert end % M64 == (end - M64) % M64;
    }
  }

  lemma Plainly(used: u64, size: u64)
    requires used <= 0x20_0000
    ensures var at, bytes := (used + 15) / 16 * 16, if size == 0 then 1 else size;
            at + bytes < M64 ==>
              && MallocAt(used, size) == (if at + bytes <= 0x20_0000 then Some(at) else None)
              && UsedAfter(used, size) == (if at + bytes <= 0x20_0000 then at + bytes else used)
  {
    var at: int, bytes: int := (used + 15) / 16 * 16, if size == 0 then 1 else size;
    Small(used + 15);
    assert Align(used) == at;
    if at + bytes < M64 {
      Small(at + bytes);
    }
  }

  lemma Small(x: int)
    requires 0 <= x < M64
    ensures x % M64 == x
  {
  }

  // ---- runs -----------------------------------------------------------------

  datatype Block = Block(off: nat, size: nat)
  {
    predicate Overlaps(b: Block) { off < b.off + b.size && b.off < off + size }
  }

  /** A checkpoint: its value, and how many blocks were live when it was taken. */
  datatype Mark = Mark(cp: nat, live: nat)

  /** top is the high-water mark: the largest use so far. */
  datatype Heap = Heap(used: nat, mem: seq<u8>, blocks: seq<Block>, marks: seq<Mark>, top: nat)

  datatype Op =
    | Malloc(size: u64)
    | Calloc(nmemb: u64, size: u64)
    | Checkpoint
    | Restore(mark: nat)
    | Store(block: nat, index: nat, value: u8)

  function Start(): Heap {
    Heap(0, seq(HEAP_SIZE, i => 0), [], [], 0)
  }

  /** Sizes do not wrap, marks are live ones, and programs write inside their live blocks. */
  predicate Proper(h: Heap, op: Op) {
    match op
    case Malloc(size) => h.used <= HEAP_SIZE && Align(h.used) + Request(size) < M64
    case Calloc(nmemb, size) => nmemb * size < M64 && h.used <= HEAP_SIZE && Align(h.used) + Request(nmemb * size) < M64
    case Checkpoint => true
    case Restore(k) => k < |h.marks| && h.marks[k].live <= |h.blocks|
    case Store(b, i, _) => b < |h.blocks| && i < h.blocks[b].size && h.blocks[b].off + i < |h.mem|
  }

  function Allocate(h: Heap, size: u64): Heap
    requires h.used < M64
  {
    match MallocAt(h.used, size)
    case None => h
    case Some(a) =>
      var u := UsedAfter(h.used, size);
      h.(used := u, blocks := h.blocks + [Block(a, Request(size))], top := if u > h.top then u else h.top)
  }

  function Next(h: Heap, op: Op): Heap
    requires Proper(h, op)
  {
    match op
    case Malloc(size) => Allocate(h, size)
    case Calloc(nmemb, size) => Allocate(h, nmemb * size)
    case Checkpoint => h.(marks := h.marks + [Mark(h.used, |h.blocks|)])
    case Restore(k) => h.(used := h.marks[k].cp, blocks := h.blocks[..h.marks[k].live], marks := h.marks[..k + 1])
    case Store(b, i, v) => h.(mem := h.mem[h.blocks[b].off + i := v])
  }

  ghost predicate ProperRun(h: Heap, ops: seq<Op>)
    decreases |ops|
  {
    ops == [] || (Proper(h, ops[0]) && ProperRun(Next(h, ops[0]), ops[1..]))
  }

  ghost function Run(h: Heap, ops: seq<Op>): Heap
    requires ProperRun(h, ops)
    decreases |ops|
  {
    if ops == [] then h else Run(Next(h, ops[0]), ops[1..])
  }

  /** Blocks lie one above the other below `used`, marks separate them, and above the high-water mark all is zero. */
  ghost predicate Inv(h: Heap) {
    && h.used <= h.top <= HEAP_SIZE && |h.mem| == HEAP_SIZE
    && (forall i :: 0 <= i < |h.blocks| ==> InHeap(h.blocks[i], h.used))
    && (forall i, j :: 0 <= i < j < |h.blocks| ==> h.blocks[i].off + h.blocks[i].size <= h.blocks[j].off)
    && (forall m :: 0 <= m < |h.marks| ==> h.marks[m].cp <= h.used && h.marks[m].live <= |h.blocks|)
    && (forall m, n :: 0 <= m < n < |h.marks| ==> h.marks[m].cp <= h.marks[n].cp && h.marks[m].live <= h.marks[n].live)
    && (forall m, i :: 0 <= m < |h.marks| && 0 <= i < h.marks[m].live ==> h.blocks[i].off + h.blocks[i].size <= h.marks[m].cp)
    && (forall m, i :: 0 <= m < |h.marks| && h.marks[m].live <= i < |h.blocks| ==> h.marks[m].cp <= h.blocks[i].off)
    && (forall i :: h.top <= i < HEAP_SIZE ==> h.mem[i] == 0)
  }

  predicate InHeap(b: Block, used: nat) {
    b.off % 16 == 0 && b.size > 0 && b.off + b.size <= used
  }

  lemma AllocateKeeps(h: Heap, size: u64)
    requires Inv(h) && Align(h.used) + Request(size) < M64
    ensures Inv(Allocate(h, size))
    ensures Allocate(h, size).mem == h.mem && h.blocks <= Allocate(h, size).blocks
    ensures MallocAt(h.used, size).Some? ==>
      var a := MallocAt(h.used, size).value;
      h.used <= a && Allocate(h, size).blocks == h.blocks + [Block(a, Request(size))] && Allocate(h, size).used == a + Request(size)
  {
    AlignFacts(h.used);
    Small(Align(h.used) + Request(size));
  }

  lemma CheckpointKeeps(h: Heap)
    requires Inv(h)
    ensures Inv(Next(h, Checkpoint))
  {
  }

  lemma RestoreKeeps(h: Heap, k: nat)
    requires Inv(h) && Proper(h, Restore(k))
    ensures Inv(Next(h, Restore(k)))
  {
    var g := Next(h, Restore(k));
    forall i | 0 <= i < |g.blocks| ensures InHeap(g.blocks[i], g.used) {
      assert InHeap(h.blocks[i], h.used);
    }
  }

  lemma StoreKeeps(h: Heap, b: nat, i: nat, v: u8)
    requires Inv(h) && Proper(h, Store(b, i, v))
    ensures Inv(Next(h, Store(b, i, v)))
  {
    assert InHeap(h.blocks[b], h.used);
  }

  lemma NextKeeps(h: Heap, op: Op)
    requires Inv(h) && Proper(h, op)
    ensures Inv(Next(h, op))
  {
    hide Inv, Allocate, MallocAt, UsedAfter;
    match op
    case Malloc(size) => AllocateKeeps(h, size);
    case Calloc(nmemb, size) => AllocateKeeps(h, nmemb * size);
    case Checkpoint => CheckpointKeeps(h);
    case Restore(k) => RestoreKeeps(h, k);
    case Store(b, i, v) => StoreKeeps(h, b, i, v);
  }

  lemma {:induction false} RunKeeps(h: Heap, ops: seq<Op>)
    requires Inv(h) && ProperRun(h, ops)
    ensures Inv(Run(h, ops))
    decreases |ops|
  {
    if ops != [] {
      NextKeeps(h, ops[0]);
      RunKeeps(Next(h, ops[0]), ops[1..]);
    }
  }

  /** After any run of mallocs, checkpoints, restores and writes: live blocks lie inside the heap, on 16-byte offsets,
      and no two overlap. */
  lemma BlocksDisjoint(ops: seq<Op>)
    requires ProperRun(Start(), ops)
    ensures var h := Run(Start(), ops);
            && (forall i :: 0 <= i < |h.blocks| ==> h.blocks[i].off % 16 == 0 && h.blocks[i].off + h.blocks[i].size <= HEAP_SIZE)
            && (forall i, j :: 0 <= i < j < |h.blocks| ==> !h.blocks[i].Overlaps(h.blocks[j]))
  {
    StartKeeps();
    RunKeeps(Start(), ops);
    DisjointNow(Run(Start(), ops));
  }

  lemma StartKeeps()
    ensures Inv(Start())
  {
  }

  lemma DisjointNow(h: Heap)
    requires Inv(h)
    ensures forall i :: 0 <= i < |h.blocks| ==> h.blocks[i].off % 16 == 0 && h.blocks[i].off + h.blocks[i].size <= HEAP_SIZE
    ensures forall i, j :: 0 <= i < j < |h.blocks| ==> !h.blocks[i].Overlaps(h.blocks[j])
  {
    assert forall i :: 0 <= i < |h.blocks| ==> InHeap(h.blocks[i], h.used);
  }

  function Contents(h: Heap, b: Block): seq<u8>
    requires b.off + b.size <= |h.mem|
  {
    h.mem[b.off..b.off + b.size]
  }

  /** No operation in ops restores a mark below the first n live blocks, or writes one of them. */
  ghost predicate Spares(h: Heap, ops: seq<Op>, n: nat)
    requires ProperRun(h, ops)
    decreases |ops|
  {
    ops == [] ||
    (&& (ops[0].Restore? ==> h.marks[ops[0].mark].live >= n)
     && (ops[0].Store? ==> ops[0].block >= n)
     && Spares(Next(h, ops[0]), ops[1..], n))
  }

  /** What was allocated before a mark survives: through any later allocations, restores to that mark or above, and
      writes to other blocks, the first n blocks stay where they are with the bytes they hold. */
  lemma {:induction false} OlderBlocksKept(h: Heap, ops: seq<Op>, n: nat, i: nat)
    requires Inv(h) && ProperRun(h, ops) && n <= |h.blocks| && Spares(h, ops, n) && i < n
    ensures var r := Run(h, ops);
            && n <= |r.blocks| && r.blocks[i] == h.blocks[i]
            && |r.mem| == |h.mem| && InHeap(h.blocks[i], HEAP_SIZE) && Contents(r, h.blocks[i]) == Contents(h, h.blocks[i])
    decreases |ops|
  {
    assert InHeap(h.blocks[i], h.used);
    if ops != [] {
      var g := Next(h, ops[0]);
      NextKeeps(h, ops[0]);
      StepKept(h, ops[0], n, i);
      OlderBlocksKept(g, ops[1..], n, i);
    }
  }

  lemma StepKept(h: Heap, op: Op, n: nat, i: nat)
    requires Inv(h) && Proper(h, op) && n <= |h.blocks| && i < n && InHeap(h.blocks[i], h.used)
    requires (op.Restore? ==> h.marks[op.mark].live >= n) && (op.Store? ==> op.block >= n)
    ensures var g := Next(h, op);
            && n <= |g.blocks| && g.blocks[i] == h.blocks[i] && |g.mem| == |h.mem|
            && Contents(g, h.blocks[i]) == Contents(h, h.blocks[i])
  {
    match op
    case Malloc(size) => AllocateKeeps(h, size);
    case Calloc(nmemb, size) => AllocateKeeps(h, nmemb * size);
    case Checkpoint =>
    case Restore(k) =>
    case Store(b, k, v) =>
  }

  /** calloc does not clear, but a block wholly above the high-water mark is zero: no byte there was ever written. */
  lemma FreshCallocIsZero(ops: seq<Op>, nmemb: u64, size: u64)
    requires ProperRun(Start(), ops) && Proper(Run(Start(), ops), Calloc(nmemb, size))
    requires var h := Run(Start(), ops);
             h.used < M64 && MallocAt(h.used, nmemb * size).Some? && MallocAt(h.used, nmemb * size).value >= h.top
    ensures var h := Run(Start(), ops);
            var g := Next(h, Calloc(nmemb, size));
            && |g.blocks| == |h.blocks| + 1
            && var b := g.blocks[|h.blocks|];
            && b.off + b.size <= |g.mem| && forall k :: 0 <= k < b.size ==> Contents(g, b)[k] == 0
  {
    hide Inv, MallocAt, UsedAfter;
    StartKeeps();
    RunKeeps(Start(), ops);
    FreshIsZero(Run(Start(), ops), nmemb * size);
  }

  lemma FreshIsZero(h: Heap, size: u64)
    requires Inv(h) && Align(h.used) + Request(size) < M64
    requires MallocAt(h.used, size).Some? && MallocAt(h.used, size).value >= h.top
    ensures var g := Allocate(h, size);
            && |g.blocks| == |h.blocks| + 1
            && var b := g.blocks[|h.blocks|];
            && b.off + b.size <= |g.mem| && forall k :: 0 <= k < b.size ==> Contents(g, b)[k] == 0
  {
    AllocateKeeps(h, size);
    var g := Allocate(h, size);
    assert InHeap(g.blocks[|h.blocks|], g.used);
  }

  // ---- the code -----------------------------------------------------------------

  class Allocator {
    const r2_heap: array<u8>
    var r2_heap_used: u64
    /** The run so far: live blocks, marks and high-water mark. */
    ghost var heap: Heap

    ghost predicate Valid()
      reads this, r2_heap
    {
      r2_heap.Length == HEAP_SIZE && r2_heap_used == heap.used && r2_heap[..] == heap.mem && Inv(heap)
    }

    constructor ()
      ensures Valid() && fresh(r2_heap) && heap == Start()
    {
      r2_heap := new u8[HEAP_SIZE](i => 0);
      r2_heap_used := 0;
      heap := Start();
    }

    method R2HeapCheckpoint() returns (cp: u64)
      requires Valid()
      modifies this`heap
      ensures Valid() && cp == r2_heap_used && heap == Next(old(heap), Checkpoint)
    {
      CheckpointKeeps(heap);
      cp := r2_heap_used;
      heap := Next(heap, Checkpoint);
    }

    /** cp is the value of the k-th mark. */
    method R2HeapRestore(cp: u64, ghost k: nat)
      requires Valid() && Proper(heap, Restore(k)) && heap.marks[k].cp == cp
      modifies this`r2_heap_used, this`heap
      ensures Valid() && heap == Next(old(heap), Restore(k))
    {
      RestoreKeeps(heap, k);
      r2_heap_used := cp;
      heap := Next(heap, Restore(k));
    }

    /** The block is at the next multiple of 16 and the heap is used up to its end; an empty request gets one byte.
        Without wrap-around the block handed out is the newest of the run. */
    method Malloc(size: u64) returns (p: Option<nat>)
      modifies this`r2_heap_used, this`heap
      ensures p == MallocAt(old(r2_heap_used), size) && r2_heap_used == UsedAfter(old(r2_heap_used), size)
      ensures var at, bytes := (old(r2_heap_used) + 15) / 16 * 16, if size == 0 then 1 else size;
              old(r2_heap_used) <= 0x20_0000 && at + bytes < M64 ==>
                && p == (if at + bytes <= 0x20_0000 then Some(at) else None)
                && r2_heap_used == (if at + bytes <= 0x20_0000 then at + bytes else old(r2_heap_used))
      ensures old(Valid()) && Proper(old(heap), Op.Malloc(size)) ==>
        && Valid() && heap == Next(old(heap), Op.Malloc(size))
        && (p.Some? <==> Align(old(r2_heap_used)) + Request(size) <= HEAP_SIZE)
        && (p.Some? ==> heap.blocks == old(heap.blocks) + [Block(p.value, Request(size))])
    {
      ghost var used := r2_heap_used;
      Track(size);
      if r2_heap_used <= 0x20_0000 {
        Plainly(r2_heap_used, size);
      }
      p := Bump(size);
    }

    /** The ghost account of a run. */
    ghost method Track(size: u64)
      modifies this`heap
      ensures old(Valid()) && Proper(old(heap), Op.Malloc(size)) ==>
        && heap == Next(old(heap), Op.Malloc(size)) && Inv(heap) && heap.mem == old(heap.mem)
        && heap.used == UsedAfter(old(heap.used), size)
        && (MallocAt(old(heap.used), size).Some? <==> Align(old(heap.used)) + Request(size) <= HEAP_SIZE)
        && (MallocAt(old(heap.used), size).Some? ==>
              heap.blocks == old(heap.blocks) + [Block(MallocAt(old(heap.used), size).value, Request(size))])
    {
      if Valid() && Proper(heap, Op.Malloc(size)) {
        AllocateKeeps(heap, size);
        MallocExact(heap.used, size);
        heap := Allocate(heap, size);
      }
    }

    /** The statements of malloc. */
    method Bump(size: u64) returns (p: Option<nat>)
      modifies this`r2_heap_used
      ensures p == MallocAt(old(r2_heap_used), size) && r2_heap_used == UsedAfter(old(r2_heap_used), size)
    {
      var sz := size;
      if sz == 0 {
        sz := 1;
      }
      var aligned: u64 := (r2_heap_used + 15) % M64 / 16 * 16;
      if (aligned + sz) % M64 > HEAP_SIZE {
        return None;
      }
      r2_heap_used := (aligned + sz) % M64;
      return Some(aligned);
    }

    method Calloc(nmemb: u64, size: u64) returns (p: Option<nat>)
      modifies this`r2_heap_used, this`heap
      ensures p == MallocAt(old(r2_heap_used), nmemb * size % M64)
      ensures r2_heap_used == UsedAfter(old(r2_heap_used), nmemb * size % M64)
      ensures old(Valid()) && Proper(old(heap), Op.Calloc(nmemb, size)) ==>
        Valid() && heap == Next(old(heap), Op.Calloc(nmemb, size))
    {
      var n := nmemb * size;
      if n < M64 {
        Small(n);
      }
      p := Malloc(n % M64);
    }

    /** memmove between two stretches of the heap, which may overlap. */
    method Memmove(dst: nat, src: nat, n: nat)
      requires dst + n <= r2_heap.Length == HEAP_SIZE && src + n <= HEAP_SIZE
      modifies r2_heap
      ensures r2_heap[dst..dst + n] == old(r2_heap[src..src + n])
      ensures forall k :: 0 <= k < HEAP_SIZE && !(dst <= k < dst + n) ==> r2_heap[k] == old(r2_heap[k])
    {
      if dst == src || n == 0 {
        return;
      }
      if dst < src {
        var i := 0;
        while i < n
          invariant 0 <= i <= n
          invariant forall k :: dst <= k < dst + i ==> r2_heap[k] == old(r2_heap[k - dst + src])
          invariant forall k :: 0 <= k < HEAP_SIZE && !(dst <= k < dst + i) ==> r2_heap[k] == old(r2_heap[k])
        {
          r2_heap[dst + i] := r2_heap[src + i];
          i := i + 1;
        }
      } else {
        var i := n;
        while i > 0
          invariant 0 <= i <= n
          invariant forall k :: dst + i <= k < dst + n ==> r2_heap[k] == old(r2_heap[k - dst + src])
          invariant forall k :: 0 <= k < HEAP_SIZE && !(dst + i <= k < dst + n) ==> r2_heap[k] == old(r2_heap[k])
        {
          r2_heap[dst + i - 1] := r2_heap[src + i - 1];
          i := i - 1;
        }
      }
    }
  }
}
