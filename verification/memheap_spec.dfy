/** The memory heap of memheap.c seen as a list of blocks and a list of free
    headers: what each operation does to them and to the statistics. */
module MemHeapSpec {
  import opened Options
  import opened Words

  const HDR := 24         // RT_MEMHEAP_SIZE on a 32-bit core
  const MINI := 12        // RT_MEMHEAP_MINIALLOC

  /** A block occupies [lo, hi) in offsets from `start_addr`: a header, then data. */
  datatype Block = Block(lo: nat, hi: nat, used: bool) {
    function Data(): int { hi - lo - HDR }
  }

  /** The physical list below the tailer, the free list from its head on,
      `available_size` and `max_used_size`. */
  datatype Heap = Heap(bs: seq<Block>, free: seq<nat>, avail: int, maxUsed: int)

  // ---------------------------------------------------------------- layout

  /** The blocks tile [lo, hi) in address order, none is too small and no two
      neighbours are free; `pf` says that the block just below `lo` is free. */
  ghost predicate Tiles(bs: seq<Block>, lo: nat, hi: nat, pf: bool) {
    if bs == [] then lo == hi
    else
      && bs[0].lo == lo && lo + HDR + MINI <= bs[0].hi && lo % 4 == 0
      && (pf ==> bs[0].used)
      && Tiles(bs[1..], bs[0].hi, hi, !bs[0].used)
  }

  ghost function Top(bs: seq<Block>, lo: nat): nat {
    if bs == [] then lo else bs[|bs| - 1].hi
  }

  ghost predicate LastFree(bs: seq<Block>, pf: bool) {
    if bs == [] then pf else !bs[|bs| - 1].used
  }

  /** How often x is the header of a free block, and how often it is in a list. */
  ghost function Times(bs: seq<Block>, x: nat): nat {
    if bs == [] then 0 else (if !bs[0].used && bs[0].lo == x then 1 else 0) + Times(bs[1..], x)
  }

  ghost function Occurs(f: seq<nat>, x: nat): nat {
    if f == [] then 0 else (if f[0] == x then 1 else 0) + Occurs(f[1..], x)
  }

  /** The list holds the headers of the free blocks and nothing else. */
  ghost predicate Lists(f: seq<nat>, bs: seq<Block>) {
    forall x: nat :: Occurs(f, x) == Times(bs, x)
  }

  /** The data bytes of the free blocks. */
  ghost function FreeData(bs: seq<Block>): int {
    if bs == [] then 0 else (if bs[0].used then 0 else bs[0].Data()) + FreeData(bs[1..])
  }

  /** A pool of P bytes, the last HDR of them the tailer: the blocks tile the
      rest, the free list holds exactly the free blocks, once each, and
      `available_size` is the sum of their data sizes. */
  ghost predicate Inv(h: Heap, P: nat) {
    && P >= HDR && h.bs != [] && Tiles(h.bs, 0, P - HDR, false)
    && Lists(h.free, h.bs)
    && h.avail == FreeData(h.bs)
    && P - h.avail <= h.maxUsed
  }

  // ------------------------------------------------------------ operations

  /** rt_memheap_init. */
  function Initial(P: nat): Heap
    requires P >= HDR
  {
    Heap([Block(0, P - HDR, false)], [0], P - 2 * HDR, 2 * HDR)
  }

  /** The size rt_memheap_alloc searches for. */
  function Rounded(size: nat): nat {
    Max(Align(size), MINI)
  }

  /** Index of the block whose header is at `lo`; |bs| if there is none. */
  function Index(bs: seq<Block>, lo: int): (k: nat)
    ensures k <= |bs|
    ensures k < |bs| ==> bs[k].lo == lo
  {
    if bs == [] || bs[0].lo == lo then 0 else 1 + Index(bs[1..], lo)
  }

  /** The data size of the block whose header is at `lo`. */
  function DataAt(bs: seq<Block>, lo: int): int {
    var k := Index(bs, lo);
    if k < |bs| then bs[k].Data() else 0
  }

  /** How many entries of the free list come before the first that is large enough. */
  function FirstFit(free: seq<nat>, bs: seq<Block>, n: nat): (k: nat)
    ensures k <= |free|
  {
    if free == [] || DataAt(bs, free[0]) >= n then 0 else 1 + FirstFit(free[1..], bs, n)
  }

  /** The free list without header x. */
  function Drop(free: seq<nat>, x: nat): seq<nat> {
    if free == [] then [] else if free[0] == x then free[1..] else [free[0]] + Drop(free[1..], x)
  }

  function Peak(h: Heap, avail: int, P: nat): int {
    Max(h.maxUsed, P - avail)
  }

  predicate Splits(b: Block, n: nat) {
    b.Data() >= n + HDR + MINI
  }

  /** Take n bytes of the free block k into use. */
  function TakeAt(h: Heap, k: nat, n: nat, P: nat): Heap
    requires k < |h.bs|
  {
    var a, b, c := h.bs[..k], h.bs[k], h.bs[k + 1..];
    if Splits(b, n) then
      Heap(a + [Block(b.lo, b.lo + HDR + n, true), Block(b.lo + HDR + n, b.hi, false)] + c,
           [b.lo + HDR + n] + Drop(h.free, b.lo), h.avail - n - HDR, Peak(h, h.avail - n - HDR, P))
    else
      Heap(a + [b.(used := true)] + c, Drop(h.free, b.lo), h.avail - b.Data(), Peak(h, h.avail - b.Data(), P))
  }

  /** rt_memheap_alloc: the new heap and the data offset returned. */
  function Alloc(h: Heap, size: nat, P: nat): (Heap, Option<int>) {
    var n := Rounded(size);
    var i := FirstFit(h.free, h.bs, n);
    if n < h.avail && i < |h.free| && Index(h.bs, h.free[i]) < |h.bs|
    then (TakeAt(h, Index(h.bs, h.free[i]), n, P), Some(h.free[i] + HDR))
    else (h, None)
  }

  /** The free neighbours a new hole is merged with, and what is left of the others. */
  predicate MergesDown(a: seq<Block>) { a != [] && !a[|a| - 1].used }
  predicate MergesUp(c: seq<Block>) { c != [] && !c[0].used }
  function Below(a: seq<Block>): seq<Block> { if MergesDown(a) then a[..|a| - 1] else a }
  function Above(c: seq<Block>): seq<Block> { if MergesUp(c) then c[1..] else c }
  function HoleLo(a: seq<Block>, lo: nat): nat { if MergesDown(a) then a[|a| - 1].lo else lo }
  function HoleHi(c: seq<Block>, hi: nat): nat { if MergesUp(c) then c[0].hi else hi }
  function UpDropped(free: seq<nat>, c: seq<Block>): seq<nat> { if MergesUp(c) then Drop(free, c[0].lo) else free }

  /** rt_memheap_free of block k: a hole that is merged downwards keeps its
      neighbour's place in the free list, any other goes to the front. */
  function FreeAt(h: Heap, k: nat): Heap
    requires k < |h.bs|
  {
    var a, b, c := h.bs[..k], h.bs[k], h.bs[k + 1..];
    Heap(Below(a) + [Block(HoleLo(a, b.lo), HoleHi(c, b.hi), false)] + Above(c),
         (if MergesDown(a) then [] else [b.lo]) + UpDropped(h.free, c),
         h.avail + b.Data() + (if MergesDown(a) then HDR else 0) + (if MergesUp(c) then HDR else 0),
         h.maxUsed)
  }

  /** Grow block k to n bytes at the expense of the free block above it. */
  function GrowAt(h: Heap, k: nat, n: nat, P: nat): Heap
    requires k + 1 < |h.bs|
  {
    var a, b, x, c := h.bs[..k], h.bs[k], h.bs[k + 1], h.bs[k + 2..];
    Heap(a + [Block(b.lo, b.lo + HDR + n, true), Block(b.lo + HDR + n, x.hi, false)] + c,
         [b.lo + HDR + n] + Drop(h.free, x.lo), h.avail - (n - b.Data()), Peak(h, h.avail - (n - b.Data()), P))
  }

  /** Cut block k down to n bytes; the rest joins a free block above it. */
  function ShrinkAt(h: Heap, k: nat, n: nat): Heap
    requires k < |h.bs|
  {
    var a, b, c := h.bs[..k], h.bs[k], h.bs[k + 1..];
    var rest := Block(b.lo + HDR + n, HoleHi(c, b.hi), false);
    Heap(a + [Block(b.lo, b.lo + HDR + n, true), rest] + Above(c),
         [rest.lo] + UpDropped(h.free, c),
         h.avail - (if MergesUp(c) then c[0].Data() else 0) + rest.Data(), h.maxUsed)
  }

  /** `p` is what rt_memheap_alloc returned for a block still in use. */
  ghost predicate Live(bs: seq<Block>, p: int) {
    exists b :: b in bs && b.used && b.lo + HDR == p
  }

  /** rt_memheap_free; RT_NULL is ignored. */
  function Free(h: Heap, p: Option<int>): Heap {
    if p.None? then h
    else
      var k := Index(h.bs, p.value - HDR);
      if k < |h.bs| then FreeAt(h, k) else h
  }

  /** The next block is free and leaves more than the minimum when n bytes are needed. */
  predicate Grows(bs: seq<Block>, k: nat, n: nat)
    requires k < |bs|
  {
    k + 1 < |bs| && !bs[k + 1].used && bs[k + 1].Data() + bs[k].Data() > n + MINI
  }

  /** The path of rt_memheap_realloc that takes another block. */
  function Move(h: Heap, p: int, n: nat, P: nat): (Heap, Option<int>) {
    var (g, q) := Alloc(h, n, P);
    (if q.Some? then Free(g, Some(p)) else g, q)
  }

  /** rt_memheap_realloc of block k to n bytes. */
  function ReallocAt(h: Heap, k: nat, n: nat, P: nat): (Heap, Option<int>)
    requires k < |h.bs|
  {
    var p := h.bs[k].lo + HDR;
    if n > h.bs[k].Data() then
      if Grows(h.bs, k, n) then (GrowAt(h, k, n, P), Some(p)) else Move(h, p, n, P)
    else if n + HDR + MINI >= h.bs[k].Data() then (h, Some(p))
    else (ShrinkAt(h, k, n), Some(p))
  }

  /** rt_memheap_realloc: the new heap and the pointer returned. */
  function Realloc(h: Heap, p: Option<int>, newsize: nat, P: nat): (Heap, Option<int>) {
    if newsize == 0 then (Free(h, p), None)
    else if p.None? then Alloc(h, Rounded(newsize), P)
    else if Index(h.bs, p.value - HDR) < |h.bs|
    then ReallocAt(h, Index(h.bs, p.value - HDR), Rounded(newsize), P)
    else (h, p)
  }

  // ------------------------------------------------------------ whole runs

  datatype Op = OpAlloc(size: nat) | OpFree(p: Option<int>) | OpRealloc(p: Option<int>, size: nat)

  /** A pointer is RT_NULL or live, and a resize does not overflow 32 bits. */
  ghost predicate Legal(h: Heap, op: Op) {
    match op
    case OpAlloc(_) => true
    case OpFree(p) => p.Some? ==> Live(h.bs, p.value)
    case OpRealloc(p, size) => (p.Some? ==> Live(h.bs, p.value)) && size + 3 + HDR + MINI < WORD
  }

  function Step(h: Heap, op: Op, P: nat): Heap {
    match op
    case OpAlloc(size) => Alloc(h, size, P).0
    case OpFree(p) => Free(h, p)
    case OpRealloc(p, size) => Realloc(h, p, size, P).0
  }

  function Run(h: Heap, ops: seq<Op>, P: nat): Heap
    decreases ops
  {
    if ops == [] then h else Run(Step(h, ops[0], P), ops[1..], P)
  }

  ghost predicate LegalRun(h: Heap, ops: seq<Op>, P: nat)
    decreases ops
  {
    ops == [] || (Legal(h, ops[0]) && LegalRun(Step(h, ops[0], P), ops[1..], P))
  }
}
