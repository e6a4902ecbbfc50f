/** The small-memory allocator of mem.c seen as a list of blocks: what each
    operation does to the block chain, to `lfree` and to the statistics. */
module SmallMemSpec {
  import opened Options
  import opened Words

  const HDR := 12         // SIZEOF_STRUCT_MEM on a 32-bit core
  const MIN := 12         // MIN_SIZE_ALIGNED

  /** A block occupies [lo, hi) in offsets from `heap_ptr`: a header, then data. */
  datatype Block = Block(lo: nat, hi: nat, used: bool) {
    function Data(): int { hi - lo - HDR }
    function Extent(): int { hi - lo }
  }

  /** Block chain, `lfree`, `used_mem` and `max_mem`. */
  datatype Heap = Heap(bs: seq<Block>, lfree: nat, usedMem: int, maxMem: int)

  // ---------------------------------------------------------------- layout

  /** The blocks tile [lo, hi) in address order and no two neighbours are free;
      `pf` says that the block just below `lo` is free. */
  ghost predicate Seg(bs: seq<Block>, lo: nat, hi: nat, pf: bool) {
    if bs == [] then lo == hi
    else
      && bs[0].lo == lo && lo + HDR <= bs[0].hi && lo % 4 == 0
      && (pf ==> bs[0].used)
      && Seg(bs[1..], bs[0].hi, hi, !bs[0].used)
  }

  ghost function Top(bs: seq<Block>, lo: nat): nat {
    if bs == [] then lo else bs[|bs| - 1].hi
  }

  ghost predicate LastFree(bs: seq<Block>, pf: bool) {
    if bs == [] then pf else !bs[|bs| - 1].used
  }

  /** The whole heap: a non-empty tiling of [0, end). */
  ghost predicate Layout(bs: seq<Block>, end: nat) {
    bs != [] && Seg(bs, 0, end, false)
  }

  /** Total extent of the used blocks, headers included. */
  ghost function UsedBytes(bs: seq<Block>): int {
    if bs == [] then 0 else (if bs[0].used then bs[0].Extent() else 0) + UsedBytes(bs[1..])
  }

  /** `lfree` is a free header or `heap_end`. */
  ghost predicate LfreeOk(bs: seq<Block>, lfree: nat, end: nat) {
    lfree == end || exists b :: b in bs && b.lo == lfree && !b.used
  }

  /** No free block lies below `lfree`. */
  ghost predicate LfreeLowest(bs: seq<Block>, lfree: nat) {
    forall b :: b in bs && !b.used ==> lfree <= b.lo
  }

  ghost predicate Inv(h: Heap, memSize: nat) {
    && Layout(h.bs, memSize + HDR)
    && LfreeOk(h.bs, h.lfree, memSize + HDR)
    && h.usedMem == UsedBytes(h.bs) <= h.maxMem
  }

  // ------------------------------------------------------------ operations

  function Initial(memSize: nat): Heap {
    Heap([Block(0, memSize + HDR, false)], 0, 0, 0)
  }

  /** The size rt_malloc searches for. */
  function Rounded(size: nat): nat {
    Max(Align(size), MIN)
  }

  /** The test the walk of rt_malloc applies to one block. */
  predicate Fits(b: Block, lfree: nat, size: nat, memSize: nat) {
    lfree <= b.lo && b.lo + size < memSize && !b.used && b.Data() >= size
  }

  /** Index of the first block that passes the test; |bs| if none does. */
  function FirstFit(bs: seq<Block>, lfree: nat, size: nat, memSize: nat): (r: nat)
    ensures r <= |bs|
  {
    if bs == [] || Fits(bs[0], lfree, size, memSize) then 0
    else 1 + FirstFit(bs[1..], lfree, size, memSize)
  }

  predicate Splits(b: Block, size: nat) {
    b.Data() >= size + HDR + MIN
  }

  /** What a block becomes when `size` of its data bytes are taken into use. */
  function Take(b: Block, size: nat): seq<Block>
    requires 0 <= b.Data()
  {
    if Splits(b, size)
    then [Block(b.lo, b.lo + HDR + size, true), Block(b.lo + HDR + size, b.hi, false)]
    else [b.(used := true)]
  }

  /** Where the `lfree` advance loop of rt_malloc stops when it walks `bs`. */
  function NextFree(bs: seq<Block>, end: nat): nat {
    if bs == [] then end else if !bs[0].used then bs[0].lo else NextFree(bs[1..], end)
  }

  function MallocAt(h: Heap, k: nat, size: nat, memSize: nat): Heap
    requires k < |h.bs| && 0 <= h.bs[k].Data()
  {
    var b := h.bs[k];
    var t := Take(b, size);
    var used := h.usedMem + t[0].Extent();
    Heap(h.bs[..k] + t + h.bs[k + 1..],
         if h.lfree == b.lo then NextFree(t + h.bs[k + 1..], memSize + HDR) else h.lfree,
         used, Max(h.maxMem, used))
  }

  /** rt_malloc reaches its end: where the size test lets the call through, its walk
      does not stop on a heap smaller than the least block. */
  predicate Returns(size: nat, memSize: nat) {
    size == 0 || Align(size) > memSize || MIN <= memSize
  }

  /** rt_malloc, as far as it returns: the new heap and the data offset. */
  function Malloc(h: Heap, size: nat, memSize: nat): (Heap, Option<int>) {
    if size == 0 || Align(size) > memSize then (h, None)
    else
      var k := FirstFit(h.bs, h.lfree, Rounded(size), memSize);
      if k < |h.bs| && 0 <= h.bs[k].Data()
      then (MallocAt(h, k, Rounded(size), memSize), Some(h.bs[k].lo + HDR))
      else (h, None)
  }

  /** plug_holes on a free block b between `a` and `c`: first forward, then backward. */
  function PlugHoles(a: seq<Block>, b: Block, c: seq<Block>): seq<Block> {
    var fwd := c != [] && !c[0].used;
    var hi := if fwd then c[0].hi else b.hi;
    var c' := if fwd then c[1..] else c;
    if a != [] && !a[|a| - 1].used
    then a[..|a| - 1] + [Block(a[|a| - 1].lo, hi, false)] + c'
    else a + [Block(b.lo, hi, false)] + c'
  }

  /** `lfree` follows a header that plug_holes removes. */
  function PlugLfree(a: seq<Block>, b: Block, c: seq<Block>, lfree: nat): nat {
    var l := if c != [] && !c[0].used && lfree == c[0].lo then b.lo else lfree;
    if a != [] && !a[|a| - 1].used && l == b.lo then a[|a| - 1].lo else l
  }

  /** rt_free of the live block with index k. */
  function FreeAt(h: Heap, k: nat): Heap
    requires k < |h.bs|
  {
    var a, b, c := h.bs[..k], h.bs[k], h.bs[k + 1..];
    var lf := if b.lo < h.lfree then b.lo else h.lfree;
    Heap(PlugHoles(a, b, c), PlugLfree(a, b, c, lf), h.usedMem - b.Extent(), h.maxMem)
  }

  /** The in-place shrink of rt_realloc on the live block with index k. */
  function ShrinkAt(h: Heap, k: nat, size: nat): Heap
    requires k < |h.bs| && size <= h.bs[k].Data()
  {
    var b := h.bs[k];
    var a := h.bs[..k] + [Block(b.lo, b.lo + HDR + size, true)];
    var rest := Block(b.lo + HDR + size, b.hi, false);
    var c := h.bs[k + 1..];
    Heap(PlugHoles(a, rest, c), PlugLfree(a, rest, c, h.lfree), h.usedMem - (b.Data() - size), h.maxMem)
  }

  /** Index of the block whose header is at `lo`; |bs| if there is none. */
  function Index(bs: seq<Block>, lo: int): (k: nat)
    ensures k <= |bs|
    ensures k < |bs| ==> bs[k].lo == lo
  {
    if bs == [] || bs[0].lo == lo then 0 else 1 + Index(bs[1..], lo)
  }

  /** `p` is what rt_malloc returned for a block still in use. */
  ghost predicate Live(bs: seq<Block>, p: int) {
    exists b :: b in bs && b.used && b.lo + HDR == p
  }

  /** A data pointer lies between `heap_ptr` and `heap_end`. */
  predicate InHeap(p: int, memSize: nat) {
    0 <= p < memSize + HDR
  }

  /** rt_free; offsets outside the heap and RT_NULL are ignored. */
  function Free(h: Heap, p: Option<int>, memSize: nat): Heap {
    if p.None? || !InHeap(p.value, memSize) then h
    else
      var k := Index(h.bs, p.value - HDR);
      if k < |h.bs| then FreeAt(h, k) else h
  }

  /** The path of rt_realloc that looks for another block. */
  function Move(h: Heap, p: Option<int>, n: nat, memSize: nat): (Heap, Option<int>) {
    var (g, q) := Malloc(h, n, memSize);
    (if q.Some? then Free(g, p, memSize) else g, q)
  }

  /** rt_realloc of block k to n > 0 bytes. */
  function ReallocAt(h: Heap, p: int, k: nat, n: nat, memSize: nat): (Heap, Option<int>)
    requires k <= |h.bs|
  {
    if k == |h.bs| || h.bs[k].Data() == n then (h, Some(p))
    else if n + HDR + MIN < h.bs[k].Data() then (ShrinkAt(h, k, n), Some(p))
    else Move(h, Some(p), n, memSize)
  }

  /** rt_realloc: the new heap and the pointer returned. */
  function Realloc(h: Heap, p: Option<int>, newsize: nat, memSize: nat): (Heap, Option<int>) {
    var n := Align(newsize);
    if n > memSize then (h, None)
    else if n == 0 then (Free(h, p, memSize), None)
    else if p.None? then Malloc(h, n, memSize)
    else if !InHeap(p.value, memSize) then (h, p)
    else ReallocAt(h, p.value, Index(h.bs, p.value - HDR), n, memSize)
  }

  /** rt_realloc does not get to an rt_malloc that does not return. */
  predicate ReallocReturns(h: Heap, p: Option<int>, newsize: nat, memSize: nat) {
    Returns(Align(newsize), memSize) ||
    (p.Some? && (!InHeap(p.value, memSize) || Settles(h, Index(h.bs, p.value - HDR), Align(newsize))))
  }

  /** rt_realloc of block k to n bytes has the size wanted already. */
  predicate Settles(h: Heap, k: nat, n: nat) {
    k < |h.bs| && h.bs[k].Data() == n
  }
}
