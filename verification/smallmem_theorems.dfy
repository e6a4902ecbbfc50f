/** Results about whole calls and whole runs of the small-memory allocator. */
module SmallMemTheorems {
  import opened Options
  import opened Words
  import opened SmallMemSpec
  import opened SmallMemProofs

  // --------------------------------------------------- which block is chosen

  ghost predicate Holds(b: Block, n: nat) {
    !b.used && b.Data() >= n
  }

  /** The walk of rt_malloc stops short of the heap end, so one fit escapes it:
      the last block when it fits exactly. */
  lemma MissedIsLastExact(bs: seq<Block>, b: Block, n: nat, memSize: nat)
    requires Layout(bs, memSize + HDR) && b in bs && Holds(b, n)
    ensures b.lo + n >= memSize <==> b.hi == memSize + HDR && b.Data() == n
  {
    SegBounds(bs, 0, memSize + HDR, false);
  }

  /** With `lfree` lowest, rt_malloc takes the lowest block that holds the rounded
      size, except that it passes over an exactly fitting last block. */
  lemma MallocTakesLowest(h: Heap, size: nat, memSize: nat)
    requires Inv(h, memSize) && LfreeLowest(h.bs, h.lfree)
    requires MIN <= memSize && size != 0 && Align(size) <= memSize
    ensures var n := Rounded(size);
            var r := Malloc(h, size, memSize).1;
            && (r == None <==> forall b :: b in h.bs && Holds(b, n) ==> b.hi == memSize + HDR && b.Data() == n)
            && (r.Some? ==> exists b :: b in h.bs && Holds(b, n) && b.lo + HDR == r.value
                                        && forall x :: x in h.bs && Holds(x, n) ==> b.lo <= x.lo)
  {
    var n := Rounded(size);
    var k := FirstFit(h.bs, h.lfree, n, memSize);
    FirstFitIs(h.bs, h.lfree, n, memSize);
    SegBounds(h.bs, 0, memSize + HDR, false);
    forall b | b in h.bs && Holds(b, n)
      ensures Fits(b, h.lfree, n, memSize) <==> !(b.hi == memSize + HDR && b.Data() == n)
    {
      MissedIsLastExact(h.bs, b, n, memSize);
    }
    if k < |h.bs| {
      MallocIs(h, size, k, memSize);
      LowestAt(h, k, n, memSize);
      assert h.bs[k] in h.bs;
    } else {
      assert h.bs[..k] == h.bs;
    }
  }

  lemma LowestAt(h: Heap, k: nat, n: nat, memSize: nat)
    requires Layout(h.bs, memSize + HDR) && k < |h.bs| && Fits(h.bs[k], h.lfree, n, memSize)
    requires forall b :: b in h.bs[..k] ==> !Fits(b, h.lfree, n, memSize)
    requires LfreeLowest(h.bs, h.lfree)
    ensures forall x :: x in h.bs && Holds(x, n) ==> h.bs[k].lo <= x.lo
  {
    BelowIn(h.bs, k, memSize + HDR);
    forall x | x in h.bs && x.lo < h.bs[k].lo ensures !Holds(x, n) {
      assert !Fits(x, h.lfree, n, memSize);
    }
  }

  lemma BelowIn(bs: seq<Block>, k: nat, end: nat)
    requires Seg(bs, 0, end, false) && k < |bs|
    ensures forall x :: x in bs && x.lo < bs[k].lo ==> x in bs[..k] && x.hi <= bs[k].lo <= end - HDR
  {
    SplitAt(bs, k);
    var a, b, c := bs[..k], bs[k], bs[k + 1..];
    SegAround(a, b, c, 0, end, false);
    SegBounds(a, 0, b.lo, false);
    SegBounds(c, b.hi, end, !b.used);
  }

  /** The block handed out holds what was asked for, unless rounding the request wraps. */
  lemma RoundedCovers(size: nat)
    requires 0 < size < WORD
    ensures Rounded(size) >= size <==> size <= WORD - 4
    ensures Rounded(size) % 4 == 0 && Rounded(size) >= MIN
  {
  }

  /** A new heap of m bytes refuses a request for all of them. */
  lemma WholeHeapRefused(m: nat)
    requires m % 4 == 0 && MIN <= m < WORD
    ensures Malloc(Initial(m), m, m).1 == None
    ensures exists b :: b in Initial(m).bs && Holds(b, m)
  {
    assert Initial(m).bs[0] in Initial(m).bs && Initial(m).bs[1..] == [];
  }

  // ------------------------------------------------- the walk, word by word

  /** The loop test of rt_malloc, on unsigned words. */
  predicate Goes(ptr: nat, n: nat, memSize: nat) {
    ptr < (memSize - n) % WORD
  }

  /** `next` of the header at ptr; heap_end is its own successor. */
  function NextOf(bs: seq<Block>, ptr: nat): nat {
    var k := Index(bs, ptr);
    if k < |bs| then bs[k].hi else ptr
  }

  /** Where the walk stands after k steps. */
  function WalkAt(h: Heap, k: nat): nat {
    if k == 0 then h.lfree else NextOf(h.bs, WalkAt(h, k - 1))
  }

  ghost predicate HoldsAt(bs: seq<Block>, ptr: nat, n: nat) {
    var k := Index(bs, ptr);
    k < |bs| && Holds(bs[k], n)
  }

  /** The walk ends after k steps: at the bound, or at a block that holds n bytes. */
  ghost predicate StopsAt(h: Heap, k: nat, n: nat, memSize: nat) {
    !Goes(WalkAt(h, k), n, memSize) || HoldsAt(h.bs, WalkAt(h, k), n)
  }

  /** A walk that rt_malloc begins ends exactly when the heap is at least as large as
      the least block; on a smaller one the bound wraps, and no step ends it. */
  lemma WalkEndsIff(h: Heap, size: nat, memSize: nat)
    requires Inv(h, memSize) && 0 < Align(size) <= memSize < WORD
    ensures (exists k: nat :: StopsAt(h, k, Rounded(size), memSize)) <==> MIN <= memSize
  {
    var n := Rounded(size);
    if MIN <= memSize {
      var k := WalkStops(h, 0, n, memSize);
      assert StopsAt(h, k, n, memSize);
    } else {
      forall k: nat ensures !StopsAt(h, k, n, memSize) { SmallWalk(h, k, n, memSize); }
    }
  }

  /** Every position is a header of the chain or heap_end. */
  lemma {:induction false} WalkIn(h: Heap, k: nat, memSize: nat)
    requires Inv(h, memSize)
    ensures var p := WalkAt(h, k);
            p == memSize + HDR || (Index(h.bs, p) < |h.bs| && p < NextOf(h.bs, p) <= memSize + HDR)
  {
    var end := memSize + HDR;
    if k == 0 {
      if h.lfree != end {
        var b :| b in h.bs && b.lo == h.lfree;
        HeaderIn(h.bs, b, end);
      }
    } else {
      WalkIn(h, k - 1, memSize);
      var q := WalkAt(h, k - 1);
      if q == end {
        EndIsLast(h.bs, end);
      } else {
        NextHeader(h.bs, Index(h.bs, q), end);
      }
    }
  }

  lemma HeaderIn(bs: seq<Block>, b: Block, end: nat)
    requires Seg(bs, 0, end, false) && b in bs
    ensures Index(bs, b.lo) < |bs| && bs[Index(bs, b.lo)] == b && b.lo < b.hi <= end
  {
    var i :| 0 <= i < |bs| && bs[i] == b;
    SplitAt(bs, i);
    IndexUnique(bs[..i], b, bs[i + 1..], 0, end, false);
    SegBounds(bs, 0, end, false);
  }

  lemma EndIsLast(bs: seq<Block>, end: nat)
    requires Seg(bs, 0, end, false)
    ensures NextOf(bs, end) == end
  {
    SegBounds(bs, 0, end, false);
    if Index(bs, end) < |bs| {
      assert bs[Index(bs, end)] in bs;
      assert false;
    }
  }

  lemma NextHeader(bs: seq<Block>, k: nat, end: nat)
    requires Seg(bs, 0, end, false) && k < |bs|
    ensures bs[k].hi == end || (Index(bs, bs[k].hi) < |bs| && bs[k].hi < NextOf(bs, bs[k].hi) <= end)
  {
    SplitAt(bs, k);
    SegAround(bs[..k], bs[k], bs[k + 1..], 0, end, false);
    if bs[k + 1..] != [] {
      assert bs[k + 1] in bs && bs[k + 1..][0] == bs[k + 1];
      HeaderIn(bs, bs[k + 1], end);
    }
  }

  lemma {:induction false} WalkStops(h: Heap, k: nat, n: nat, memSize: nat) returns (j: nat)
    requires Inv(h, memSize) && n <= memSize < WORD
    ensures StopsAt(h, j, n, memSize)
    decreases memSize + HDR - WalkAt(h, k)
  {
    WalkIn(h, k, memSize);
    if StopsAt(h, k, n, memSize) {
      j := k;
    } else {
      assert (memSize - n) % WORD == memSize - n;
      WalkIn(h, k + 1, memSize);
      j := WalkStops(h, k + 1, n, memSize);
    }
  }

  lemma SmallWalk(h: Heap, k: nat, n: nat, memSize: nat)
    requires Inv(h, memSize) && memSize < MIN <= n <= MIN + 4
    ensures !StopsAt(h, k, n, memSize)
  {
    WalkIn(h, k, memSize);
    SegBounds(h.bs, 0, memSize + HDR, false);
    assert (memSize - n) % WORD == memSize - n + WORD;
    var i := Index(h.bs, WalkAt(h, k));
    if i < |h.bs| { assert h.bs[i] in h.bs; }
  }

  /** For instance a new heap of 8 bytes that is asked for one. */
  lemma SmallHeapNeverAnswers()
    ensures Inv(Initial(8), 8) && 0 < Align(1) <= 8
    ensures forall k: nat :: !StopsAt(Initial(8), k, Rounded(1), 8)
  {
    InitialInv(8);
    WalkEndsIff(Initial(8), 1, 8);
  }

  // ------------------------------------------------ rt_free undoes rt_malloc

  lemma PlugUndoesTake(a: seq<Block>, b: Block, c: seq<Block>, n: nat, end: nat)
    requires Seg(a + [b] + c, 0, end, false) && !b.used && b.Data() >= n && n % 4 == 0
    ensures var t := Take(b, n); PlugHoles(a, t[0], t[1..] + c) == a + [b] + c
    ensures var t := Take(b, n);
            forall l: nat :: l <= b.lo ==> PlugLfree(a, t[0], t[1..] + c, l) == l
  {
    SegAround(a, b, c, 0, end, false);
    SegBounds(a, 0, b.lo, false);
    SegBounds(c, b.hi, end, !b.used);
    var t := Take(b, n);
    if Splits(b, n) {
      assert t[1..] + c == [t[1]] + c;
      assert ([t[1]] + c)[1..] == c;
    } else {
      assert t[1..] + c == c;
    }
    assert Block(b.lo, b.hi, false) == b;
  }

  lemma MallocThenIndex(h: Heap, k: nat, n: nat, memSize: nat)
    requires Layout(h.bs, memSize + HDR) && Allocatable(h, k, n)
    ensures var g := MallocAt(h, k, n, memSize);
            var t := Take(h.bs[k], n);
            && k < |g.bs| && Index(g.bs, h.bs[k].lo) == k && g.bs[k] == t[0]
            && g.bs[..k] == h.bs[..k] && g.bs[k + 1..] == t[1..] + h.bs[k + 1..]
  {
    SplitAt(h.bs, k);
    TakenIndex(h.bs[..k], h.bs[k], h.bs[k + 1..], n, memSize + HDR);
  }

  lemma MallocIndex(h: Heap, k: nat, n: nat, memSize: nat)
    requires Layout(h.bs, memSize + HDR) && Allocatable(h, k, n)
    ensures k < |MallocAt(h, k, n, memSize).bs| && Index(MallocAt(h, k, n, memSize).bs, h.bs[k].lo) == k
  {
    MallocThenIndex(h, k, n, memSize);
  }

  lemma TakenIndex(a: seq<Block>, b: Block, c: seq<Block>, n: nat, end: nat)
    requires Seg(a + [b] + c, 0, end, false) && !b.used && b.Data() >= n && n % 4 == 0
    ensures var t := Take(b, n);
            var g := a + t + c;
            && |a| < |g| && Index(g, b.lo) == |a| && g[|a|] == t[0] && g[..|a|] == a && g[|a| + 1..] == t[1..] + c
  {
    var t := Take(b, n);
    TakeKeeps(a, b, c, n, end);
    assert a + t + c == a + [t[0]] + (t[1..] + c);
    IndexUnique(a, t[0], t[1..] + c, 0, end, false);
    SliceMid(a, t[0], t[1..] + c);
  }

  lemma SliceMid(a: seq<Block>, b: Block, c: seq<Block>)
    ensures (a + [b] + c)[..|a|] == a && (a + [b] + c)[|a|] == b && (a + [b] + c)[|a| + 1..] == c
  {
  }

  /** A successful rt_malloc followed at once by rt_free restores the chain,
      `lfree` and `used_mem`. */
  lemma FreeUndoesMalloc(h: Heap, size: nat, memSize: nat)
    requires Inv(h, memSize)
    requires Malloc(h, size, memSize).1.Some?
    ensures var (g, p) := Malloc(h, size, memSize);
            Free(g, p, memSize) == h.(maxMem := g.maxMem)
  {
    var n := Rounded(size);
    var k := FirstFit(h.bs, h.lfree, n, memSize);
    FirstFitIs(h.bs, h.lfree, n, memSize);
    MallocIs(h, size, k, memSize);
    FoundInHeap(h, size, memSize);
    FreeIsAt(h, k, n, memSize);
    FreeAtUndoes(h, k, n, memSize);
  }

  lemma FoundInHeap(h: Heap, size: nat, memSize: nat)
    requires Inv(h, memSize) && Malloc(h, size, memSize).1.Some?
    ensures var k := FirstFit(h.bs, h.lfree, Rounded(size), memSize);
            Allocatable(h, k, Rounded(size)) && InHeap(h.bs[k].lo + HDR, memSize)
  {
    FirstFitIs(h.bs, h.lfree, Rounded(size), memSize);
    MallocFresh(h, size, memSize);
  }

  lemma FreeIsAt(h: Heap, k: nat, n: nat, memSize: nat)
    requires Layout(h.bs, memSize + HDR) && Allocatable(h, k, n) && InHeap(h.bs[k].lo + HDR, memSize)
    ensures var g := MallocAt(h, k, n, memSize);
            k < |g.bs| && Free(g, Some(h.bs[k].lo + HDR), memSize) == FreeAt(g, k)
  {
    MallocIndex(h, k, n, memSize);
    FreeIsIndex(MallocAt(h, k, n, memSize), h.bs[k].lo, k, memSize);
  }

  lemma FreeIsIndex(g: Heap, lo: nat, k: nat, memSize: nat)
    requires Index(g.bs, lo) == k < |g.bs| && InHeap(lo + HDR, memSize)
    ensures Free(g, Some(lo + HDR), memSize) == FreeAt(g, k)
  {
    FreeIs(g, lo + HDR, memSize);
  }

  lemma FreeAtUndoes(h: Heap, k: nat, n: nat, memSize: nat)
    requires Inv(h, memSize) && Allocatable(h, k, n) && h.lfree <= h.bs[k].lo
    requires k < |MallocAt(h, k, n, memSize).bs|
    ensures FreeAt(MallocAt(h, k, n, memSize), k) == h.(maxMem := MallocAt(h, k, n, memSize).maxMem)
  {
    RestoredLfree(h, k, n, memSize);
    FreedParts(h, k, n, memSize);
  }

  lemma FreedParts(h: Heap, k: nat, n: nat, memSize: nat)
    requires Layout(h.bs, memSize + HDR) && Allocatable(h, k, n)
    requires k < |MallocAt(h, k, n, memSize).bs|
    ensures var g := MallocAt(h, k, n, memSize);
            var f := FreeAt(g, k);
            && f.bs == h.bs && f.usedMem == h.usedMem && f.maxMem == g.maxMem
            && (h.lfree <= h.bs[k].lo && (if h.bs[k].lo < g.lfree then h.bs[k].lo else g.lfree) == h.lfree ==>
                  f.lfree == h.lfree)
  {
    MallocThenIndex(h, k, n, memSize);
    SplitAt(h.bs, k);
    PlugUndoesTake(h.bs[..k], h.bs[k], h.bs[k + 1..], n, memSize + HDR);
  }

  /** rt_free lowers `lfree` back to where it was before rt_malloc. */
  lemma RestoredLfree(h: Heap, k: nat, n: nat, memSize: nat)
    requires Inv(h, memSize) && Allocatable(h, k, n) && h.lfree <= h.bs[k].lo
    ensures var l := MallocAt(h, k, n, memSize).lfree;
            h.lfree <= h.bs[k].lo && (if h.bs[k].lo < l then h.bs[k].lo else l) == h.lfree
  {
    assert h.bs[k] in h.bs;
    if h.lfree == h.bs[k].lo {
      SplitAt(h.bs, k);
      NextFreeAbove(h.bs[..k], h.bs[k], h.bs[k + 1..], n, memSize + HDR);
    }
  }

  lemma NextFreeAbove(a: seq<Block>, b: Block, c: seq<Block>, n: nat, end: nat)
    requires Seg(a + [b] + c, 0, end, false) && !b.used && b.Data() >= n && n % 4 == 0
    ensures b.lo < NextFree(Take(b, n) + c, end)
  {
    TakeKeeps(a, b, c, n, end);
    var t := Take(b, n);
    assert t + c == [t[0]] + (t[1..] + c);
    assert (t + c)[1..] == t[1..] + c;
    NextFreeIs(t[1..] + c, t[0].hi, end, false, end);
  }

  // ----------------------------------------------- nothing in use, whole heap

  lemma NoneUsedAboveFree(c: seq<Block>, lo: nat, hi: nat)
    requires Seg(c, lo, hi, true) && forall i :: 0 <= i < |c| ==> !c[i].used
    ensures c == []
  {
  }

  /** With no block in use the heap is one free block. */
  lemma NothingUsedIsWhole(bs: seq<Block>, end: nat)
    requires Layout(bs, end) && forall i :: 0 <= i < |bs| ==> !bs[i].used
    ensures bs == [Block(0, end, false)]
  {
    NoneUsedAboveFree(bs[1..], bs[0].hi, end);
  }

  lemma {:induction false} UsedBytesZero(bs: seq<Block>, lo: nat, hi: nat, pf: bool)
    requires Seg(bs, lo, hi, pf)
    ensures 0 <= UsedBytes(bs)
    ensures UsedBytes(bs) == 0 <==> forall b :: b in bs ==> !b.used
  {
    if bs != [] {
      UsedBytesZero(bs[1..], bs[0].hi, hi, !bs[0].used);
      assert bs == [bs[0]] + bs[1..];
      assert bs[0] in bs;
    }
  }

  /** `used_mem` is zero exactly when the heap is back in its initial shape. */
  lemma ZeroUsedIsInitial(h: Heap, memSize: nat)
    requires Inv(h, memSize) && LfreeLowest(h.bs, h.lfree)
    ensures h.usedMem == 0 <==> h == Initial(memSize).(maxMem := h.maxMem)
  {
    UsedBytesZero(h.bs, 0, memSize + HDR, false);
    if h.usedMem == 0 {
      forall i | 0 <= i < |h.bs| ensures !h.bs[i].used { assert h.bs[i] in h.bs; }
      NothingUsedIsWhole(h.bs, memSize + HDR);
      assert h.bs[0] in h.bs;
    } else {
      InitialInv(memSize);
    }
  }

  // ------------------------------------------------------------ whole runs

  datatype Op = OpMalloc(size: nat) | OpFree(p: Option<int>) | OpRealloc(p: Option<int>, size: nat)

  function Step(h: Heap, op: Op, memSize: nat): Heap {
    match op
    case OpMalloc(size) => Malloc(h, size, memSize).0
    case OpFree(p) => Free(h, p, memSize)
    case OpRealloc(p, size) => Realloc(h, p, size, memSize).0
  }

  /** What callers owe: a pointer argument is RT_NULL, foreign, or live. */
  ghost predicate PointerOk(h: Heap, p: Option<int>, memSize: nat) {
    p.Some? && InHeap(p.value, memSize) ==> Live(h.bs, p.value)
  }

  ghost predicate Legal(h: Heap, op: Op, memSize: nat) {
    match op
    case OpMalloc(_) => true
    case OpFree(p) => PointerOk(h, p, memSize)
    case OpRealloc(p, _) => PointerOk(h, p, memSize)
  }

  function Run(h: Heap, ops: seq<Op>, memSize: nat): Heap
    decreases ops
  {
    if ops == [] then h else Run(Step(h, ops[0], memSize), ops[1..], memSize)
  }

  ghost predicate LegalRun(h: Heap, ops: seq<Op>, memSize: nat)
    decreases ops
  {
    ops == [] || (Legal(h, ops[0], memSize) && LegalRun(Step(h, ops[0], memSize), ops[1..], memSize))
  }

  lemma MallocKeeps(h: Heap, size: nat, memSize: nat)
    requires Inv(h, memSize)
    ensures Inv(Malloc(h, size, memSize).0, memSize)
    ensures LfreeLowest(h.bs, h.lfree) ==>
              LfreeLowest(Malloc(h, size, memSize).0.bs, Malloc(h, size, memSize).0.lfree)
  {
    var n := Rounded(size);
    var k := FirstFit(h.bs, h.lfree, n, memSize);
    FirstFitIs(h.bs, h.lfree, n, memSize);
    if size != 0 && Align(size) <= memSize && k < |h.bs| {
      MallocIs(h, size, k, memSize);
      MallocAtKeeps(h, k, n, memSize);
    }
  }

  lemma FreeKeeps(h: Heap, p: Option<int>, memSize: nat)
    requires Inv(h, memSize) && PointerOk(h, p, memSize)
    ensures Inv(Free(h, p, memSize), memSize)
    ensures LfreeLowest(h.bs, h.lfree) ==> LfreeLowest(Free(h, p, memSize).bs, Free(h, p, memSize).lfree)
  {
    if p.Some? && InHeap(p.value, memSize) {
      LiveIndex(h.bs, p.value, memSize + HDR);
      FreeIs(h, p.value, memSize);
      FreeAtKeeps(h, Index(h.bs, p.value - HDR), memSize);
    }
  }

  /** Whether this rt_realloc shrinks block k in place. */
  predicate Shrinks(h: Heap, p: Option<int>, size: nat, memSize: nat) {
    p.Some? && InHeap(p.value, memSize) && 0 < Align(size) <= memSize &&
    var k := Index(h.bs, p.value - HDR);
    k < |h.bs| && h.bs[k].Data() != Align(size) && Align(size) + HDR + MIN < h.bs[k].Data()
  }

  /** The remainder of an in-place shrink stays visible to rt_malloc when some
      free block lies lower or the next block is free. */
  predicate ShrinkVisible(h: Heap, k: nat)
    requires k < |h.bs|
  {
    h.lfree < h.bs[k].lo || (k + 1 < |h.bs| && !h.bs[k + 1].used)
  }

  lemma ReallocKeeps(h: Heap, p: Option<int>, size: nat, memSize: nat)
    requires Inv(h, memSize) && PointerOk(h, p, memSize)
    ensures Inv(Realloc(h, p, size, memSize).0, memSize)
    ensures LfreeLowest(h.bs, h.lfree) && !Shrinks(h, p, size, memSize) ==>
              LfreeLowest(Realloc(h, p, size, memSize).0.bs, Realloc(h, p, size, memSize).0.lfree)
  {
    var n := Align(size);
    if Shrinks(h, p, size, memSize) {
      ShrinkStepKeeps(h, p, size, memSize);
    } else if n <= memSize && n != 0 && p.Some? && InHeap(p.value, memSize) {
      MoveStepKeeps(h, p, n, size, memSize);
    } else {
      MallocKeeps(h, n, memSize);
      FreeKeeps(h, p, memSize);
    }
  }

  lemma ShrinkStepKeeps(h: Heap, p: Option<int>, size: nat, memSize: nat)
    requires Inv(h, memSize) && PointerOk(h, p, memSize) && Shrinks(h, p, size, memSize)
    ensures Inv(Realloc(h, p, size, memSize).0, memSize)
  {
    LiveIndex(h.bs, p.value, memSize + HDR);
    ShrinkIsStep(h, p, size, memSize);
    ShrinkAtKeeps(h, Index(h.bs, p.value - HDR), Align(size), memSize);
  }

  lemma MoveStepKeeps(h: Heap, p: Option<int>, n: nat, size: nat, memSize: nat)
    requires Inv(h, memSize) && PointerOk(h, p, memSize) && n == Align(size)
    requires !Shrinks(h, p, size, memSize) && 0 < n <= memSize && p.Some? && InHeap(p.value, memSize)
    ensures var g := Realloc(h, p, size, memSize).0;
            Inv(g, memSize) && (LfreeLowest(h.bs, h.lfree) ==> LfreeLowest(g.bs, g.lfree))
  {
    AlignTwice(size);
    ReallocAligned(h, p, size, memSize);
    LiveIndex(h.bs, p.value, memSize + HDR);
    ResizeKeeps(h, p.value, n, memSize);
  }

  lemma ResizeKeeps(h: Heap, p: int, n: nat, memSize: nat)
    requires Inv(h, memSize) && Live(h.bs, p) && InHeap(p, memSize) && Align(n) == n <= memSize && n != 0
    requires var k := Index(h.bs, p - HDR); k < |h.bs| && (h.bs[k].Data() == n || n + HDR + MIN >= h.bs[k].Data())
    ensures var g := Realloc(h, Some(p), n, memSize).0;
            Inv(g, memSize) && (LfreeLowest(h.bs, h.lfree) ==> LfreeLowest(g.bs, g.lfree))
  {
    if h.bs[Index(h.bs, p - HDR)].Data() == n {
      StayIs(h, p, n, memSize);
    } else {
      MoveIs(h, p, n, memSize);
      MoveKeeps(h, p, n, memSize);
    }
  }

  lemma ReallocAligned(h: Heap, p: Option<int>, size: nat, memSize: nat)
    ensures Realloc(h, p, size, memSize) == Realloc(h, p, Align(size), memSize)
  {
    AlignTwice(size);
  }

  lemma MoveKeeps(h: Heap, p: int, n: nat, memSize: nat)
    requires Inv(h, memSize) && Live(h.bs, p)
    ensures var f := Move(h, Some(p), n, memSize).0;
            Inv(f, memSize) && (LfreeLowest(h.bs, h.lfree) ==> LfreeLowest(f.bs, f.lfree))
  {
    MallocKeeps(h, n, memSize);
    LiveAfterMalloc(h, n, p, memSize);
    FreeKeeps(Malloc(h, n, memSize).0, Some(p), memSize);
  }

  lemma StepKeepsInv(h: Heap, op: Op, memSize: nat)
    requires Inv(h, memSize) && Legal(h, op, memSize)
    ensures Inv(Step(h, op, memSize), memSize)
  {
    match op {
      case OpMalloc(size) => MallocKeeps(h, size, memSize);
      case OpFree(p) => FreeKeeps(h, p, memSize);
      case OpRealloc(p, size) => ReallocKeeps(h, p, size, memSize);
    }
  }

  /** Every run keeps the tiling, the coalescing, `lfree` and the accounting. */
  lemma {:induction false} RunKeepsInv(h: Heap, ops: seq<Op>, memSize: nat)
    requires Inv(h, memSize) && LegalRun(h, ops, memSize)
    ensures Inv(Run(h, ops, memSize), memSize)
    decreases ops
  {
    if ops != [] {
      StepKeepsInv(h, ops[0], memSize);
      RunKeepsInv(Step(h, ops[0], memSize), ops[1..], memSize);
    }
  }

  /** After an in-place shrink `lfree` is still lowest exactly when the remainder is visible. */
  lemma ShrinkLowestIff(h: Heap, k: nat, n: nat, memSize: nat)
    requires Inv(h, memSize) && LfreeLowest(h.bs, h.lfree)
    requires k < |h.bs| && h.bs[k].used && n % 4 == 0 && n + HDR <= h.bs[k].Data()
    ensures var g := ShrinkAt(h, k, n);
            LfreeLowest(g.bs, g.lfree) <==> ShrinkVisible(h, k)
  {
    CutLowestAt(h.bs, k, n, h.lfree, memSize + HDR);
  }

  /** `lfree` is the lowest free block once n bytes of b are kept and the rest is plugged. */
  ghost predicate CutLowest(a: seq<Block>, b: Block, c: seq<Block>, n: nat, lfree: nat) {
    var t, r := Block(b.lo, b.lo + HDR + n, true), Block(b.lo + HDR + n, b.hi, false);
    LfreeLowest(PlugHoles(a + [t], r, c), PlugLfree(a + [t], r, c, lfree))
  }

  lemma CutLowestAt(bs: seq<Block>, k: nat, n: nat, lfree: nat, end: nat)
    requires Seg(bs, 0, end, false) && LfreeOk(bs, lfree, end) && LfreeLowest(bs, lfree)
    requires k < |bs| && bs[k].used && n + HDR <= bs[k].Data()
    ensures CutLowest(bs[..k], bs[k], bs[k + 1..], n, lfree) <==>
            lfree < bs[k].lo || (k + 1 < |bs| && !bs[k + 1].used)
  {
    SplitAt(bs, k);
    var a, b, c := bs[..k], bs[k], bs[k + 1..];
    SegAround(a, b, c, 0, end, false);
    SegBounds(a, 0, b.lo, false);
    SegBounds(c, b.hi, end, !b.used);
    CutLowestIff(a, b, c, n, lfree, end);
  }

  lemma CutLowestIff(a: seq<Block>, b: Block, c: seq<Block>, n: nat, lfree: nat, end: nat)
    requires (forall x :: x in a ==> x.hi <= b.lo && x.lo < b.lo) && (forall x :: x in c ==> b.hi <= x.lo)
    requires LfreeLowest(a + [b] + c, lfree) && LfreeOk(a + [b] + c, lfree, end) && b.used && b.hi <= end
    requires HDR + n + HDR <= b.hi - b.lo && (c == [] ==> b.hi == end) && (c != [] ==> c[0].lo == b.hi)
    ensures CutLowest(a, b, c, n, lfree) <==> lfree < b.lo || (c != [] && !c[0].used)
  {
    CutIs(a, b, c, n, lfree);
    var fwd := c != [] && !c[0].used;
    var t := Block(b.lo, b.lo + HDR + n, true);
    var m := Block(t.hi, if fwd then c[0].hi else b.hi, false);
    var c' := if fwd then c[1..] else c;
    if fwd { assert c == [c[0]] + c' && c[0] in a + [b] + c; }
    if lfree != end {
      var x :| x in a + [b] + c && x.lo == lfree && !x.used;
      assert x in a || x in c;
    }
    var l := if fwd && lfree == c[0].lo then t.hi else lfree;
    assert l <= m.lo <==> lfree < b.lo || fwd;
    SidesAbove(a, b, c, lfree);
    assert LfreeLowest(a, l) && LfreeLowest(c', l);
    CutFree(a, b, c', t, m, l);
  }

  lemma SidesAbove(a: seq<Block>, b: Block, c: seq<Block>, l: nat)
    requires LfreeLowest(a + [b] + c, l)
    ensures LfreeLowest(a, l) && LfreeLowest(c, l)
  {
    assert forall x :: x in a || x in c ==> x in a + [b] + c;
  }

  /** The chain and `lfree` after the cut, spelled out. */
  lemma CutIs(a: seq<Block>, b: Block, c: seq<Block>, n: nat, lfree: nat)
    ensures var t := Block(b.lo, b.lo + HDR + n, true);
            var fwd := c != [] && !c[0].used;
            var m := Block(t.hi, if fwd then c[0].hi else b.hi, false);
            CutLowest(a, b, c, n, lfree) <==>
            LfreeLowest(a + [t] + [m] + (if fwd then c[1..] else c), if fwd && lfree == c[0].lo then t.hi else lfree)
  {
    var t := Block(b.lo, b.lo + HDR + n, true);
    assert (a + [t])[|a + [t]| - 1] == t;
  }

  /** The free blocks of the cut chain are the remainder and those of the two sides. */
  lemma CutFree(a: seq<Block>, b: Block, c: seq<Block>, t: Block, m: Block, l: nat)
    requires t.used && !m.used
    ensures LfreeLowest(a + [t] + [m] + c, l) <==> l <= m.lo && LfreeLowest(a, l) && LfreeLowest(c, l)
  {
    var g := a + [t] + [m] + c;
    assert m in g && (forall x :: x in a ==> x in g) && (forall x :: x in c ==> x in g);
  }

  /** The step is no in-place shrink, or one whose remainder stays visible. */
  ghost predicate Visible(h: Heap, op: Op, memSize: nat) {
    op.OpRealloc? && Shrinks(h, op.p, op.size, memSize) ==> ShrinkVisible(h, Index(h.bs, op.p.value - HDR))
  }

  ghost predicate VisibleRun(h: Heap, ops: seq<Op>, memSize: nat)
    decreases ops
  {
    ops == [] || (Visible(h, ops[0], memSize) && VisibleRun(Step(h, ops[0], memSize), ops[1..], memSize))
  }

  lemma StepKeepsLowest(h: Heap, op: Op, memSize: nat)
    requires Inv(h, memSize) && LfreeLowest(h.bs, h.lfree) && Legal(h, op, memSize) && Visible(h, op, memSize)
    ensures LfreeLowest(Step(h, op, memSize).bs, Step(h, op, memSize).lfree)
  {
    match op {
      case OpMalloc(size) => MallocKeeps(h, size, memSize);
      case OpFree(p) => FreeKeeps(h, p, memSize);
      case OpRealloc(p, size) =>
        if Shrinks(h, p, size, memSize) {
          LiveIndex(h.bs, p.value, memSize + HDR);
          ShrinkStepLowest(h, p, size, memSize);
        } else {
          ReallocKeeps(h, p, size, memSize);
        }
    }
  }

  /** In runs of rt_malloc, rt_free and visible reallocs `lfree` is the lowest free block. */
  lemma {:induction false} RunKeepsLowest(h: Heap, ops: seq<Op>, memSize: nat)
    requires Inv(h, memSize) && LfreeLowest(h.bs, h.lfree)
    requires LegalRun(h, ops, memSize) && VisibleRun(h, ops, memSize)
    ensures var g := Run(h, ops, memSize); Inv(g, memSize) && LfreeLowest(g.bs, g.lfree)
    decreases ops
  {
    if ops != [] {
      StepKeepsInv(h, ops[0], memSize);
      StepKeepsLowest(h, ops[0], memSize);
      RunKeepsLowest(Step(h, ops[0], memSize), ops[1..], memSize);
    }
  }

  lemma ShrinkStepLowest(h: Heap, p: Option<int>, size: nat, memSize: nat)
    requires Inv(h, memSize) && LfreeLowest(h.bs, h.lfree)
    requires Shrinks(h, p, size, memSize) && h.bs[Index(h.bs, p.value - HDR)].used
    requires ShrinkVisible(h, Index(h.bs, p.value - HDR))
    ensures var g := Realloc(h, p, size, memSize).0; LfreeLowest(g.bs, g.lfree)
  {
    ShrinkIsStep(h, p, size, memSize);
    ShrinkLowestIff(h, Index(h.bs, p.value - HDR), Align(size), memSize);
  }

  lemma ShrinkIsStep(h: Heap, p: Option<int>, size: nat, memSize: nat)
    requires Shrinks(h, p, size, memSize)
    ensures Realloc(h, p, size, memSize).0 == ShrinkAt(h, Index(h.bs, p.value - HDR), Align(size))
  {
  }

  /** A heap on which rt_malloc fails although a free block holds the request:
      reached by two allocations and one shrinking rt_realloc. */
  lemma ShrinkHidesBlock()
    ensures var ops := [OpMalloc(100), OpMalloc(20), OpRealloc(Some(12), 20)];
            var h := Run(Initial(200), ops, 200);
            && LegalRun(Initial(200), ops, 200)
            && !LfreeLowest(h.bs, h.lfree)
            && Malloc(h, 60, 200).1 == None
            && exists b :: b in h.bs && Holds(b, 60) && b.lo + 60 < 200
  {
    var h3 := Hide3();
    HideRun();
    HideEnd();
    assert h3.bs[1] in h3.bs;
  }

  lemma HideRun()
    ensures var ops := [OpMalloc(100), OpMalloc(20), OpRealloc(Some(12), 20)];
            Run(Hide0(), ops, 200) == Hide3() && LegalRun(Hide0(), ops, 200)
  {
    var ops := [OpMalloc(100), OpMalloc(20), OpRealloc(Some(12), 20)];
    assert ops[1..] == [OpMalloc(20), OpRealloc(Some(12), 20)];
    HideStep0();
    HideRun1();
  }

  lemma HideRun1()
    ensures var ops := [OpMalloc(20), OpRealloc(Some(12), 20)];
            Run(Hide1(), ops, 200) == Hide3() && LegalRun(Hide1(), ops, 200)
  {
    var ops := [OpMalloc(20), OpRealloc(Some(12), 20)];
    assert ops[1..] == [OpRealloc(Some(12), 20)];
    HideStep1();
    HideRun2();
  }

  lemma HideRun2()
    ensures var ops := [OpRealloc(Some(12), 20)];
            Run(Hide2(), ops, 200) == Hide3() && LegalRun(Hide2(), ops, 200)
  {
    assert [OpRealloc(Some(12), 20)][1..] == [];
    assert Hide2().bs[0] in Hide2().bs;
    HideStep2();
  }

  function Hide0(): Heap { Initial(200) }
  function Hide1(): Heap { Heap([Block(0, 112, true), Block(112, 212, false)], 112, 112, 112) }
  function Hide2(): Heap { Heap([Block(0, 112, true), Block(112, 144, true), Block(144, 212, false)], 144, 144, 144) }
  function Hide3(): Heap {
    Heap([Block(0, 32, true), Block(32, 112, false), Block(112, 144, true), Block(144, 212, false)], 144, 64, 144)
  }

  lemma HideStep0()
    ensures Malloc(Hide0(), 100, 200).0 == Hide1()
  {
    var h0, h1 := Hide0(), Hide1();
    assert h0.bs[1..] == [] && h0.bs[..0] + h1.bs + h0.bs[1..] == h1.bs && h1.bs + h0.bs[1..] == h1.bs;
    assert h1.bs[1..] == [h1.bs[1]];
    MallocIs(h0, 100, 0, 200);
  }

  lemma HideStep1()
    ensures Malloc(Hide1(), 20, 200).0 == Hide2()
  {
    var h1, h2 := Hide1(), Hide2();
    assert h1.bs[1..] == [h1.bs[1]] && h1.bs[2..] == [];
    var t := Take(h1.bs[1], 20);
    assert t == [h2.bs[1], h2.bs[2]] && t + h1.bs[2..] == t && t[1..] == [h2.bs[2]];
    assert h1.bs[..1] + t + h1.bs[2..] == h2.bs;
    assert FirstFit(h1.bs[1..], 112, 20, 200) == 0;
    assert NextFree(t[1..], 212) == 144 && NextFree(t, 212) == 144;
    MallocIs(h1, 20, 1, 200);
  }

  lemma HideStep2()
    ensures Realloc(Hide2(), Some(12), 20, 200).0 == Hide3()
  {
    var h2, h3 := Hide2(), Hide3();
    var b0, r := h3.bs[0], h3.bs[1];
    assert h2.bs[..0] + [b0] == [b0] && h2.bs[1..] == [h2.bs[1], h2.bs[2]];
    assert PlugHoles([b0], r, h2.bs[1..]) == h3.bs;
    ShrinkIs(h2, 12, 20, 200);
  }

  lemma HideEnd()
    ensures Malloc(Hide3(), 60, 200).1 == None
  {
    var bs := Hide3().bs;
    assert bs[1..] == [bs[1], bs[2], bs[3]] && bs[1..][1..] == [bs[2], bs[3]] && bs[1..][1..][1..] == [bs[3]];
    assert FirstFit(bs[1..][1..], 144, 60, 200) == 2;
    assert FirstFit(bs, 144, 60, 200) == 4;
  }
}
