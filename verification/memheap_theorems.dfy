/** What the memory heap promises over whole runs and across operations. */
module MemHeapTheorems {
  import opened Options
  import opened Words
  import opened MemHeapSpec
  import opened MemHeapProofs

  // ------------------------------------------------------------ whole runs

  /** Every run keeps the tiling, the agreement of the two lists, the coalescing,
      the minimum block size and `available_size`. */
  lemma {:induction false} RunKeepsInv(h: Heap, ops: seq<Op>, P: nat)
    requires Inv(h, P) && LegalRun(h, ops, P)
    ensures Inv(Run(h, ops, P), P)
    decreases ops
  {
    if ops != [] {
      match ops[0] {
        case OpAlloc(size) => AllocKeeps(h, size, P);
        case OpFree(p) => FreeKeeps(h, p, P);
        case OpRealloc(p, size) => ReallocKeeps(h, p, size, P);
      }
      RunKeepsInv(Step(h, ops[0], P), ops[1..], P);
    }
  }

  /** Each free block is on the free list exactly once, and nothing else is. */
  lemma ListedOnce(h: Heap, P: nat, x: nat)
    requires Inv(h, P)
    ensures Occurs(h.free, x) <= 1
    ensures x in h.free <==> exists b :: b in h.bs && !b.used && b.lo == x
  {
    TimesOnce(h.bs, 0, P - HDR, false, x);
    OccursIn(h.free, x);
    TimesIn(h.bs, x);
  }

  ghost function UsedData(bs: seq<Block>): int {
    if bs == [] then 0 else (if bs[0].used then bs[0].Data() else 0) + UsedData(bs[1..])
  }

  lemma {:induction false} TilesSum(bs: seq<Block>, lo: nat, hi: nat, pf: bool)
    requires Tiles(bs, lo, hi, pf)
    ensures FreeData(bs) + UsedData(bs) + HDR * |bs| == hi - lo
    ensures 0 <= UsedData(bs) && (UsedData(bs) == 0 <==> forall b :: b in bs ==> !b.used)
  {
    if bs != [] {
      TilesSum(bs[1..], bs[0].hi, hi, !bs[0].used);
      assert bs == [bs[0]] + bs[1..];
    }
  }

  /** Conservation: free data, used data and one header a block, the tailer
      included, make up the pool. */
  lemma Conserved(h: Heap, P: nat)
    requires Inv(h, P)
    ensures h.avail + UsedData(h.bs) + HDR * (|h.bs| + 1) == P
  {
    TilesSum(h.bs, 0, P - HDR, false);
  }

  /** Everything is free again exactly when `available_size` is what rt_memheap_init
      set, and then the pool is one block again. */
  lemma AllAvailableIff(h: Heap, P: nat)
    requires Inv(h, P)
    ensures h.avail == P - 2 * HDR <==> (forall b :: b in h.bs ==> !b.used)
    ensures h.avail == P - 2 * HDR <==> h == Initial(P).(maxUsed := h.maxUsed)
  {
    TilesSum(h.bs, 0, P - HDR, false);
    Conserved(h, P);
    if forall b :: b in h.bs ==> !b.used {
      assert h.bs[0] in h.bs;
      NoneAboveHole(h.bs[1..], h.bs[0].hi, P - HDR);
      assert h.bs == [Block(0, P - HDR, false)];
      OneListed(h.free, P);
    }
  }

  lemma NoneAboveHole(c: seq<Block>, lo: nat, hi: nat)
    requires Tiles(c, lo, hi, true) && forall b :: b in c ==> !b.used
    ensures c == []
  {
  }

  lemma OneListed(f: seq<nat>, P: nat)
    requires P >= HDR && Lists(f, [Block(0, P - HDR, false)])
    ensures f == [0]
  {
    var bs := [Block(0, P - HDR, false)];
    assert bs[1..] == [];
    forall x: nat | x in f ensures x == 0 {
      OccursIn(f, x);
      assert Occurs(f, x) == Times(bs, x);
    }
    OccursAll(f);
    assert Occurs(f, 0) == Times(bs, 0);
  }

  lemma {:induction false} OccursAll(f: seq<nat>)
    requires forall x: nat :: x in f ==> x == 0
    ensures Occurs(f, 0) == |f|
  {
    if f != [] {
      assert f[0] in f;
      forall x: nat | x in f[1..] ensures x == 0 { assert x in f; }
      OccursAll(f[1..]);
    }
  }

  // -------------------------------------------------------------- allocation

  /** A free block that could hold n bytes. */
  ghost predicate Holds(b: Block, n: nat) { !b.used && b.Data() >= n }

  lemma FreeWithin(bs: seq<Block>, b: Block, lo: nat, hi: nat, pf: bool)
    requires Tiles(bs, lo, hi, pf) && b in bs && !b.used
    ensures b.Data() <= FreeData(bs)
    ensures b.Data() == FreeData(bs) ==> forall x :: x in bs && !x.used ==> x == b
  {
    var k :| 0 <= k < |bs| && bs[k] == b;
    SplitAt(bs, k);
    TilesAround(bs[..k], b, bs[k + 1..], lo, hi, pf);
    DataAround(bs[..k], b, bs[k + 1..]);
    FreeSome(bs[..k], lo, b.lo, pf);
    FreeSome(bs[k + 1..], b.hi, hi, true);
  }

  lemma {:induction false} FreeSome(bs: seq<Block>, lo: nat, hi: nat, pf: bool)
    requires Tiles(bs, lo, hi, pf)
    ensures 0 <= FreeData(bs) && (FreeData(bs) == 0 ==> forall x :: x in bs ==> x.used)
  {
    if bs != [] {
      FreeSome(bs[1..], bs[0].hi, hi, !bs[0].used);
      assert bs == [bs[0]] + bs[1..];
    }
  }

  /** rt_memheap_alloc fails exactly when no free block holds the rounded size, or
      when the only one left holds it exactly: the comparison with
      `available_size` is strict. */
  lemma AllocFailsIff(h: Heap, size: nat, P: nat)
    requires Inv(h, P)
    ensures Alloc(h, size, P).1.None? <==>
            (forall b :: b in h.bs ==> !Holds(b, Rounded(size))) || h.avail == Rounded(size)
    ensures forall b :: b in h.bs && Holds(b, Rounded(size)) && h.avail == Rounded(size) ==>
              b.Data() == Rounded(size) && forall x :: x in h.bs && !x.used ==> x == b
  {
    var n := Rounded(size);
    AllocIs(h, size, P);
    RoundedAny(size);
    forall b | b in h.bs && Holds(b, n)
      ensures FirstFit(h.free, h.bs, n) < |h.free| && n <= b.Data() <= h.avail
      ensures b.Data() == h.avail ==> forall x :: x in h.bs && !x.used ==> x == b
    {
      FitIsFound(h, b, n, P);
      FreeWithin(h.bs, b, 0, P - HDR, false);
    }
    if FirstFit(h.free, h.bs, n) < |h.free| {
      ChosenFits(h, size, P);
      assert h.bs[Chosen(h, size, P)] in h.bs;
    }
  }

  lemma FitIsFound(h: Heap, b: Block, n: nat, P: nat)
    requires Inv(h, P) && b in h.bs && Holds(b, n)
    ensures FirstFit(h.free, h.bs, n) < |h.free|
  {
    var k :| 0 <= k < |h.bs| && h.bs[k] == b;
    IndexAt(h.bs, k, 0, P - HDR, false);
    TimesIn(h.bs, b.lo);
    OccursIn(h.free, b.lo);
    FirstFitIs(h.free, h.bs, n);
    assert DataAt(h.bs, b.lo) == b.Data();
  }

  /** A new pool refuses a request for all of its data. */
  lemma WholePoolRefused(P: nat)
    requires P % 4 == 0 && 2 * HDR + MINI <= P < WORD
    ensures Inv(Initial(P), P) && Alloc(Initial(P), P - 2 * HDR, P).1 == None
    ensures exists b :: b in Initial(P).bs && Holds(b, P - 2 * HDR)
  {
    InitialInv(P);
    assert Initial(P).bs[0] in Initial(P).bs;
  }

  /** t is a block of its own for a request of `size` bytes: large enough, less than
      one minimal block too large, and clear of every live block. */
  ghost predicate Served(bs: seq<Block>, gs: seq<Block>, t: Block, size: nat) {
    && t in gs && t.used && t.lo % 4 == 0 && size <= t.Data() < Rounded(size) + HDR + MINI
    && forall b :: b in bs && b.used ==> b in gs && (b.hi <= t.lo || t.hi <= b.lo)
  }

  /** What a successful allocation hands out. */
  lemma AllocGives(h: Heap, size: nat, P: nat)
    requires Inv(h, P) && Alloc(h, size, P).1.Some? && size + 3 < WORD
    ensures var (g, p) := Alloc(h, size, P);
            exists t :: Served(h.bs, g.bs, t, size) && t.lo + HDR == p.value
  {
    var k, n := Chosen(h, size, P), Rounded(size);
    AllocIs(h, size, P);
    ChosenFits(h, size, P);
    LiveAfterAlloc(h, size, P);
    RoundedIs(size);
    TakenServes(h, k, size, P);
  }

  /** The block taken, in front of what a split leaves. */
  lemma TakenServes(h: Heap, k: nat, size: nat, P: nat)
    requires Inv(h, P) && Allocatable(h, k, Rounded(size)) && size <= Rounded(size)
    requires forall b :: b in h.bs && b.used ==> b in TakeAt(h, k, Rounded(size), P).bs
    ensures exists t :: Served(h.bs, TakeAt(h, k, Rounded(size), P).bs, t, size) && t.lo == h.bs[k].lo
  {
    var b, n := h.bs[k], Rounded(size);
    BlockApart(h.bs, k, P - HDR);
    TilesBounds(h.bs, 0, P - HDR, false);
    assert b in h.bs;
    var t := if Splits(b, n) then Block(b.lo, b.lo + HDR + n, true) else b.(used := true);
    assert t in TakeAt(h, k, n, P).bs;
    assert Served(h.bs, TakeAt(h, k, n, P).bs, t, size);
  }

  // ------------------------------------------------------ freeing what was taken

  lemma SliceMid(a: seq<Block>, b: Block, c: seq<Block>)
    ensures (a + [b] + c)[..|a|] == a && (a + [b] + c)[|a|] == b && (a + [b] + c)[|a| + 1..] == c
  {
  }

  /** Freeing the block just taken brings back the blocks and `available_size`;
      the block moves to the front of the free list. */
  lemma FreeUndoesTake(h: Heap, k: nat, n: nat, P: nat)
    requires Inv(h, P) && Allocatable(h, k, n)
    ensures var g := TakeAt(h, k, n, P);
            k < |g.bs| && FreeAt(g, k) == Heap(h.bs, [h.bs[k].lo] + Drop(h.free, h.bs[k].lo), h.avail, g.maxUsed)
  {
    var a, b, c := h.bs[..k], h.bs[k], h.bs[k + 1..];
    SplitAt(h.bs, k);
    TilesAround(a, b, c, 0, P - HDR, false);
    if Splits(b, n) {
      FreeUndoesSplit(h, a, b, c, n, P);
    } else {
      SliceMid(a, b.(used := true), c);
    }
  }

  lemma FreeUndoesSplit(h: Heap, a: seq<Block>, b: Block, c: seq<Block>, n: nat, P: nat)
    requires h.bs == a + [b] + c && !b.used && Splits(b, n) && !MergesDown(a) && !MergesUp(c)
    ensures var g := TakeAt(h, |a|, n, P);
            |a| < |g.bs| && FreeAt(g, |a|) == Heap(h.bs, [b.lo] + Drop(h.free, b.lo), h.avail, g.maxUsed)
  {
    SliceMid(a, b, c);
    var t, r := Block(b.lo, b.lo + HDR + n, true), Block(b.lo + HDR + n, b.hi, false);
    assert TakeAt(h, |a|, n, P).bs == a + [t] + ([r] + c);
    SliceMid(a, t, [r] + c);
    assert ([r] + c)[1..] == c;
    assert Drop([r.lo] + Drop(h.free, b.lo), r.lo) == Drop(h.free, b.lo);
  }

  /** A successful rt_memheap_alloc followed at once by rt_memheap_free. */
  lemma FreeUndoesAlloc(h: Heap, size: nat, P: nat)
    requires Inv(h, P) && Alloc(h, size, P).1.Some?
    ensures var (g, p) := Alloc(h, size, P);
            Free(g, p) == Heap(h.bs, [p.value - HDR] + Drop(h.free, p.value - HDR), h.avail, g.maxUsed)
  {
    var k, n := Chosen(h, size, P), Rounded(size);
    AllocIs(h, size, P);
    ChosenFits(h, size, P);
    FreeUndoesTake(h, k, n, P);
    TakenIndex(h, k, n, P);
  }

  lemma TakenIndex(h: Heap, k: nat, n: nat, P: nat)
    requires Inv(h, P) && Allocatable(h, k, n)
    ensures Index(TakeAt(h, k, n, P).bs, h.bs[k].lo) == k
  {
    TakeAtKeeps(h, k, n, P);
    IndexAt(TakeAt(h, k, n, P).bs, k, 0, P - HDR, false);
  }
}
