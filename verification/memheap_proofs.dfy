/** What every operation of the memory heap keeps. */
module MemHeapProofs {
  import opened Options
  import opened Words
  import opened MemHeapSpec

  // --------------------------------------------------- cutting and joining

  lemma {:induction false} TilesConcat(a: seq<Block>, b: seq<Block>, lo: nat, hi: nat, pf: bool)
    ensures Tiles(a + b, lo, hi, pf) <==> Tiles(a, lo, Top(a, lo), pf) && Tiles(b, Top(a, lo), hi, LastFree(a, pf))
  {
    if a == [] {
      assert a + b == b;
    } else {
      TilesConcat(a[1..], b, a[0].hi, hi, !a[0].used);
      assert (a + b)[1..] == a[1..] + b;
    }
  }

  lemma {:induction false} DataConcat(a: seq<Block>, b: seq<Block>)
    ensures FreeData(a + b) == FreeData(a) + FreeData(b)
  {
    if a == [] {
      assert a + b == b;
    } else {
      DataConcat(a[1..], b);
      assert (a + b)[1..] == a[1..] + b;
    }
  }

  lemma {:induction false} TimesConcat(a: seq<Block>, b: seq<Block>, x: nat)
    ensures Times(a + b, x) == Times(a, x) + Times(b, x)
  {
    if a == [] {
      assert a + b == b;
    } else {
      TimesConcat(a[1..], b, x);
      assert (a + b)[1..] == a[1..] + b;
    }
  }

  lemma {:induction false} TilesTop(a: seq<Block>, lo: nat, pf: bool)
    ensures forall hi :: Tiles(a, lo, hi, pf) ==> hi == Top(a, lo) && lo <= hi
  {
    if a != [] { TilesTop(a[1..], a[0].hi, !a[0].used); }
  }

  /** A tiling around one block. */
  lemma TilesAround(a: seq<Block>, b: Block, c: seq<Block>, lo: nat, hi: nat, pf: bool)
    ensures Tiles(a + [b] + c, lo, hi, pf) <==>
            && Tiles(a, lo, b.lo, pf) && b.lo + HDR + MINI <= b.hi && b.lo % 4 == 0 && (LastFree(a, pf) ==> b.used)
            && Tiles(c, b.hi, hi, !b.used)
  {
    assert a + [b] + c == a + ([b] + c);
    TilesConcat(a, [b] + c, lo, hi, pf);
    TilesTop(a, lo, pf);
    assert ([b] + c)[1..] == c;
  }

  lemma DataAround(a: seq<Block>, b: Block, c: seq<Block>)
    ensures FreeData(a + [b] + c) == FreeData(a) + (if b.used then 0 else b.Data()) + FreeData(c)
  {
    assert a + [b] + c == a + ([b] + c);
    DataConcat(a, [b] + c);
    assert ([b] + c)[1..] == c;
  }

  ghost function Here(b: Block, x: nat): nat {
    if !b.used && b.lo == x then 1 else 0
  }

  lemma TimesAround(a: seq<Block>, b: Block, c: seq<Block>, x: nat)
    ensures Times(a + [b] + c, x) == Times(a, x) + Here(b, x) + Times(c, x)
  {
    assert a + [b] + c == a + ([b] + c);
    TimesConcat(a, [b] + c, x);
    assert ([b] + c)[1..] == c;
  }

  lemma SplitAt(bs: seq<Block>, k: nat)
    requires k < |bs|
    ensures bs == bs[..k] + [bs[k]] + bs[k + 1..]
  {
  }

  lemma {:induction false} TilesBounds(a: seq<Block>, lo: nat, hi: nat, pf: bool)
    requires Tiles(a, lo, hi, pf)
    ensures lo <= hi
    ensures forall b :: b in a ==> lo <= b.lo && b.lo + HDR + MINI <= b.hi <= hi && b.lo % 4 == 0
    ensures 0 <= FreeData(a) <= hi - lo
  {
    if a != [] {
      TilesBounds(a[1..], a[0].hi, hi, !a[0].used);
      assert a == [a[0]] + a[1..];
    }
  }

  lemma TilesWeaken(c: seq<Block>, lo: nat, hi: nat)
    requires Tiles(c, lo, hi, true)
    ensures Tiles(c, lo, hi, false)
  {
  }

  // ------------------------------------------------------------ the free list

  lemma {:induction false} DropIs(f: seq<nat>, x: nat, y: nat)
    ensures Occurs(Drop(f, x), y) == Occurs(f, y) - (if x == y && Occurs(f, x) > 0 then 1 else 0)
  {
    if f != [] && f[0] != x {
      DropIs(f[1..], x, y);
      assert ([f[0]] + Drop(f[1..], x))[1..] == Drop(f[1..], x);
    }
  }

  lemma {:induction false} OccursIn(f: seq<nat>, x: nat)
    ensures Occurs(f, x) > 0 <==> x in f
  {
    if f != [] {
      OccursIn(f[1..], x);
      assert f == [f[0]] + f[1..];
    }
  }

  lemma {:induction false} TimesIn(bs: seq<Block>, x: nat)
    ensures Times(bs, x) > 0 <==> exists b :: b in bs && !b.used && b.lo == x
  {
    if bs != [] {
      TimesIn(bs[1..], x);
      assert bs == [bs[0]] + bs[1..];
      if Times(bs[1..], x) > 0 {
        var b :| b in bs[1..] && !b.used && b.lo == x;
        assert b in bs;
      }
    }
  }

  /** No header is listed twice. */
  lemma {:induction false} TimesOnce(bs: seq<Block>, lo: nat, hi: nat, pf: bool, x: nat)
    requires Tiles(bs, lo, hi, pf)
    ensures Times(bs, x) <= 1 && (x < lo ==> Times(bs, x) == 0)
  {
    if bs != [] { TimesOnce(bs[1..], bs[0].hi, hi, !bs[0].used, x); }
  }

  /** Header offsets name blocks uniquely. */
  lemma {:induction false} IndexAt(bs: seq<Block>, k: nat, lo: nat, hi: nat, pf: bool)
    requires Tiles(bs, lo, hi, pf) && k < |bs|
    ensures Index(bs, bs[k].lo) == k
  {
    if k > 0 {
      TilesBounds(bs[1..], bs[0].hi, hi, !bs[0].used);
      assert bs[k] in bs[1..];
      IndexAt(bs[1..], k - 1, bs[0].hi, hi, !bs[0].used);
    }
  }

  /** An entry of the free list is the header of a free block. */
  lemma FreeEntry(h: Heap, x: nat, P: nat)
    requires Inv(h, P) && x in h.free
    ensures var k := Index(h.bs, x); k < |h.bs| && !h.bs[k].used && h.bs[k].lo == x
  {
    OccursIn(h.free, x);
    TimesIn(h.bs, x);
    var b :| b in h.bs && !b.used && b.lo == x;
    var k :| 0 <= k < |h.bs| && h.bs[k] == b;
    IndexAt(h.bs, k, 0, P - HDR, false);
  }

  lemma LiveIndex(bs: seq<Block>, p: int, end: nat)
    requires Tiles(bs, 0, end, false) && Live(bs, p)
    ensures var k := Index(bs, p - HDR); k < |bs| && bs[k].used && bs[k].lo + HDR == p
  {
    var b :| b in bs && b.used && b.lo + HDR == p;
    var k :| 0 <= k < |bs| && bs[k] == b;
    IndexAt(bs, k, 0, end, false);
  }

  // -------------------------------------------------------- merging with holes

  /** The blocks above a hole that ends at `hi`. */
  lemma MergeUp(c: seq<Block>, hi: nat, end: nat)
    requires Tiles(c, hi, end, false)
    ensures Tiles(Above(c), HoleHi(c, hi), end, true) && hi <= HoleHi(c, hi)
    ensures HoleHi(c, hi) == hi + (if MergesUp(c) then HDR + c[0].Data() else 0)
    ensures FreeData(c) == FreeData(Above(c)) + (if MergesUp(c) then c[0].Data() else 0)
  {
  }

  lemma MergeUpTimes(c: seq<Block>, x: nat)
    ensures Times(c, x) == Times(Above(c), x) + (if MergesUp(c) && c[0].lo == x then 1 else 0)
  {
  }

  /** The blocks below a hole that starts at `lo`. */
  lemma MergeDown(a: seq<Block>, lo: nat)
    requires Tiles(a, 0, lo, false) && lo % 4 == 0
    ensures Tiles(Below(a), 0, HoleLo(a, lo), false) && !LastFree(Below(a), false)
    ensures HoleLo(a, lo) <= lo && HoleLo(a, lo) % 4 == 0
    ensures HoleLo(a, lo) == lo - (if MergesDown(a) then HDR + a[|a| - 1].Data() else 0)
    ensures FreeData(a) == FreeData(Below(a)) + (if MergesDown(a) then a[|a| - 1].Data() else 0)
  {
    if MergesDown(a) {
      var l := a[|a| - 1];
      assert a == a[..|a| - 1] + [l] + [];
      TilesAround(a[..|a| - 1], l, [], 0, lo, false);
      DataAround(a[..|a| - 1], l, []);
    }
  }

  lemma MergeDownTimes(a: seq<Block>, x: nat)
    ensures Times(a, x) == Times(Below(a), x) + (if MergesDown(a) && a[|a| - 1].lo == x then 1 else 0)
  {
    if MergesDown(a) {
      assert a == a[..|a| - 1] + [a[|a| - 1]] + [];
      TimesAround(a[..|a| - 1], a[|a| - 1], [], x);
    }
  }

  // ------------------------------------------------------ two blocks for one

  lemma TwoTiles(a: seq<Block>, t: Block, r: Block, c: seq<Block>, end: nat)
    requires Tiles(a, 0, t.lo, false) && t.lo + HDR + MINI <= t.hi == r.lo && t.lo % 4 == 0 && t.used
    requires r.lo + HDR + MINI <= r.hi && r.lo % 4 == 0 && !r.used && Tiles(c, r.hi, end, true)
    ensures Tiles(a + [t, r] + c, 0, end, false)
    ensures FreeData(a + [t, r] + c) == FreeData(a) + r.Data() + FreeData(c)
  {
    TilesAround(a, t, [], 0, t.hi, false);
    DataAround(a, t, []);
    assert a + [t] + [] == a + [t];
    TilesAround(a + [t], r, c, 0, end, false);
    DataAround(a + [t], r, c);
    assert a + [t] + [r] + c == a + [t, r] + c;
  }

  lemma TwoTimes(a: seq<Block>, t: Block, r: Block, c: seq<Block>, x: nat)
    ensures Times(a + [t, r] + c, x) == Times(a, x) + Here(t, x) + Here(r, x) + Times(c, x)
  {
    TimesAround(a, t, [], x);
    assert a + [t] + [] == a + [t];
    TimesAround(a + [t], r, c, x);
    assert a + [t] + [r] + c == a + [t, r] + c;
  }

  lemma OccursCons(f: seq<nat>, y: nat, x: nat)
    ensures Occurs([y] + f, x) == (if y == x then 1 else 0) + Occurs(f, x)
  {
    assert ([y] + f)[1..] == f;
  }

  // ----------------------------------------------------- allocation and growth

  /** The free list when a free block b gives way to t and a new hole r. */
  lemma CarvedLists(f: seq<nat>, a: seq<Block>, b: Block, c: seq<Block>, t: Block, r: Block)
    requires Lists(f, a + [b] + c) && !b.used && t.used && !r.used
    ensures Lists([r.lo] + Drop(f, b.lo), a + [t, r] + c)
  {
    TimesAround(a, b, c, b.lo);
    forall x: nat ensures Occurs([r.lo] + Drop(f, b.lo), x) == Times(a + [t, r] + c, x) {
      TimesAround(a, b, c, x);
      TwoTimes(a, t, r, c, x);
      DropIs(f, b.lo, x);
      OccursCons(Drop(f, b.lo), r.lo, x);
    }
  }

  lemma TakenLists(f: seq<nat>, a: seq<Block>, b: Block, c: seq<Block>)
    requires Lists(f, a + [b] + c) && !b.used
    ensures Lists(Drop(f, b.lo), a + [b.(used := true)] + c)
  {
    TimesAround(a, b, c, b.lo);
    forall x: nat ensures Occurs(Drop(f, b.lo), x) == Times(a + [b.(used := true)] + c, x) {
      TimesAround(a, b, c, x);
      TimesAround(a, b.(used := true), c, x);
      DropIs(f, b.lo, x);
    }
  }

  ghost predicate Allocatable(h: Heap, k: nat, n: nat) {
    k < |h.bs| && !h.bs[k].used && h.bs[k].Data() >= n >= MINI && n % 4 == 0
  }

  lemma TakeAtKeeps(h: Heap, k: nat, n: nat, P: nat)
    requires Inv(h, P) && Allocatable(h, k, n)
    ensures Inv(TakeAt(h, k, n, P), P)
  {
    var a, b, c := h.bs[..k], h.bs[k], h.bs[k + 1..];
    SplitAt(h.bs, k);
    TilesAround(a, b, c, 0, P - HDR, false);
    DataAround(a, b, c);
    if Splits(b, n) {
      var t, r := Block(b.lo, b.lo + HDR + n, true), Block(b.lo + HDR + n, b.hi, false);
      TwoTiles(a, t, r, c, P - HDR);
      CarvedLists(h.free, a, b, c, t, r);
    } else {
      TilesWeaken(c, b.hi, P - HDR);
      TilesAround(a, b.(used := true), c, 0, P - HDR, false);
      DataAround(a, b.(used := true), c);
      TakenLists(h.free, a, b, c);
    }
  }

  ghost predicate Growable(h: Heap, k: nat, n: nat) {
    k < |h.bs| && h.bs[k].used && Grows(h.bs, k, n) && n > h.bs[k].Data() && n % 4 == 0
  }

  lemma SplitTwo(bs: seq<Block>, k: nat)
    requires k + 1 < |bs|
    ensures bs == (bs[..k] + [bs[k]]) + [bs[k + 1]] + bs[k + 2..]
  {
  }

  lemma GrowAtKeeps(h: Heap, k: nat, n: nat, P: nat)
    requires Inv(h, P) && Growable(h, k, n)
    ensures Inv(GrowAt(h, k, n, P), P)
  {
    var a, b, x, c := h.bs[..k], h.bs[k], h.bs[k + 1], h.bs[k + 2..];
    var t, r := Block(b.lo, b.lo + HDR + n, true), Block(b.lo + HDR + n, x.hi, false);
    SplitTwo(h.bs, k);
    TilesAround(a + [b], x, c, 0, P - HDR, false);
    DataAround(a + [b], x, c);
    assert a + [b] + [] == a + [b];
    TilesAround(a, b, [], 0, x.lo, false);
    DataAround(a, b, []);
    TwoTiles(a, t, r, c, P - HDR);
    GrownLists(h.free, a, b, x, c, t, r);
  }

  lemma GrownLists(f: seq<nat>, a: seq<Block>, b: Block, x: Block, c: seq<Block>, t: Block, r: Block)
    requires Lists(f, (a + [b]) + [x] + c) && b.used && !x.used && t.used && !r.used
    ensures Lists([r.lo] + Drop(f, x.lo), a + [t, r] + c)
  {
    forall y: nat ensures Times((a + [b]) + [x] + c, y) == Times(a + [x] + c, y) {
      TimesAround(a + [b], x, c, y);
      TimesAround(a, b, [], y);
      assert a + [b] + [] == a + [b];
      TimesAround(a, x, c, y);
    }
    CarvedLists(f, a, x, c, t, r);
  }

  // -------------------------------------------------------- release and shrink

  lemma DroppedUp(f: seq<nat>, c: seq<Block>, x: nat)
    requires MergesUp(c) ==> Occurs(f, c[0].lo) > 0
    ensures Occurs(UpDropped(f, c), x) == Occurs(f, x) - (if MergesUp(c) && c[0].lo == x then 1 else 0)
  {
    if MergesUp(c) { DropIs(f, c[0].lo, x); }
  }

  lemma UpListed(f: seq<nat>, a: seq<Block>, b: Block, c: seq<Block>)
    requires Lists(f, a + [b] + c)
    ensures MergesUp(c) ==> Occurs(f, c[0].lo) > 0
  {
    if MergesUp(c) { TimesAround(a, b, c, c[0].lo); }
  }

  lemma FreedLists(f: seq<nat>, a: seq<Block>, b: Block, c: seq<Block>, r: Block)
    requires Lists(f, a + [b] + c) && b.used && !r.used && r.lo == HoleLo(a, b.lo)
    ensures Lists((if MergesDown(a) then [] else [b.lo]) + UpDropped(f, c), Below(a) + [r] + Above(c))
  {
    UpListed(f, a, b, c);
    var u := UpDropped(f, c);
    var g := (if MergesDown(a) then [] else [b.lo]) + u;
    forall x: nat ensures Occurs(g, x) == Times(Below(a) + [r] + Above(c), x) {
      TimesAround(a, b, c, x);
      TimesAround(Below(a), r, Above(c), x);
      MergeUpTimes(c, x);
      MergeDownTimes(a, x);
      DroppedUp(f, c, x);
      OccursCons(u, b.lo, x);
      assert [] + u == u;
    }
  }

  lemma FreeAtKeeps(h: Heap, k: nat, P: nat)
    requires Inv(h, P) && k < |h.bs| && h.bs[k].used
    ensures Inv(FreeAt(h, k), P)
  {
    var a, b, c := h.bs[..k], h.bs[k], h.bs[k + 1..];
    SplitAt(h.bs, k);
    TilesAround(a, b, c, 0, P - HDR, false);
    DataAround(a, b, c);
    MergeUp(c, b.hi, P - HDR);
    MergeDown(a, b.lo);
    var r := Block(HoleLo(a, b.lo), HoleHi(c, b.hi), false);
    TilesAround(Below(a), r, Above(c), 0, P - HDR, false);
    DataAround(Below(a), r, Above(c));
    FreedLists(h.free, a, b, c, r);
  }

  ghost predicate Shrinkable(h: Heap, k: nat, n: nat) {
    k < |h.bs| && h.bs[k].used && n + HDR + MINI < h.bs[k].Data() && n >= MINI && n % 4 == 0
  }

  lemma ShrunkLists(f: seq<nat>, a: seq<Block>, b: Block, c: seq<Block>, t: Block, r: Block)
    requires Lists(f, a + [b] + c) && b.used && t.used && !r.used
    ensures Lists([r.lo] + UpDropped(f, c), a + [t, r] + Above(c))
  {
    UpListed(f, a, b, c);
    forall x: nat ensures Occurs([r.lo] + UpDropped(f, c), x) == Times(a + [t, r] + Above(c), x) {
      TimesAround(a, b, c, x);
      TwoTimes(a, t, r, Above(c), x);
      MergeUpTimes(c, x);
      DroppedUp(f, c, x);
      OccursCons(UpDropped(f, c), r.lo, x);
    }
  }

  lemma ShrinkAtKeeps(h: Heap, k: nat, n: nat, P: nat)
    requires Inv(h, P) && Shrinkable(h, k, n)
    ensures Inv(ShrinkAt(h, k, n), P)
  {
    var a, b, c := h.bs[..k], h.bs[k], h.bs[k + 1..];
    SplitAt(h.bs, k);
    TilesAround(a, b, c, 0, P - HDR, false);
    DataAround(a, b, c);
    MergeUp(c, b.hi, P - HDR);
    var t, r := Block(b.lo, b.lo + HDR + n, true), Block(b.lo + HDR + n, HoleHi(c, b.hi), false);
    TwoTiles(a, t, r, Above(c), P - HDR);
    ShrunkLists(h.free, a, b, c, t, r);
  }

  // ------------------------------------------------------------ the operations

  lemma {:induction false} FirstFitIs(f: seq<nat>, bs: seq<Block>, n: nat)
    ensures var k := FirstFit(f, bs, n);
            && (k < |f| ==> DataAt(bs, f[k]) >= n)
            && (k < |f| <==> exists x :: x in f && DataAt(bs, x) >= n)
  {
    if f != [] && DataAt(bs, f[0]) < n {
      FirstFitIs(f[1..], bs, n);
      assert f == [f[0]] + f[1..];
    }
  }

  /** The block that a successful rt_memheap_alloc takes. */
  ghost function Chosen(h: Heap, size: nat, P: nat): (k: nat)
    requires Inv(h, P) && FirstFit(h.free, h.bs, Rounded(size)) < |h.free|
    ensures k < |h.bs| && h.bs[k].lo == h.free[FirstFit(h.free, h.bs, Rounded(size))]
  {
    FreeEntry(h, h.free[FirstFit(h.free, h.bs, Rounded(size))], P);
    Index(h.bs, h.free[FirstFit(h.free, h.bs, Rounded(size))])
  }

  lemma ChosenFits(h: Heap, size: nat, P: nat)
    requires Inv(h, P) && FirstFit(h.free, h.bs, Rounded(size)) < |h.free|
    ensures Allocatable(h, Chosen(h, size, P), Rounded(size))
  {
    var i := FirstFit(h.free, h.bs, Rounded(size));
    FirstFitIs(h.free, h.bs, Rounded(size));
    FreeEntry(h, h.free[i], P);
  }

  lemma AllocIs(h: Heap, size: nat, P: nat)
    requires Inv(h, P)
    ensures var i := FirstFit(h.free, h.bs, Rounded(size));
            if Rounded(size) < h.avail && i < |h.free|
            then Alloc(h, size, P).0 == TakeAt(h, Chosen(h, size, P), Rounded(size), P) &&
              Alloc(h, size, P).1 == Some(h.free[i] + HDR)
            else Alloc(h, size, P).0 == h && Alloc(h, size, P).1 == None
  {
    if FirstFit(h.free, h.bs, Rounded(size)) < |h.free| { ChosenFits(h, size, P); }
  }

  lemma AllocKeeps(h: Heap, size: nat, P: nat)
    requires Inv(h, P)
    ensures Inv(Alloc(h, size, P).0, P)
  {
    AllocIs(h, size, P);
    if FirstFit(h.free, h.bs, Rounded(size)) < |h.free| {
      ChosenFits(h, size, P);
      TakeAtKeeps(h, Chosen(h, size, P), Rounded(size), P);
    }
  }

  lemma FreeAtParts(h: Heap, k: nat)
    requires k < |h.bs|
    ensures var a, b, c, g := h.bs[..k], h.bs[k], h.bs[k + 1..], FreeAt(h, k);
            && g.bs == Below(a) + [Block(HoleLo(a, b.lo), HoleHi(c, b.hi), false)] + Above(c)
            && g.free == (if MergesDown(a) then [] else [b.lo]) + UpDropped(h.free, c)
            && g.avail == h.avail + b.Data() + (if MergesDown(a) then HDR else 0) + (if MergesUp(c) then HDR else 0)
            && g.maxUsed == h.maxUsed
  {
  }

  lemma ShrinkAtParts(h: Heap, k: nat, n: nat, at: nat)
    requires k < |h.bs| && at == h.bs[k].lo + HDR + n
    ensures var c, b, g := h.bs[k + 1..], h.bs[k], ShrinkAt(h, k, n);
            && g.bs == h.bs[..k] + [Block(b.lo, at, true), Block(at, HoleHi(c, b.hi), false)] + Above(c)
            && g.free == [at] + UpDropped(h.free, c) && g.maxUsed == h.maxUsed
            && g.avail == h.avail - (if MergesUp(c) then c[0].Data() else 0) + (HoleHi(c, b.hi) - at - HDR)
  {
  }

  lemma FreeIs(h: Heap, p: int)
    requires Index(h.bs, p - HDR) < |h.bs|
    ensures Free(h, Some(p)) == FreeAt(h, Index(h.bs, p - HDR))
  {
  }

  lemma FreeKeeps(h: Heap, p: Option<int>, P: nat)
    requires Inv(h, P) && (p.Some? ==> Live(h.bs, p.value))
    ensures Inv(Free(h, p), P)
  {
    if p.Some? {
      LiveIndex(h.bs, p.value, P - HDR);
      FreeIs(h, p.value);
      FreeAtKeeps(h, Index(h.bs, p.value - HDR), P);
    }
  }

  /** A used block stays where it is when another is taken into use. */
  lemma TakeKeepsUsed(h: Heap, k: nat, n: nat, P: nat, b: Block)
    requires k < |h.bs| && !h.bs[k].used && b in h.bs && b.used
    ensures b in TakeAt(h, k, n, P).bs
  {
    SplitAt(h.bs, k);
    assert b in h.bs[..k] || b in h.bs[k + 1..];
  }

  lemma LiveAfterAlloc(h: Heap, size: nat, P: nat)
    requires Inv(h, P)
    ensures forall b :: b in h.bs && b.used ==> b in Alloc(h, size, P).0.bs
  {
    AllocIs(h, size, P);
    if Rounded(size) < h.avail && FirstFit(h.free, h.bs, Rounded(size)) < |h.free| {
      ChosenFits(h, size, P);
      forall b | b in h.bs && b.used ensures b in Alloc(h, size, P).0.bs {
        TakeKeepsUsed(h, Chosen(h, size, P), Rounded(size), P, b);
      }
    }
  }

  lemma MoveKeeps(h: Heap, p: int, n: nat, P: nat)
    requires Inv(h, P) && Live(h.bs, p)
    ensures Inv(Move(h, p, n, P).0, P)
  {
    AllocKeeps(h, n, P);
    LiveAfterAlloc(h, n, P);
    var b :| b in h.bs && b.used && b.lo + HDR == p;
    assert b in Alloc(h, n, P).0.bs;
    FreeKeeps(Alloc(h, n, P).0, Some(p), P);
  }

  lemma RoundedIs(size: nat)
    requires size + 3 < WORD
    ensures size <= Rounded(size) <= size + 3 + MINI && Rounded(size) % 4 == 0 && Rounded(size) >= MINI
  {
  }

  lemma RoundedTwice(size: nat)
    ensures Rounded(Rounded(size)) == Rounded(size)
  {
  }

  lemma RoundedAny(size: nat)
    ensures Rounded(size) % 4 == 0 && MINI <= Rounded(size) < WORD
  {
  }

  lemma ReallocAtKeeps(h: Heap, k: nat, n: nat, P: nat)
    requires Inv(h, P) && k < |h.bs| && h.bs[k].used && n % 4 == 0 && n >= MINI
    ensures Inv(ReallocAt(h, k, n, P).0, P)
  {
    if n > h.bs[k].Data() {
      if Grows(h.bs, k, n) {
        GrowAtKeeps(h, k, n, P);
      } else {
        assert h.bs[k] in h.bs;
        MoveKeeps(h, h.bs[k].lo + HDR, n, P);
      }
    } else if n + HDR + MINI < h.bs[k].Data() {
      ShrinkAtKeeps(h, k, n, P);
    }
  }

  lemma ReallocIs(h: Heap, p: int, size: nat, P: nat)
    requires size != 0 && Index(h.bs, p - HDR) < |h.bs|
    ensures Realloc(h, Some(p), size, P) == ReallocAt(h, Index(h.bs, p - HDR), Rounded(size), P)
  {
  }

  lemma ReallocKeeps(h: Heap, p: Option<int>, size: nat, P: nat)
    requires Inv(h, P) && (p.Some? ==> Live(h.bs, p.value))
    ensures Inv(Realloc(h, p, size, P).0, P)
  {
    if size == 0 {
      FreeKeeps(h, p, P);
    } else if p.None? {
      AllocKeeps(h, Rounded(size), P);
    } else {
      LiveIndex(h.bs, p.value, P - HDR);
      RoundedAny(size);
      ReallocAtKeeps(h, Index(h.bs, p.value - HDR), Rounded(size), P);
    }
  }

  /** The other blocks lie below or above block k. */
  lemma BlockApart(bs: seq<Block>, k: nat, end: nat)
    requires Tiles(bs, 0, end, false) && k < |bs|
    ensures bs[k].hi <= end
    ensures forall x :: x in bs && x != bs[k] ==> x.hi <= bs[k].lo || bs[k].hi <= x.lo
  {
    SplitAt(bs, k);
    var a, b, c := bs[..k], bs[k], bs[k + 1..];
    TilesAround(a, b, c, 0, end, false);
    TilesBounds(a, 0, b.lo, false);
    TilesBounds(c, b.hi, end, !b.used);
  }

  /** The block a successful allocation hands out. */
  lemma FreshBlock(h: Heap, size: nat, P: nat) returns (t: Block)
    requires Inv(h, P) && Alloc(h, size, P).1.Some?
    ensures t in Alloc(h, size, P).0.bs && t.used && t.lo + HDR == Alloc(h, size, P).1.value
    ensures t.Data() >= Rounded(size)
    ensures forall b :: b in h.bs && b.used ==> b.hi <= t.lo || t.hi <= b.lo
  {
    var k, n := Chosen(h, size, P), Rounded(size);
    AllocIs(h, size, P);
    ChosenFits(h, size, P);
    BlockApart(h.bs, k, P - HDR);
    var b := h.bs[k];
    t := if Splits(b, n) then Block(b.lo, b.lo + HDR + n, true) else b.(used := true);
    assert t in TakeAt(h, k, n, P).bs;
  }

  /** The used blocks other than the one freed stay. */
  lemma FreeKeepsOthers(h: Heap, k: nat, b: Block)
    requires k < |h.bs| && b in h.bs && b.used && b != h.bs[k]
    ensures b in FreeAt(h, k).bs
  {
    SplitAt(h.bs, k);
    var a, c := h.bs[..k], h.bs[k + 1..];
    assert b in a || b in c;
    if b in a && MergesDown(a) { assert a == a[..|a| - 1] + [a[|a| - 1]]; }
    if b in c && MergesUp(c) { assert c == [c[0]] + c[1..]; }
    assert b in Below(a) || b in Above(c);
  }

  lemma FreeKeepsLive(h: Heap, p: int, P: nat)
    requires Inv(h, P) && Live(h.bs, p)
    ensures forall b :: b in h.bs && b.used && b.lo + HDR != p ==> b in Free(h, Some(p)).bs
  {
    LiveIndex(h.bs, p, P - HDR);
    var k := Index(h.bs, p - HDR);
    FreeIs(h, p);
    forall b | b in h.bs && b.used && b.lo + HDR != p ensures b in Free(h, Some(p)).bs {
      FreeKeepsOthers(h, k, b);
    }
  }

  lemma InitialInv(P: nat)
    requires P >= 2 * HDR + MINI && P % 4 == 0
    ensures Inv(Initial(P), P)
  {
    var h := Initial(P);
    forall x: nat ensures Occurs(h.free, x) == Times(h.bs, x) {}
  }
}
