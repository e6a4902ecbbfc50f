/** What the operations of the memory heap do to the blocks in use. By the tiling
    these decide all the others. */
module MemHeapBlocks {
  import opened Options
  import opened Words
  import opened MemHeapSpec
  import opened MemHeapProofs
  import opened MemHeapTheorems

  ghost function Used(bs: seq<Block>): set<Block> {
    set b | b in bs && b.used
  }

  ghost predicate Apart(x: Block, y: Block) {
    x.hi <= y.lo || y.hi <= x.lo
  }

  // ------------------------------------------------- used blocks of a stretch

  lemma UsedParts(a: seq<Block>, m: seq<Block>, c: seq<Block>)
    ensures Used(a + m + c) == Used(a) + Used(m) + Used(c)
  {
  }

  lemma TwoUsed(a: seq<Block>, t: Block, r: Block, c: seq<Block>)
    requires t.used && !r.used
    ensures Used(a + [t, r] + c) == Used(a) + {t} + Used(c)
  {
    UsedParts(a, [t, r], c);
    assert Used([t, r]) == {t};
  }

  lemma UsedAround(bs: seq<Block>, k: nat, end: nat)
    requires Tiles(bs, 0, end, false) && k < |bs|
    ensures Used(bs) - {bs[k]} == Used(bs[..k]) + Used(bs[k + 1..])
    ensures forall x :: x in Used(bs) && x != bs[k] ==> Apart(x, bs[k])
  {
    var a, b, c := bs[..k], bs[k], bs[k + 1..];
    SplitAt(bs, k);
    UsedParts(a, [b], c);
    TilesAround(a, b, c, 0, end, false);
    TilesBounds(a, 0, b.lo, false);
    TilesBounds(c, b.hi, end, !b.used);
    assert b !in a && b !in c;
  }

  lemma UsedBeside(a: seq<Block>, c: seq<Block>)
    ensures Used(Below(a)) == Used(a) && Used(Above(c)) == Used(c)
  {
    if MergesDown(a) { assert a == a[..|a| - 1] + [a[|a| - 1]]; }
    if MergesUp(c) { assert c == [c[0]] + c[1..]; }
  }

  /** Two tilings of the same stretch with the same blocks in use are the same. */
  lemma {:induction false} UsedDecides(a: seq<Block>, b: seq<Block>, lo: nat, hi: nat, pf: bool)
    requires Tiles(a, lo, hi, pf) && Tiles(b, lo, hi, pf) && Used(a) == Used(b)
    ensures a == b
    decreases |a| + |b|
  {
    TilesBounds(a, lo, hi, pf);
    TilesBounds(b, lo, hi, pf);
    if a != [] && b != [] {
      assert a == [a[0]] + a[1..] && b == [b[0]] + b[1..];
      TilesBounds(a[1..], a[0].hi, hi, !a[0].used);
      TilesBounds(b[1..], b[0].hi, hi, !b[0].used);
      SameHead(a, b, lo, hi, pf);
      SameHead(b, a, lo, hi, pf);
      assert a[0] == b[0];
      assert Used(a[1..]) == Used(a) - {a[0]} && Used(b[1..]) == Used(b) - {b[0]};
      UsedDecides(a[1..], b[1..], a[0].hi, hi, !a[0].used);
    }
  }

  lemma SameHead(a: seq<Block>, b: seq<Block>, lo: nat, hi: nat, pf: bool)
    requires Tiles(a, lo, hi, pf) && Tiles(b, lo, hi, pf) && Used(a) == Used(b) && a != [] && b != []
    ensures a[0].used ==> b[0] == a[0]
    ensures !a[0].used && !b[0].used ==> a[0].hi <= b[0].hi
  {
    TilesBounds(b, lo, hi, pf);
    TilesBounds(a, lo, hi, pf);
    TilesBounds(b[1..], b[0].hi, hi, !b[0].used);
    TilesBounds(a[1..], a[0].hi, hi, !a[0].used);
    assert a == [a[0]] + a[1..] && b == [b[0]] + b[1..];
    if a[0].used {
      assert a[0] in Used(b);
    } else if !b[0].used && b[1..] != [] {
      assert b[1] in Used(b) && b[1] in Used(a);
    }
  }

  // ------------------------------------------------------- one step at a time

  /** The block that k becomes when n bytes of it are used. */
  function TakenBlock(b: Block, n: nat): Block {
    if Splits(b, n) then Block(b.lo, b.lo + HDR + n, true) else b.(used := true)
  }

  lemma TakeUses(h: Heap, k: nat, n: nat, P: nat)
    requires Inv(h, P) && Allocatable(h, k, n)
    ensures var t := TakenBlock(h.bs[k], n);
            Used(TakeAt(h, k, n, P).bs) == Used(h.bs) + {t} && forall x :: x in Used(h.bs) ==> Apart(x, t)
  {
    UsedAround(h.bs, k, P - HDR);
    TakenParts(h, k, n, P);
    assert Used(h.bs) - {h.bs[k]} == Used(h.bs);
  }

  lemma TakenParts(h: Heap, k: nat, n: nat, P: nat)
    requires k < |h.bs|
    ensures Used(TakeAt(h, k, n, P).bs) == Used(h.bs[..k]) + Used(h.bs[k + 1..]) + {TakenBlock(h.bs[k], n)}
  {
    var a, b, c := h.bs[..k], h.bs[k], h.bs[k + 1..];
    var t, r := TakenBlock(b, n), Block(b.lo + HDR + n, b.hi, false);
    if Splits(b, n) {
      TwoUsed(a, t, r, c);
    } else {
      UsedParts(a, [t], c);
      assert Used([t]) == {t};
    }
  }

  lemma FreeUnuses(h: Heap, k: nat, P: nat)
    requires Inv(h, P) && k < |h.bs| && h.bs[k].used
    ensures Used(FreeAt(h, k).bs) == Used(h.bs) - {h.bs[k]}
  {
    UsedAround(h.bs, k, P - HDR);
    var a, b, c := h.bs[..k], h.bs[k], h.bs[k + 1..];
    UsedBeside(a, c);
    UsedParts(Below(a), [Block(HoleLo(a, b.lo), HoleHi(c, b.hi), false)], Above(c));
  }

  lemma GrowUses(h: Heap, k: nat, n: nat, P: nat)
    requires Inv(h, P) && Growable(h, k, n)
    ensures var b := h.bs[k];
            Used(GrowAt(h, k, n, P).bs) == Used(h.bs) - {b} + {Block(b.lo, b.lo + HDR + n, true)}
  {
    UsedAround(h.bs, k, P - HDR);
    GrownParts(h, k, n, P);
    HoleUnused(h.bs, k + 1);
  }

  lemma GrownParts(h: Heap, k: nat, n: nat, P: nat)
    requires k + 1 < |h.bs|
    ensures var b := h.bs[k];
            Used(GrowAt(h, k, n, P).bs) == Used(h.bs[..k]) + Used(h.bs[k + 2..]) + {Block(b.lo, b.lo + HDR + n, true)}
  {
    var b := h.bs[k];
    var t, r := Block(b.lo, b.lo + HDR + n, true), Block(b.lo + HDR + n, h.bs[k + 1].hi, false);
    TwoUsed(h.bs[..k], t, r, h.bs[k + 2..]);
    assert h.bs[..k] + [t, r] + h.bs[k + 2..] == GrowAt(h, k, n, P).bs;
  }

  lemma HoleUnused(bs: seq<Block>, k: nat)
    requires k < |bs| && !bs[k].used
    ensures Used(bs[k..]) == Used(bs[k + 1..])
  {
    assert bs[k..] == [bs[k]] + bs[k + 1..];
  }

  lemma ShrinkUses(h: Heap, k: nat, n: nat, P: nat)
    requires Inv(h, P) && Shrinkable(h, k, n)
    ensures var b := h.bs[k];
            Used(ShrinkAt(h, k, n).bs) == Used(h.bs) - {b} + {Block(b.lo, b.lo + HDR + n, true)}
  {
    UsedAround(h.bs, k, P - HDR);
    var a, b, c := h.bs[..k], h.bs[k], h.bs[k + 1..];
    UsedBeside(a, c);
    var t, r := Block(b.lo, b.lo + HDR + n, true), Block(b.lo + HDR + n, HoleHi(c, b.hi), false);
    TwoUsed(a, t, r, Above(c));
    assert a + [t, r] + Above(c) == ShrinkAt(h, k, n).bs;
  }

  // ------------------------------------------------------------- whole calls

  /** b has made room for t, which holds n bytes and not a block more; the other blocks
      in use are what they were, and apart from t. */
  ghost predicate Resized(bs: seq<Block>, gs: seq<Block>, b: Block, t: Block, n: nat) {
    && b in Used(bs) && t in Used(gs) && Used(gs) == Used(bs) - {b} + {t}
    && n <= t.Data() <= n + HDR + MINI && t.lo % 4 == 0
    && forall x :: x in Used(bs) && x != b ==> Apart(x, t)
  }

  /** A block t has come into use for a request of n bytes, and nothing else has changed. */
  ghost predicate PutToUse(bs: seq<Block>, gs: seq<Block>, t: Block, n: nat) {
    && t in Used(gs) && Used(gs) == Used(bs) + {t}
    && n <= t.Data() < n + HDR + MINI && t.lo % 4 == 0
    && forall x :: x in Used(bs) ==> Apart(x, t)
  }

  /** A free block follows b, and the two together have more than the minimum to spare. */
  ghost predicate RoomBehind(bs: seq<Block>, b: Block, n: nat) {
    exists x :: x in bs && !x.used && x.lo == b.hi && x.Data() + b.Data() > n + MINI
  }

  lemma RoomIs(bs: seq<Block>, k: nat, n: nat, end: nat)
    requires Tiles(bs, 0, end, false) && k < |bs|
    ensures Grows(bs, k, n) <==> RoomBehind(bs, bs[k], n)
  {
    SplitAt(bs, k);
    var a, b, c := bs[..k], bs[k], bs[k + 1..];
    TilesAround(a, b, c, 0, end, false);
    TilesBounds(a, 0, b.lo, false);
    if c != [] {
      assert c == [c[0]] + c[1..] && bs[k + 1] == c[0] && bs[k + 1] in bs;
      TilesBounds(c[1..], c[0].hi, end, !c[0].used);
      assert forall x :: x in bs && x.lo == b.hi ==> x == c[0];
    }
  }

  lemma NoneHolds(bs: seq<Block>, n: nat)
    ensures (forall x :: x in bs ==> !Holds(x, n)) <==> (forall x :: x in bs && !x.used ==> x.Data() < n)
  {
    forall x | x in bs ensures Holds(x, n) <==> !x.used && x.Data() >= n {}
  }

  /** rt_memheap_alloc takes the first block on the free list that is large enough; what
      a split leaves goes to the front. */
  lemma AllocTakesFirst(h: Heap, size: nat, P: nat)
    requires Inv(h, P) && Alloc(h, size, P).1.Some?
    ensures var (g, q) := Alloc(h, size, P);
            exists i :: TakesEntry(h, g, i, Rounded(size)) && h.free[i] + HDR == q.value
  {
    var n := Rounded(size);
    var i := FirstFit(h.free, h.bs, n);
    AllocIs(h, size, P);
    FirstFitIs(h.free, h.bs, n);
    FirstFitBefore(h.free, h.bs, n);
    var k := Chosen(h, size, P);
    IndexAt(h.bs, k, 0, P - HDR, false);
    TakenList(h, k, n, i, P);
    assert TakesEntry(h, Alloc(h, size, P).0, i, n);
  }

  /** Entry i of the free list is the first that holds n bytes, and it is gone. */
  ghost predicate TakesEntry(h: Heap, g: Heap, i: int, n: nat) {
    && 0 <= i < |h.free| && DataAt(h.bs, h.free[i]) >= n
    && (forall j :: 0 <= j < i ==> DataAt(h.bs, h.free[j]) < n)
    && g.free == (if DataAt(h.bs, h.free[i]) >= n + HDR + MINI then [h.free[i] + HDR + n] else [])
                 + (h.free[..i] + h.free[i + 1..])
  }

  lemma TakenList(h: Heap, k: nat, n: nat, i: nat, P: nat)
    requires k < |h.bs| && i < |h.free| && h.free[i] == h.bs[k].lo &&
             (forall j :: 0 <= j < i ==> h.free[j] != h.free[i])
    ensures TakeAt(h, k, n, P).free ==
            (if Splits(h.bs[k], n) then [h.free[i] + HDR + n] else []) + (h.free[..i] + h.free[i + 1..])
  {
    DropAt(h.free, i);
    assert [] + (h.free[..i] + h.free[i + 1..]) == h.free[..i] + h.free[i + 1..];
  }

  lemma {:induction false} FirstFitBefore(f: seq<nat>, bs: seq<Block>, n: nat)
    ensures forall j :: 0 <= j < FirstFit(f, bs, n) ==> DataAt(bs, f[j]) < n
  {
    if f != [] && DataAt(bs, f[0]) < n {
      FirstFitBefore(f[1..], bs, n);
      assert forall j :: 0 < j < |f| ==> f[j] == f[1..][j - 1];
    }
  }

  lemma {:induction false} DropAt(f: seq<nat>, i: nat)
    requires i < |f| && forall j :: 0 <= j < i ==> f[j] != f[i]
    ensures Drop(f, f[i]) == f[..i] + f[i + 1..]
  {
    if i > 0 {
      assert f[1..][i - 1] == f[i];
      DropAt(f[1..], i - 1);
      assert f[..i] == [f[0]] + f[1..][..i - 1] && f[1..][i..] == f[i + 1..];
    }
  }

  /** What rt_memheap_alloc hands out, and the high-water mark. */
  lemma AllocServes(h: Heap, size: nat, P: nat)
    requires Inv(h, P) && Alloc(h, size, P).1.Some?
    ensures var (g, q) := Alloc(h, size, P);
            && Inv(g, P) && (exists t :: PutToUse(h.bs, g.bs, t, Rounded(size)) && t.lo + HDR == q.value)
            && g.maxUsed == Max(h.maxUsed, P - g.avail)
  {
    var n := Rounded(size);
    AllocKeeps(h, size, P);
    AllocIs(h, size, P);
    ChosenFits(h, size, P);
    var k := Chosen(h, size, P);
    TakeUses(h, k, n, P);
    assert h.bs[k] in h.bs;
    TilesBounds(h.bs, 0, P - HDR, false);
    TakenServes(h.bs, TakeAt(h, k, n, P).bs, h.bs[k], n, P - HDR);
  }

  lemma TakenServes(bs: seq<Block>, gs: seq<Block>, b: Block, n: nat, end: nat)
    requires Tiles(bs, 0, end, false) && b in bs && b.Data() >= n && b.lo % 4 == 0
    requires var t := TakenBlock(b, n); Used(gs) == Used(bs) + {t} && forall x :: x in Used(bs) ==> Apart(x, t)
    ensures PutToUse(bs, gs, TakenBlock(b, n), n)
  {
  }

  /** rt_memheap_free takes the block at p out of use, and no other. */
  lemma FreeReleases(h: Heap, p: int, P: nat)
    requires Inv(h, P) && Live(h.bs, p)
    ensures var g := Free(h, Some(p));
            Inv(g, P) && exists b :: Released(h, g, b) && b.lo + HDR == p
  {
    var k := Index(h.bs, p - HDR);
    LiveIndex(h.bs, p, P - HDR);
    FreeIs(h, p);
    FreeKeeps(h, Some(p), P);
    FreeAtReleases(h, k, P);
  }

  /** b is out of use; without a free block below it, it heads the free list. */
  ghost predicate Released(h: Heap, g: Heap, b: Block) {
    && b in Used(h.bs) && Used(g.bs) == Used(h.bs) - {b} && g.maxUsed == h.maxUsed
    && ((forall x :: x in h.bs && !x.used ==> x.hi != b.lo) ==> g.free != [] && g.free[0] == b.lo)
  }

  lemma FreeAtReleases(h: Heap, k: nat, P: nat)
    requires Inv(h, P) && k < |h.bs| && h.bs[k].used
    ensures Released(h, FreeAt(h, k), h.bs[k])
  {
    FreeUnuses(h, k, P);
    var a, b := h.bs[..k], h.bs[k];
    assert b in h.bs;
    if MergesDown(a) {
      SplitAt(h.bs, k);
      TilesAround(a, b, h.bs[k + 1..], 0, P - HDR, false);
      BelowTouches(a, b.lo);
      assert a[|a| - 1] in h.bs;
    }
  }

  lemma BelowTouches(a: seq<Block>, lo: nat)
    requires a != [] && Tiles(a, 0, lo, false)
    ensures a[|a| - 1].hi == lo
  {
    TilesTop(a, 0, false);
  }

  /** Where rt_memheap_realloc leaves the block, whichever path it takes. */
  lemma ReallocServes(h: Heap, p: int, newsize: nat, P: nat)
    requires Inv(h, P) && Live(h.bs, p) && 0 < newsize && newsize + 3 < WORD
    ensures var (g, q) := Realloc(h, Some(p), newsize, P);
            && newsize <= Rounded(newsize)
            && (q == None ==> g == h)
            && (q.Some? ==> exists b, t :: Resized(h.bs, g.bs, b, t, Rounded(newsize))
                                           && b.lo + HDR == p && t.lo + HDR == q.value && (p == q.value || Apart(b, t)))
  {
    LiveIndex(h.bs, p, P - HDR);
    ReallocIs(h, p, newsize, P);
    RoundedIs(newsize);
    RoundedTwice(newsize);
    ReallocAtServes(h, Index(h.bs, p - HDR), Rounded(newsize), P);
  }

  lemma ReallocAtServes(h: Heap, k: nat, n: nat, P: nat)
    requires Inv(h, P) && k < |h.bs| && h.bs[k].used && n == Rounded(n) && n % 4 == 0 && n >= MINI
    ensures var b := h.bs[k];
            var (g, q) := ReallocAt(h, k, n, P);
            && (q == None ==> g == h)
            && (q.Some? ==> exists t :: Resized(h.bs, g.bs, b, t, n) && t.lo + HDR == q.value
                                        && (t.lo == b.lo || Apart(b, t)))
  {
    var b := h.bs[k];
    var t := Block(b.lo, b.lo + HDR + n, true);
    if n > b.Data() {
      if Grows(h.bs, k, n) {
        GrowResizes(h, k, n, P);
        assert Resized(h.bs, ReallocAt(h, k, n, P).0.bs, b, t, n);
      } else {
        MoveResizes(h, k, n, P);
      }
    } else if n + HDR + MINI < b.Data() {
      ShrinkResizes(h, k, n, P);
      assert Resized(h.bs, ReallocAt(h, k, n, P).0.bs, b, t, n);
    } else {
      StaysResized(h, k, n, P);
      assert Resized(h.bs, ReallocAt(h, k, n, P).0.bs, b, b, n);
    }
  }

  lemma StaysResized(h: Heap, k: nat, n: nat, P: nat)
    requires Inv(h, P) && k < |h.bs| && h.bs[k].used && n <= h.bs[k].Data() <= n + HDR + MINI
    ensures Resized(h.bs, h.bs, h.bs[k], h.bs[k], n)
  {
    assert h.bs[k] in h.bs;
    TilesBounds(h.bs, 0, P - HDR, false);
    UsedAround(h.bs, k, P - HDR);
    assert Used(h.bs) - {h.bs[k]} + {h.bs[k]} == Used(h.bs);
  }

  lemma GrowResizes(h: Heap, k: nat, n: nat, P: nat)
    requires Inv(h, P) && Growable(h, k, n)
    ensures var b := h.bs[k];
            Resized(h.bs, GrowAt(h, k, n, P).bs, b, Block(b.lo, b.lo + HDR + n, true), n)
  {
    GrowUses(h, k, n, P);
    GrowClear(h.bs, k, n, P - HDR);
  }

  lemma GrowClear(bs: seq<Block>, k: nat, n: nat, end: nat)
    requires Tiles(bs, 0, end, false) && k < |bs| && bs[k].used && Grows(bs, k, n)
    ensures bs[k] in Used(bs) && bs[k].lo % 4 == 0
    ensures forall x :: x in Used(bs) && x != bs[k] ==> Apart(x, Block(bs[k].lo, bs[k].lo + HDR + n, true))
  {
    var b, y := bs[k], bs[k + 1];
    assert b in bs && y in bs;
    TilesBounds(bs, 0, end, false);
    UsedAround(bs, k, end);
    NextTouches(bs, k, end);
    forall x | x in Used(bs) && x != b ensures Apart(x, Block(b.lo, b.lo + HDR + n, true)) {
      BlockApart(bs, k + 1, end);
      assert x.lo < x.hi;
    }
  }

  lemma NextTouches(bs: seq<Block>, k: nat, end: nat)
    requires Tiles(bs, 0, end, false) && k + 1 < |bs|
    ensures bs[k + 1].lo == bs[k].hi
  {
    SplitAt(bs, k);
    TilesAround(bs[..k], bs[k], bs[k + 1..], 0, end, false);
  }

  lemma ShrinkResizes(h: Heap, k: nat, n: nat, P: nat)
    requires Inv(h, P) && Shrinkable(h, k, n)
    ensures var b := h.bs[k];
            Resized(h.bs, ShrinkAt(h, k, n).bs, b, Block(b.lo, b.lo + HDR + n, true), n)
  {
    ShrinkUses(h, k, n, P);
    UsedAround(h.bs, k, P - HDR);
    assert h.bs[k] in h.bs;
    TilesBounds(h.bs, 0, P - HDR, false);
  }

  lemma MoveResizes(h: Heap, k: nat, n: nat, P: nat)
    requires Inv(h, P) && k < |h.bs| && h.bs[k].used && n == Rounded(n)
    ensures var b := h.bs[k];
            var (g, q) := Move(h, b.lo + HDR, n, P);
            && (q == None ==> g == h)
            && (q.Some? ==> exists t :: Resized(h.bs, g.bs, b, t, n) && t.lo + HDR == q.value && Apart(b, t))
  {
    AllocIs(h, n, P);
    if Alloc(h, n, P).1.Some? {
      AllocServes(h, n, P);
      var (g, q) := Alloc(h, n, P);
      var t :| PutToUse(h.bs, g.bs, t, n) && t.lo + HDR == q.value;
      MovedUses(h, g, h.bs[k], t, n, P);
    }
  }

  /** Block b is given back once t has come into use. */
  lemma MovedUses(h: Heap, g: Heap, b: Block, t: Block, n: nat, P: nat)
    requires Inv(h, P) && Inv(g, P) && b in h.bs && b.used && PutToUse(h.bs, g.bs, t, n)
    ensures Resized(h.bs, Free(g, Some(b.lo + HDR)).bs, b, t, n) && Apart(b, t)
  {
    assert b in Used(h.bs) && b in Used(g.bs);
    FreeReleases(g, b.lo + HDR, P);
    var fs := Free(g, Some(b.lo + HDR)).bs;
    var c :| c in Used(g.bs) && c.lo == b.lo && Used(fs) == Used(g.bs) - {c};
    SameStart(g, b, c, P);
    TilesBounds(h.bs, 0, P - HDR, false);
    MovedSets(h.bs, g.bs, fs, b, t, n);
  }

  lemma MovedSets(hs: seq<Block>, gs: seq<Block>, fs: seq<Block>, b: Block, t: Block, n: nat)
    requires b in Used(hs) && b.lo < b.hi && PutToUse(hs, gs, t, n) && Used(fs) == Used(gs) - {b}
    ensures Resized(hs, fs, b, t, n) && Apart(b, t)
  {
    assert Used(hs) + {t} - {b} == Used(hs) - {b} + {t};
  }

  lemma SameStart(g: Heap, b: Block, c: Block, P: nat)
    requires Inv(g, P) && b in g.bs && c in g.bs && b.lo == c.lo
    ensures b == c
  {
    var i :| 0 <= i < |g.bs| && g.bs[i] == b;
    BlockApart(g.bs, i, P - HDR);
    TilesBounds(g.bs, 0, P - HDR, false);
  }

  /** rt_memheap_realloc keeps the block where it is exactly when it is large enough or
      has room behind it, and fails exactly when it must move and finds no block. */
  lemma ReallocStaysIff(h: Heap, p: int, newsize: nat, P: nat, b: Block)
    requires Inv(h, P) && 0 < newsize && newsize + 3 < WORD && b in Used(h.bs) && b.lo + HDR == p
    ensures StaysIff(h, Realloc(h, Some(p), newsize, P).1, b, Rounded(newsize))
  {
    var k := Index(h.bs, p - HDR);
    LiveIndex(h.bs, p, P - HDR);
    assert h.bs[k] in h.bs;
    SameStart(h, b, h.bs[k], P);
    ReallocIs(h, p, newsize, P);
    RoundedTwice(newsize);
    ReallocAtStaysIff(h, k, b, Rounded(newsize), P);
  }

  ghost predicate StaysIff(h: Heap, q: Option<int>, b: Block, n: nat) {
    (q == Some(b.lo + HDR) <==> Stays(h, b, n)) && (q == None <==> CannotMove(h, b, n))
  }

  ghost predicate Stays(h: Heap, b: Block, n: nat) {
    n <= b.Data() || RoomBehind(h.bs, b, n)
  }

  ghost predicate CannotMove(h: Heap, b: Block, n: nat) {
    !Stays(h, b, n) && ((forall x :: x in h.bs && !x.used ==> x.Data() < n) || h.avail == n)
  }

  lemma ReallocAtStaysIff(h: Heap, k: nat, b: Block, n: nat, P: nat)
    requires Inv(h, P) && k < |h.bs| && b == h.bs[k] && b.used && n == Rounded(n)
    ensures StaysIff(h, ReallocAt(h, k, n, P).1, b, n)
  {
    RoomIs(h.bs, k, n, P - HDR);
    if n > b.Data() && !Grows(h.bs, k, n) { MoveFailsIff(h, k, n, P); }
  }

  lemma MoveFailsIff(h: Heap, k: nat, n: nat, P: nat)
    requires Inv(h, P) && k < |h.bs| && h.bs[k].used && n == Rounded(n)
    ensures var q := Move(h, h.bs[k].lo + HDR, n, P).1;
            && q != Some(h.bs[k].lo + HDR)
            && (q == None <==> (forall x :: x in h.bs && !x.used ==> x.Data() < n) || h.avail == n)
  {
    AllocFailsIff(h, n, P);
    NoneHolds(h.bs, n);
    if Alloc(h, n, P).1.Some? {
      AllocServes(h, n, P);
      var t :| PutToUse(h.bs, Alloc(h, n, P).0.bs, t, n) && t.lo + HDR == Alloc(h, n, P).1.value;
      StartsApart(h.bs, h.bs[k], t, P - HDR);
    }
  }

  lemma StartsApart(bs: seq<Block>, b: Block, t: Block, end: nat)
    requires Tiles(bs, 0, end, false) && b in bs && b.used && t.Data() >= 0 && forall x :: x in Used(bs) ==> Apart(x, t)
    ensures b.lo != t.lo
  {
    TilesBounds(bs, 0, end, false);
    assert b in Used(bs);
  }
}
