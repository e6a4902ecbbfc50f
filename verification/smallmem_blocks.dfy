/** What the operations of the small-memory allocator do to the blocks in use. By the
    tiling these decide all the others. */
module SmallMemBlocks {
  import opened Options
  import opened Words
  import opened SmallMemSpec
  import opened SmallMemProofs

  ghost function Used(bs: seq<Block>): set<Block> {
    set b | b in bs && b.used
  }

  ghost predicate Apart(x: Block, y: Block) {
    x.hi <= y.lo || y.hi <= x.lo
  }

  // ------------------------------------------------- used blocks of a stretch

  lemma UsedParts(a: seq<Block>, m: seq<Block>, c: seq<Block>)
    ensures Used(a + m + c) == Used(a) + Used(m) + Used(c)
  {
  }

  lemma TwoUsed(a: seq<Block>, t: Block, r: Block, c: seq<Block>)
    requires t.used && !r.used
    ensures Used(a + [t, r] + c) == Used(a) + {t} + Used(c)
  {
    UsedParts(a, [t, r], c);
    assert Used([t, r]) == {t};
  }

  lemma UsedAround(bs: seq<Block>, k: nat, end: nat)
    requires Seg(bs, 0, end, false) && k < |bs|
    ensures Used(bs) - {bs[k]} == Used(bs[..k]) + Used(bs[k + 1..])
    ensures forall x :: x in Used(bs) && x != bs[k] ==> Apart(x, bs[k])
  {
    var a, b, c := bs[..k], bs[k], bs[k + 1..];
    SplitAt(bs, k);
    UsedParts(a, [b], c);
    SegAround(a, b, c, 0, end, false);
    SegBounds(a, 0, b.lo, false);
    SegBounds(c, b.hi, end, !b.used);
    assert b !in a && b !in c;
  }

  /** plug_holes takes no block out of use and puts none to use. */
  lemma PlugUses(a: seq<Block>, b: Block, c: seq<Block>)
    ensures Used(PlugHoles(a, b, c)) == Used(a) + Used(c)
  {
    var fwd := c != [] && !c[0].used;
    var hi := if fwd then c[0].hi else b.hi;
    var c' := if fwd then c[1..] else c;
    if fwd { assert c == [c[0]] + c'; }
    assert Used(c') == Used(c);
    if a != [] && !a[|a| - 1].used {
      var p := a[..|a| - 1];
      SplitLast(a);
      assert Used(p) == Used(a);
      UsedParts(p, [Block(a[|a| - 1].lo, hi, false)], c');
    } else {
      UsedParts(a, [Block(b.lo, hi, false)], c');
    }
  }

  /** Two chains over the same stretch with the same blocks in use are the same. */
  lemma {:induction false} UsedDecides(a: seq<Block>, b: seq<Block>, lo: nat, hi: nat, pf: bool)
    requires Seg(a, lo, hi, pf) && Seg(b, lo, hi, pf) && Used(a) == Used(b)
    ensures a == b
    decreases |a| + |b|
  {
    SegBounds(a, lo, hi, pf);
    SegBounds(b, lo, hi, pf);
    if a != [] && b != [] {
      assert a == [a[0]] + a[1..] && b == [b[0]] + b[1..];
      SegBounds(a[1..], a[0].hi, hi, !a[0].used);
      SegBounds(b[1..], b[0].hi, hi, !b[0].used);
      SameHead(a, b, lo, hi, pf);
      SameHead(b, a, lo, hi, pf);
      assert a[0] == b[0];
      assert Used(a[1..]) == Used(a) - {a[0]} && Used(b[1..]) == Used(b) - {b[0]};
      UsedDecides(a[1..], b[1..], a[0].hi, hi, !a[0].used);
    }
  }

  lemma SameHead(a: seq<Block>, b: seq<Block>, lo: nat, hi: nat, pf: bool)
    requires Seg(a, lo, hi, pf) && Seg(b, lo, hi, pf) && Used(a) == Used(b) && a != [] && b != []
    ensures a[0].used ==> b[0] == a[0]
    ensures !a[0].used && !b[0].used ==> a[0].hi <= b[0].hi
  {
    SegBounds(b, lo, hi, pf);
    SegBounds(a, lo, hi, pf);
    SegBounds(b[1..], b[0].hi, hi, !b[0].used);
    SegBounds(a[1..], a[0].hi, hi, !a[0].used);
    assert a == [a[0]] + a[1..] && b == [b[0]] + b[1..];
    if a[0].used {
      assert a[0] in Used(b);
    } else if !b[0].used && b[1..] != [] {
      assert b[1] in Used(b) && b[1] in Used(a);
    }
  }

  // ------------------------------------------------------- one step at a time

  lemma TakeUses(h: Heap, k: nat, n: nat, memSize: nat)
    requires Inv(h, memSize) && Allocatable(h, k, n)
    ensures var t := Take(h.bs[k], n)[0];
            && Used(MallocAt(h, k, n, memSize).bs) == Used(h.bs) + {t}
            && forall x :: x in Used(h.bs) ==> Apart(x, t)
  {
    UsedAround(h.bs, k, memSize + HDR);
    TakenParts(h, k, n, memSize);
    assert Used(h.bs) - {h.bs[k]} == Used(h.bs);
  }

  lemma TakenParts(h: Heap, k: nat, n: nat, memSize: nat)
    requires k < |h.bs| && 0 <= h.bs[k].Data()
    ensures Used(MallocAt(h, k, n, memSize).bs) == Used(h.bs[..k]) + Used(h.bs[k + 1..]) + {Take(h.bs[k], n)[0]}
  {
    var a, b, c := h.bs[..k], h.bs[k], h.bs[k + 1..];
    var t := Take(b, n);
    if Splits(b, n) {
      TwoUsed(a, t[0], t[1], c);
    } else {
      UsedParts(a, t, c);
      assert Used(t) == {t[0]};
    }
  }

  lemma FreeUnuses(h: Heap, k: nat, memSize: nat)
    requires Inv(h, memSize) && k < |h.bs| && h.bs[k].used
    ensures Used(FreeAt(h, k).bs) == Used(h.bs) - {h.bs[k]}
  {
    UsedAround(h.bs, k, memSize + HDR);
    PlugUses(h.bs[..k], h.bs[k], h.bs[k + 1..]);
  }

  lemma ShrinkUses(h: Heap, k: nat, n: nat, memSize: nat)
    requires Inv(h, memSize) && k < |h.bs| && h.bs[k].used && n <= h.bs[k].Data()
    ensures var b := h.bs[k];
            Used(ShrinkAt(h, k, n).bs) == Used(h.bs) - {b} + {Block(b.lo, b.lo + HDR + n, true)}
  {
    var b := h.bs[k];
    var t, r := Block(b.lo, b.lo + HDR + n, true), Block(b.lo + HDR + n, b.hi, false);
    UsedAround(h.bs, k, memSize + HDR);
    ShrinkAtIs(h, k, n, t, r);
    ShrunkParts(h.bs[..k], t, r, h.bs[k + 1..]);
  }

  lemma ShrunkParts(a: seq<Block>, t: Block, r: Block, c: seq<Block>)
    requires t.used
    ensures Used(PlugHoles(a + [t], r, c)) == Used(a) + Used(c) + {t}
  {
    PlugUses(a + [t], r, c);
    UsedParts(a, [t], []);
    assert a + [t] + [] == a + [t] && Used([t]) == {t};
  }

  // ------------------------------------------------------------- whole calls

  /** b has made room for t, which holds just n bytes if it starts where b did, and less
      than a least block too many if not; the other blocks in use are what they were,
      and apart from t. */
  ghost predicate Resized(bs: seq<Block>, gs: seq<Block>, b: Block, t: Block, n: nat) {
    && b in Used(bs) && t in Used(gs) && Used(gs) == Used(bs) - {b} + {t}
    && n <= t.Data() < Rounded(n) + HDR + MIN && (t.lo == b.lo ==> t.Data() == n)
    && forall x :: x in Used(bs) && x != b ==> Apart(x, t)
  }

  /** A block t has come into use for a request of n bytes, and nothing else has changed. */
  ghost predicate PutToUse(bs: seq<Block>, gs: seq<Block>, t: Block, n: nat) {
    && t in Used(gs) && Used(gs) == Used(bs) + {t}
    && n <= t.Data() < n + HDR + MIN && t.lo % 4 == 0
    && forall x :: x in Used(bs) ==> Apart(x, t)
  }

  lemma MallocServes(h: Heap, size: nat, memSize: nat)
    requires Inv(h, memSize) && Malloc(h, size, memSize).1.Some?
    ensures var (g, q) := Malloc(h, size, memSize);
            && (exists t :: PutToUse(h.bs, g.bs, t, Rounded(size)) && t.lo + HDR == q.value)
            && g.maxMem == Max(h.maxMem, g.usedMem)
  {
    var n := Rounded(size);
    var k := FirstFit(h.bs, h.lfree, n, memSize);
    FirstFitIs(h.bs, h.lfree, n, memSize);
    MallocIs(h, size, k, memSize);
    TakeUses(h, k, n, memSize);
    TakenFits(h.bs, k, n, memSize + HDR);
    assert PutToUse(h.bs, MallocAt(h, k, n, memSize).bs, Take(h.bs[k], n)[0], n);
  }

  lemma TakenFits(bs: seq<Block>, k: nat, n: nat, end: nat)
    requires Seg(bs, 0, end, false) && k < |bs| && bs[k].Data() >= n
    ensures var t := Take(bs[k], n)[0]; t.used && t.lo == bs[k].lo && t.lo % 4 == 0 && n <= t.Data() < n + HDR + MIN
  {
    SplitAt(bs, k);
    SegAround(bs[..k], bs[k], bs[k + 1..], 0, end, false);
  }

  /** rt_free takes the block at p out of use, and no other. */
  lemma FreeReleases(h: Heap, p: int, memSize: nat)
    requires Inv(h, memSize) && Live(h.bs, p) && InHeap(p, memSize)
    ensures Inv(Free(h, Some(p), memSize), memSize) && Released(h, Free(h, Some(p), memSize), p)
  {
    var k := Index(h.bs, p - HDR);
    LiveIndex(h.bs, p, memSize + HDR);
    FreeIs(h, p, memSize);
    FreeAtReleases(h, k, memSize);
  }

  /** The block at p is out of use, all others are what they were, and `lfree` lies no
      higher than it. */
  ghost predicate Released(h: Heap, g: Heap, p: int) {
    && g.maxMem == h.maxMem && g.lfree <= p - HDR
    && exists b :: b in Used(h.bs) && b.lo + HDR == p && Used(g.bs) == Used(h.bs) - {b}
  }

  lemma FreeAtReleases(h: Heap, k: nat, memSize: nat)
    requires Inv(h, memSize) && k < |h.bs| && h.bs[k].used
    ensures var g := FreeAt(h, k);
            && Inv(g, memSize) && g.maxMem == h.maxMem && g.lfree <= h.bs[k].lo
            && h.bs[k] in Used(h.bs) && Used(g.bs) == Used(h.bs) - {h.bs[k]}
  {
    FreeUnuses(h, k, memSize);
    FreeAtKeeps(h, k, memSize);
    FreeLowers(h, k, memSize);
  }

  /** `lfree` lies no higher than what was freed last. */
  lemma FreeLowers(h: Heap, k: nat, memSize: nat)
    requires Inv(h, memSize) && k < |h.bs| && h.bs[k].used
    ensures FreeAt(h, k).lfree <= h.bs[k].lo
  {
    var a, b, c := h.bs[..k], h.bs[k], h.bs[k + 1..];
    SplitAt(h.bs, k);
    SegAround(a, b, c, 0, memSize + HDR, false);
    SegBounds(a, 0, b.lo, false);
    SegBounds(c, b.hi, memSize + HDR, false);
  }

  /** Where rt_realloc leaves the block, whichever path it takes. */
  lemma ReallocServes(h: Heap, p: int, newsize: nat, memSize: nat)
    requires Inv(h, memSize) && Live(h.bs, p) && InHeap(p, memSize) && 0 < Align(newsize)
    ensures var (g, q) := Realloc(h, Some(p), newsize, memSize);
            exists b :: b in Used(h.bs) && b.lo + HDR == p && Answers(h.bs, g.bs, q, b, Align(newsize))
  {
    var k := Index(h.bs, p - HDR);
    LiveIndex(h.bs, p, memSize + HDR);
    assert h.bs[k] in Used(h.bs);
    if Align(newsize) <= memSize {
      AlignTwice(newsize);
      ReallocByAlign(h, p, newsize, memSize, Align(newsize), k);
      ReallocAtServes(h, p, k, h.bs[k], Align(newsize), memSize);
      assert Answers(h.bs, Realloc(h, Some(p), newsize, memSize).0.bs, Realloc(h, Some(p), newsize, memSize).1,
               h.bs[k], Align(newsize));
    } else {
      assert Answers(h.bs, h.bs, None, h.bs[k], Align(newsize));
    }
  }

  /** A pointer that is not null leads to a block that holds n bytes, in the place of b
      or apart from where it was. */
  ghost predicate Answers(bs: seq<Block>, gs: seq<Block>, q: Option<int>, b: Block, n: nat) {
    q.Some? ==> exists t :: Resized(bs, gs, b, t, n) && t.lo + HDR == q.value && (t.lo == b.lo || Apart(b, t))
  }

  /** A failure changes nothing. */
  lemma ReallocNone(h: Heap, p: int, newsize: nat, memSize: nat)
    requires 0 < Align(newsize) && Realloc(h, Some(p), newsize, memSize).1 == None
    ensures Realloc(h, Some(p), newsize, memSize).0 == h
  {
  }

  lemma ReallocByAlign(h: Heap, p: int, newsize: nat, memSize: nat, n: nat, k: nat)
    requires InHeap(p, memSize) && n == Align(newsize) && 0 < n <= memSize && k == Index(h.bs, p - HDR)
    ensures Realloc(h, Some(p), newsize, memSize) == ReallocAt(h, p, k, n, memSize)
  {
  }

  lemma ReallocAtServes(h: Heap, p: int, k: nat, b: Block, n: nat, memSize: nat)
    requires Inv(h, memSize) && k < |h.bs| && b == h.bs[k] && b.used && p == b.lo + HDR && InHeap(p, memSize) &&
             n == Align(n)
    ensures Answers(h.bs, ReallocAt(h, p, k, n, memSize).0.bs, ReallocAt(h, p, k, n, memSize).1, b, n)
  {
    if Stays(b, n) { StayAnswers(h, p, k, b, n, memSize); } else { MovedServes(h, p, k, b, n, memSize); }
  }

  predicate Stays(b: Block, n: nat) {
    b.Data() == n || n + HDR + MIN < b.Data()
  }

  lemma ReallocAtMoves(h: Heap, p: int, k: nat, b: Block, n: nat, memSize: nat)
    requires k < |h.bs| && b == h.bs[k] && !Stays(b, n)
    ensures ReallocAt(h, p, k, n, memSize).0 == Move(h, Some(p), n, memSize).0
    ensures ReallocAt(h, p, k, n, memSize).1 == Move(h, Some(p), n, memSize).1
  {
  }

  lemma MovedServes(h: Heap, p: int, k: nat, b: Block, n: nat, memSize: nat)
    requires Inv(h, memSize) && k < |h.bs| && b == h.bs[k] && b.used && p == b.lo + HDR && InHeap(p, memSize) &&
             n == Align(n)
    requires !Stays(b, n)
    ensures Answers(h.bs, ReallocAt(h, p, k, n, memSize).0.bs, ReallocAt(h, p, k, n, memSize).1, b, n)
  {
    ReallocAtMoves(h, p, k, b, n, memSize);
    MoveResizes(h, p, b, n, memSize);
  }

  lemma StayAnswers(h: Heap, p: int, k: nat, b: Block, n: nat, memSize: nat)
    requires Inv(h, memSize) && k < |h.bs| && b == h.bs[k] && b.used && p == b.lo + HDR && Stays(b, n) && n == Align(n)
    ensures Answers(h.bs, ReallocAt(h, p, k, n, memSize).0.bs, ReallocAt(h, p, k, n, memSize).1, b, n)
  {
    if b.Data() == n {
      StaysResized(h.bs, k, n, memSize + HDR);
      InPlace(h, h, b, b, n);
    } else {
      ShrinkResizes(h, k, n, memSize);
      InPlace(h, ShrinkAt(h, k, n), b, Block(b.lo, b.lo + HDR + n, true), n);
    }
  }

  lemma InPlace(h: Heap, g: Heap, b: Block, t: Block, n: nat)
    requires Resized(h.bs, g.bs, b, t, n) && t.lo == b.lo
    ensures Answers(h.bs, g.bs, Some(b.lo + HDR), b, n)
  {
  }

  lemma StaysResized(bs: seq<Block>, k: nat, n: nat, end: nat)
    requires Seg(bs, 0, end, false) && k < |bs| && bs[k].used && n == bs[k].Data() == Align(n)
    ensures Resized(bs, bs, bs[k], bs[k], n)
  {
    UsedAround(bs, k, end);
    assert bs[k] in bs;
    assert Used(bs) - {bs[k]} + {bs[k]} == Used(bs);
  }

  lemma ShrinkResizes(h: Heap, k: nat, n: nat, memSize: nat)
    requires Inv(h, memSize) && k < |h.bs| && h.bs[k].used && n <= h.bs[k].Data() && n == Align(n)
    ensures var b := h.bs[k];
            Resized(h.bs, ShrinkAt(h, k, n).bs, b, Block(b.lo, b.lo + HDR + n, true), n)
  {
    ShrinkUses(h, k, n, memSize);
    UsedAround(h.bs, k, memSize + HDR);
    assert h.bs[k] in h.bs;
  }

  lemma MoveResizes(h: Heap, p: int, b: Block, n: nat, memSize: nat)
    requires Inv(h, memSize) && b in h.bs && b.used && p == b.lo + HDR && InHeap(p, memSize) && n == Align(n)
    ensures Answers(h.bs, Move(h, Some(p), n, memSize).0.bs, Move(h, Some(p), n, memSize).1, b, n)
  {
    MallocGives(h, n, memSize);
    var (g, q) := Malloc(h, n, memSize);
    if q.Some? {
      StillThere(h, g, q, b, n, memSize);
      FreeReleases(g, p, memSize);
    }
    MoveAnswers(h, g, q, Free(g, Some(p), memSize), b, n, memSize);
  }

  ghost predicate Given(h: Heap, g: Heap, q: Option<int>, n: nat, memSize: nat) {
    && Inv(g, memSize)
    && (q.Some? ==> exists t :: PutToUse(h.bs, g.bs, t, n) && t.lo + HDR == q.value)
  }

  lemma MallocGives(h: Heap, size: nat, memSize: nat)
    requires Inv(h, memSize)
    ensures Given(h, Malloc(h, size, memSize).0, Malloc(h, size, memSize).1, Rounded(size), memSize)
  {
    MallocInv(h, size, memSize);
    if Malloc(h, size, memSize).1.Some? { MallocServes(h, size, memSize); }
  }

  lemma StillThere(h: Heap, g: Heap, q: Option<int>, b: Block, n: nat, memSize: nat)
    requires b in h.bs && b.used && q.Some? && Given(h, g, q, Rounded(n), memSize)
    ensures b in g.bs && Live(g.bs, b.lo + HDR)
  {
    assert b in Used(h.bs) && b in Used(g.bs);
  }

  /** From the allocation g and the release f that follows it. */
  lemma MoveAnswers(h: Heap, g: Heap, q: Option<int>, f: Heap, b: Block, n: nat, memSize: nat)
    requires Inv(h, memSize) && b in h.bs && b.used && n == Align(n) && Given(h, g, q, Rounded(n), memSize)
    requires q.Some? ==> Released(g, f, b.lo + HDR)
    ensures Answers(h.bs, (if q.Some? then f else g).bs, q, b, n)
  {
    if q.Some? {
      StillThere(h, g, q, b, n, memSize);
      var t :| PutToUse(h.bs, g.bs, t, Rounded(n)) && t.lo + HDR == q.value;
      MovedUses(h, g, f, b, t, n, memSize);
    }
  }

  lemma MallocInv(h: Heap, size: nat, memSize: nat)
    requires Inv(h, memSize)
    ensures Inv(Malloc(h, size, memSize).0, memSize)
  {
    var n := Rounded(size);
    var k := FirstFit(h.bs, h.lfree, n, memSize);
    FirstFitIs(h.bs, h.lfree, n, memSize);
    if size != 0 && Align(size) <= memSize && k < |h.bs| {
      MallocIs(h, size, k, memSize);
      MallocAtKeeps(h, k, n, memSize);
    }
  }

  /** Block b is given back once t has come into use. */
  lemma MovedUses(h: Heap, g: Heap, f: Heap, b: Block, t: Block, n: nat, memSize: nat)
    requires Inv(h, memSize) && Inv(g, memSize) && b in h.bs && b.used && b in g.bs && Released(g, f, b.lo + HDR)
    requires PutToUse(h.bs, g.bs, t, Rounded(n)) && n == Align(n)
    ensures Resized(h.bs, f.bs, b, t, n) && Apart(b, t)
  {
    var c :| c in Used(g.bs) && c.lo + HDR == b.lo + HDR && Used(f.bs) == Used(g.bs) - {c};
    SameStart(g.bs, b, c, memSize + HDR);
    SegBounds(h.bs, 0, memSize + HDR, false);
    MovedSets(h.bs, g.bs, f.bs, b, t, n);
  }

  lemma MovedSets(hs: seq<Block>, gs: seq<Block>, fs: seq<Block>, b: Block, t: Block, n: nat)
    requires b in Used(hs) && b.lo < b.hi && PutToUse(hs, gs, t, Rounded(n)) && n == Align(n) &&
             Used(fs) == Used(gs) - {b}
    ensures Resized(hs, fs, b, t, n) && Apart(b, t)
  {
    assert Used(hs) + {t} - {b} == Used(hs) - {b} + {t};
  }

  lemma SameStart(bs: seq<Block>, b: Block, c: Block, end: nat)
    requires Seg(bs, 0, end, false) && b in bs && c in bs && b.lo == c.lo
    ensures b == c
  {
    var i :| 0 <= i < |bs| && bs[i] == b;
    BlockApart(bs, i, end);
    SegBounds(bs, 0, end, false);
  }

  /** Some free block from `lfree` on holds n bytes, and the walk does not pass over it:
      it passes over an exact fit of the last block. */
  ghost predicate Available(h: Heap, n: nat, memSize: nat) {
    exists x :: x in h.bs && !x.used && h.lfree <= x.lo && n <= x.Data() && !(x.hi == memSize + HDR && x.Data() == n)
  }

  lemma MallocFailsIff(h: Heap, size: nat, memSize: nat)
    requires Inv(h, memSize)
    ensures Malloc(h, size, memSize).1 == None <==>
            size == 0 || Align(size) > memSize || !Available(h, Rounded(size), memSize)
  {
    var n := Rounded(size);
    var k := FirstFit(h.bs, h.lfree, n, memSize);
    FirstFitIs(h.bs, h.lfree, n, memSize);
    SegBounds(h.bs, 0, memSize + HDR, false);
    forall x | x in h.bs
      ensures Fits(x, h.lfree, n, memSize) <==>
              !x.used && h.lfree <= x.lo && n <= x.Data() && !(x.hi == memSize + HDR && x.Data() == n)
    {
    }
    if k < |h.bs| {
      assert h.bs[k] in h.bs;
    } else {
      assert h.bs[..k] == h.bs;
    }
  }

  /** rt_malloc takes the first block available from `lfree` on. */
  lemma MallocTakesFirst(h: Heap, size: nat, memSize: nat)
    requires Inv(h, memSize) && Malloc(h, size, memSize).1.Some?
    ensures var q := Malloc(h, size, memSize).1.value;
            exists b :: b in h.bs && !b.used && h.lfree <= b.lo && b.lo + HDR == q
                        && forall x :: x in h.bs && Fits(x, h.lfree, Rounded(size), memSize) ==> b.lo <= x.lo
  {
    var n := Rounded(size);
    var k := FirstFit(h.bs, h.lfree, n, memSize);
    FirstFitIs(h.bs, h.lfree, n, memSize);
    MallocIs(h, size, k, memSize);
    BlockOrder(h.bs, k, memSize + HDR);
    assert h.bs[k] in h.bs;
  }

  lemma BlockOrder(bs: seq<Block>, k: nat, end: nat)
    requires Seg(bs, 0, end, false) && k < |bs|
    ensures forall x :: x in bs ==> x in bs[..k] || bs[k].lo <= x.lo
  {
    SplitAt(bs, k);
    SegAround(bs[..k], bs[k], bs[k + 1..], 0, end, false);
    SegBounds(bs[k + 1..], bs[k].hi, end, !bs[k].used);
  }

  /** When rt_realloc keeps the block in its place, and when it fails. */
  lemma ReallocStaysIff(h: Heap, p: int, newsize: nat, memSize: nat, b: Block)
    requires Inv(h, memSize) && b in Used(h.bs) && b.lo + HDR == p && InHeap(p, memSize) && 0 < Align(newsize)
    ensures StaysIff(h, Realloc(h, Some(p), newsize, memSize).1, b, Align(newsize), memSize)
  {
    if Align(newsize) <= memSize {
      var k := Index(h.bs, p - HDR);
      LiveIndex(h.bs, p, memSize + HDR);
      assert h.bs[k] in h.bs;
      SameStart(h.bs, b, h.bs[k], memSize + HDR);
      AlignTwice(newsize);
      ReallocByAlign(h, p, newsize, memSize, Align(newsize), k);
      ReallocAtStaysIff(h, p, k, b, Align(newsize), memSize);
    }
  }

  /** The block stays where it is exactly when it has the size already or is cut, and the
      answer is null exactly when the heap is too small, or the block must move and no
      free block is available. */
  ghost predicate StaysIff(h: Heap, q: Option<int>, b: Block, n: nat, memSize: nat) {
    && (q == Some(b.lo + HDR) <==> n <= memSize && Stays(b, n))
    && (q == None <==> n > memSize || (!Stays(b, n) && !Available(h, Rounded(n), memSize)))
  }

  lemma ReallocAtStaysIff(h: Heap, p: int, k: nat, b: Block, n: nat, memSize: nat)
    requires Inv(h, memSize) && k < |h.bs| && b == h.bs[k] && b.used && p == b.lo + HDR && InHeap(p, memSize)
    requires 0 < n == Align(n) <= memSize
    ensures StaysIff(h, ReallocAt(h, p, k, n, memSize).1, b, n, memSize)
  {
    if !Stays(b, n) {
      ReallocAtMoves(h, p, k, b, n, memSize);
      MovesAway(h, p, b, n, memSize);
    }
  }

  lemma MovesAway(h: Heap, p: int, b: Block, n: nat, memSize: nat)
    requires Inv(h, memSize) && b in Used(h.bs) && p == b.lo + HDR && InHeap(p, memSize) && 0 < n == Align(n) <= memSize
    ensures var q := Move(h, Some(p), n, memSize).1;
            q != Some(p) && (q == None <==> !Available(h, Rounded(n), memSize))
  {
    MallocFailsIff(h, n, memSize);
    if Malloc(h, n, memSize).1.Some? {
      MallocServes(h, n, memSize);
      var t :| PutToUse(h.bs, Malloc(h, n, memSize).0.bs, t, Rounded(n)) && t.lo + HDR == Malloc(h, n, memSize).1.value;
      StartsApart(h.bs, b, t, memSize + HDR);
    }
  }

  lemma StartsApart(bs: seq<Block>, b: Block, t: Block, end: nat)
    requires Seg(bs, 0, end, false) && b in Used(bs) && t.Data() >= 0 && forall x :: x in Used(bs) ==> Apart(x, t)
    ensures b.lo != t.lo
  {
    SegBounds(bs, 0, end, false);
  }
}
