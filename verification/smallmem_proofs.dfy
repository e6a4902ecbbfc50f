/** What every operation of the small-memory allocator keeps. */
module SmallMemProofs {
  import opened Options
  import opened Words
  import opened SmallMemSpec

  // ----------------------------------------------- cutting and joining chains

  lemma {:induction false} SegConcat(a: seq<Block>, b: seq<Block>, lo: nat, hi: nat, pf: bool)
    ensures Seg(a + b, lo, hi, pf) <==> Seg(a, lo, Top(a, lo), pf) && Seg(b, Top(a, lo), hi, LastFree(a, pf))
  {
    if a == [] {
      assert a + b == b;
    } else {
      SegConcat(a[1..], b, a[0].hi, hi, !a[0].used);
      assert (a + b)[1..] == a[1..] + b;
    }
  }

  lemma {:induction false} UsedConcat(a: seq<Block>, b: seq<Block>)
    ensures UsedBytes(a + b) == UsedBytes(a) + UsedBytes(b)
  {
    if a == [] {
      assert a + b == b;
    } else {
      UsedConcat(a[1..], b);
      assert (a + b)[1..] == a[1..] + b;
    }
  }

  /** A chain around one block: the parts below and above it are chains too. */
  lemma SegAround(a: seq<Block>, b: Block, c: seq<Block>, lo: nat, hi: nat, pf: bool)
    ensures Seg(a + [b] + c, lo, hi, pf) <==>
            && Seg(a, lo, b.lo, pf) && b.lo + HDR <= b.hi && b.lo % 4 == 0 && (LastFree(a, pf) ==> b.used)
            && Seg(c, b.hi, hi, !b.used)
    ensures UsedBytes(a + [b] + c) == UsedBytes(a) + (if b.used then b.Extent() else 0) + UsedBytes(c)
  {
    assert a + [b] + c == a + ([b] + c);
    SegConcat(a, [b] + c, lo, hi, pf);
    SegTop(a, lo, pf);
    assert ([b] + c)[1..] == c;
    UsedConcat(a, [b] + c);
  }

  lemma {:induction false} SegTop(a: seq<Block>, lo: nat, pf: bool)
    ensures forall hi :: Seg(a, lo, hi, pf) ==> hi == Top(a, lo) && lo <= hi
  {
    if a != [] {
      SegTop(a[1..], a[0].hi, !a[0].used);
    }
  }

  lemma {:induction false} SegBounds(a: seq<Block>, lo: nat, hi: nat, pf: bool)
    requires Seg(a, lo, hi, pf)
    ensures lo <= hi
    ensures forall b :: b in a ==> lo <= b.lo && b.lo + HDR <= b.hi <= hi
    ensures 0 <= UsedBytes(a) <= hi - lo
  {
    if a != [] {
      SegBounds(a[1..], a[0].hi, hi, !a[0].used);
      assert a == [a[0]] + a[1..];
    }
  }

  lemma EmptyAtEnd(c: seq<Block>, lo: nat, end: nat, pf: bool)
    requires Seg(c, lo, end, pf)
    ensures c == [] <==> lo == end
  {
    SegBounds(c, lo, end, pf);
  }

  lemma SplitAt(bs: seq<Block>, k: nat)
    requires k < |bs|
    ensures bs == bs[..k] + [bs[k]] + bs[k + 1..]
  {
  }

  lemma SplitLast(a: seq<Block>)
    requires a != []
    ensures a == a[..|a| - 1] + [a[|a| - 1]]
  {
  }

  // ------------------------------------------------------------- rt_malloc

  lemma {:induction false} NextFreeIs(bs: seq<Block>, lo: nat, hi: nat, pf: bool, end: nat)
    requires Seg(bs, lo, hi, pf) && hi <= end
    ensures var r := NextFree(bs, end); r == end || exists b :: b in bs && b.lo == r && !b.used
    ensures LfreeLowest(bs, NextFree(bs, end))
    ensures lo <= NextFree(bs, end)
  {
    if bs != [] {
      assert bs == [bs[0]] + bs[1..];
      if bs[0].used {
        NextFreeIs(bs[1..], bs[0].hi, hi, !bs[0].used, end);
        if NextFree(bs, end) != end {
          var b :| b in bs[1..] && b.lo == NextFree(bs, end) && !b.used;
          assert b in bs;
        }
      } else {
        assert bs[0] in bs;
        SegBounds(bs, lo, hi, pf);
      }
    }
  }

  /** From the block taken upwards. */
  lemma TakeSuffix(b: Block, c: seq<Block>, size: nat, end: nat, pf: bool)
    requires Seg(c, b.hi, end, true) && !b.used && b.Data() >= size && size % 4 == 0 && b.lo % 4 == 0
    ensures Seg(Take(b, size) + c, b.lo, end, pf)
    ensures UsedBytes(Take(b, size) + c) == UsedBytes(c) + Take(b, size)[0].Extent()
  {
    if Splits(b, size) {
      var t, r := Block(b.lo, b.lo + HDR + size, true), Block(b.lo + HDR + size, b.hi, false);
      assert Take(b, size) + c == [t] + ([r] + c);
      SegPush(r, c, end, false);
      SegPush(t, [r] + c, end, pf);
    } else {
      SegWeaken(c, b.hi, end);
      SegPush(b.(used := true), c, end, pf);
    }
  }

  /** One more block in front. */
  lemma SegPush(b: Block, c: seq<Block>, end: nat, pf: bool)
    requires Seg(c, b.hi, end, !b.used) && b.lo + HDR <= b.hi && b.lo % 4 == 0 && (pf ==> b.used)
    ensures Seg([b] + c, b.lo, end, pf)
    ensures UsedBytes([b] + c) == UsedBytes(c) + if b.used then b.Extent() else 0
  {
    assert ([b] + c)[1..] == c;
  }

  lemma TakeKeeps(a: seq<Block>, b: Block, c: seq<Block>, size: nat, end: nat)
    requires Seg(a + [b] + c, 0, end, false) && !b.used && b.Data() >= size && size % 4 == 0
    ensures var t := Take(b, size);
            && Seg(a + t + c, 0, end, false) && Seg(t + c, b.lo, end, LastFree(a, false))
            && UsedBytes(a + t + c) == UsedBytes(a + [b] + c) + t[0].Extent()
  {
    SegAround(a, b, c, 0, end, false);
    var t := Take(b, size);
    TakeSuffix(b, c, size, end, LastFree(a, false));
    assert a + t + c == a + (t + c);
    SegTop(a, 0, false);
    SegConcat(a, t + c, 0, end, false);
    UsedConcat(a, t + c);
  }

  lemma SegWeaken(c: seq<Block>, lo: nat, hi: nat)
    requires Seg(c, lo, hi, true)
    ensures Seg(c, lo, hi, false)
  {
  }

  /** Taking free block b into use leaves every other free block where it is. */
  lemma TakeLfree(a: seq<Block>, b: Block, c: seq<Block>, size: nat, lfree: nat, end: nat)
    requires Seg(a + [b] + c, 0, end, false) && !b.used && b.Data() >= size && size % 4 == 0
    requires LfreeOk(a + [b] + c, lfree, end)
    ensures var t := Take(b, size);
            var l := if lfree == b.lo then NextFree(t + c, end) else lfree;
            LfreeOk(a + t + c, l, end) && (LfreeLowest(a + [b] + c, lfree) ==> LfreeLowest(a + t + c, l))
  {
    var t := Take(b, size);
    TakeKeeps(a, b, c, size, end);
    SegAround(a, b, c, 0, end, false);
    NextFreeIs(t + c, b.lo, end, LastFree(a, false), end);
    SegBounds(t + c, b.lo, end, LastFree(a, false));
    SegBounds(a, 0, b.lo, false);
    assert a + t + c == a + (t + c);
    if lfree == b.lo {
      if NextFree(t + c, end) != end {
        var x :| x in t + c && x.lo == NextFree(t + c, end) && !x.used;
        assert x in a + t + c;
      }
    } else if lfree != end {
      var x :| x in a + [b] + c && x.lo == lfree && !x.used;
      assert x in a + t + c;
    }
    if LfreeLowest(a + [b] + c, lfree) {
      assert b in a + [b] + c;
      forall x | x in a + t + c && !x.used
        ensures (if lfree == b.lo then NextFree(t + c, end) else lfree) <= x.lo
      {
        if x in a { assert x in a + [b] + c; } else { assert x in t + c; }
      }
    }
  }

  ghost predicate Allocatable(h: Heap, k: nat, size: nat) {
    k < |h.bs| && !h.bs[k].used && h.bs[k].Data() >= size && size % 4 == 0
  }

  lemma MallocAtKeeps(h: Heap, k: nat, size: nat, memSize: nat)
    requires Inv(h, memSize) && Allocatable(h, k, size)
    ensures Inv(MallocAt(h, k, size, memSize), memSize)
    ensures var g := MallocAt(h, k, size, memSize); LfreeLowest(h.bs, h.lfree) ==> LfreeLowest(g.bs, g.lfree)
  {
    var a, b, c := h.bs[..k], h.bs[k], h.bs[k + 1..];
    SplitAt(h.bs, k);
    TakeKeeps(a, b, c, size, memSize + HDR);
    TakeLfree(a, b, c, size, h.lfree, memSize + HDR);
  }

  // ------------------------------------------------------------- plug_holes

  /** One new hole b between a and c: plug_holes leaves a layout in which the
      used blocks and their extents are what they were. */
  lemma PlugKeeps(a: seq<Block>, b: Block, c: seq<Block>, end: nat)
    requires Seg(a, 0, b.lo, false) && b.lo + HDR <= b.hi && b.lo % 4 == 0 && Seg(c, b.hi, end, false)
    ensures Seg(PlugHoles(a, b, c), 0, end, false)
    ensures UsedBytes(PlugHoles(a, b, c)) == UsedBytes(a) + UsedBytes(c)
  {
    var fwd := c != [] && !c[0].used;
    var hi := if fwd then c[0].hi else b.hi;
    var c' := if fwd then c[1..] else c;
    assert Seg(c', hi, end, true);
    if a != [] && !a[|a| - 1].used {
      SplitLast(a);
      var p := a[|a| - 1];
      SegAround(a[..|a| - 1], p, [], 0, b.lo, false);
      assert a[..|a| - 1] + [p] + [] == a;
      SegAround(a[..|a| - 1], Block(p.lo, hi, false), c', 0, end, false);
    } else {
      SegAround(a, Block(b.lo, hi, false), c', 0, end, false);
    }
  }

  lemma PlugLfreeKeeps(a: seq<Block>, b: Block, c: seq<Block>, lfree: nat, end: nat)
    requires Seg(a, 0, b.lo, false) && b.lo + HDR <= b.hi && !b.used && Seg(c, b.hi, end, false)
    requires LfreeOk(a + [b] + c, lfree, end)
    ensures LfreeOk(PlugHoles(a, b, c), PlugLfree(a, b, c, lfree), end)
    ensures LfreeLowest(a + [b] + c, lfree) ==> LfreeLowest(PlugHoles(a, b, c), PlugLfree(a, b, c, lfree))
  {
    SegBounds(a, 0, b.lo, false);
    SegBounds(c, b.hi, end, false);
    if lfree != end {
      var x :| x in a + [b] + c && x.lo == lfree && !x.used;
      PlugLfreeOk(a, b, c, x, end);
    } else {
      if c != [] { assert c[0] in c; }
    }
    if LfreeLowest(a + [b] + c, lfree) { PlugLowest(a, b, c, lfree); }
  }

  /** The merged block, or the header `lfree` named before. */
  lemma PlugLfreeOk(a: seq<Block>, b: Block, c: seq<Block>, x: Block, end: nat)
    requires (forall y :: y in a ==> y.lo < b.lo) && (forall y :: y in c ==> b.lo < y.lo)
    requires !b.used && x in a + [b] + c && !x.used
    ensures LfreeOk(PlugHoles(a, b, c), PlugLfree(a, b, c, x.lo), end)
  {
    var g, l := PlugHoles(a, b, c), PlugLfree(a, b, c, x.lo);
    var fwd, back := c != [] && !c[0].used, a != [] && !a[|a| - 1].used;
    var m := Block(if back then a[|a| - 1].lo else b.lo, if fwd then c[0].hi else b.hi, false);
    assert m in g;
    if a != [] { SplitLast(a); }
    if l != m.lo {
      assert fwd ==> c == [c[0]] + c[1..];
      assert x in g;
    }
  }

  lemma PlugLowest(a: seq<Block>, b: Block, c: seq<Block>, lfree: nat)
    requires (forall y :: y in a ==> y.lo < b.lo) && (forall y :: y in c ==> b.lo < y.lo)
    requires !b.used && LfreeLowest(a + [b] + c, lfree)
    ensures LfreeLowest(PlugHoles(a, b, c), PlugLfree(a, b, c, lfree))
  {
    var g, l := PlugHoles(a, b, c), PlugLfree(a, b, c, lfree);
    assert b in a + [b] + c;
    if a != [] { assert a[|a| - 1] in a + [b] + c; }
    forall y | y in g && !y.used ensures l <= y.lo {
      if y in a || y in c { assert y in a + [b] + c; }
    }
  }

  // ------------------------------------------------------- walking the chain

  /** Where a walk of the chain stands after the blocks `a`. */
  lemma WalkAt(a: seq<Block>, c: seq<Block>, end: nat)
    requires Seg(a + c, 0, end, false)
    ensures Seg(a, 0, Top(a, 0), false) && Seg(c, Top(a, 0), end, LastFree(a, false)) && Top(a, 0) <= end
    ensures c == [] ==> Top(a, 0) == end
    ensures c != [] ==>
              && c[0].lo == Top(a, 0) < c[0].hi <= end && 0 <= c[0].Data()
              && a + c == a + [c[0]] + c[1..] == (a + [c[0]]) + c[1..]
              && c[0].hi == Top(a + [c[0]], 0) && (c[0].lo == end ==> false)
  {
    SegConcat(a, c, 0, end, false);
    SegBounds(c, Top(a, 0), end, LastFree(a, false));
    if c != [] {
      SegBounds(c[1..], c[0].hi, end, !c[0].used);
      assert c == [c[0]] + c[1..];
    }
  }

  /** The blocks below the header that `lfree` points to. */
  lemma BelowLfree(bs: seq<Block>, lfree: nat, end: nat) returns (a: seq<Block>, c: seq<Block>)
    requires Seg(bs, 0, end, false) && LfreeOk(bs, lfree, end)
    ensures bs == a + c && Top(a, 0) == lfree
    ensures forall b :: b in a ==> b.lo < lfree
  {
    if lfree == end {
      a, c := bs, [];
      SegTop(bs, 0, false);
    } else {
      var b :| b in bs && b.lo == lfree && !b.used;
      var j :| 0 <= j < |bs| && bs[j] == b;
      a, c := bs[..j], bs[j..];
      assert bs == a + c;
      SegConcat(a, c, 0, end, false);
    }
    assert bs == a + c;
    WalkAt(a, c, end);
    SegBounds(a, 0, lfree, false);
  }

  lemma {:induction false} FirstFitSkip(a: seq<Block>, c: seq<Block>, lfree: nat, size: nat, memSize: nat)
    requires forall b :: b in a ==> !Fits(b, lfree, size, memSize)
    ensures FirstFit(a + c, lfree, size, memSize) == |a| + FirstFit(c, lfree, size, memSize)
  {
    if a == [] {
      assert a + c == c;
    } else {
      assert (a + c)[1..] == a[1..] + c;
      assert a[0] in a;
      FirstFitSkip(a[1..], c, lfree, size, memSize);
    }
  }

  /** Header offsets name blocks uniquely. */
  lemma {:induction false} IndexUnique(a: seq<Block>, b: Block, c: seq<Block>, lo: nat, hi: nat, pf: bool)
    requires Seg(a + [b] + c, lo, hi, pf)
    ensures Index(a + [b] + c, b.lo) == |a|
  {
    if a != [] {
      assert (a + [b] + c)[1..] == a[1..] + [b] + c;
      SegAround(a, b, c, lo, hi, pf);
      SegBounds(a[1..], a[0].hi, b.lo, !a[0].used);
      IndexUnique(a[1..], b, c, a[0].hi, hi, !a[0].used);
    }
  }

  /** A live pointer is found, and the chain falls apart around its block. */
  lemma LiveIndex(bs: seq<Block>, p: int, end: nat)
    requires Seg(bs, 0, end, false) && Live(bs, p)
    ensures var k := Index(bs, p - HDR);
            k < |bs| && bs[k].used && bs[k].lo + HDR == p <= end
  {
    var b :| b in bs && b.used && b.lo + HDR == p;
    var j :| 0 <= j < |bs| && bs[j] == b;
    SplitAt(bs, j);
    IndexUnique(bs[..j], b, bs[j + 1..], 0, end, false);
    SegBounds(bs, 0, end, false);
  }

  // ---------------------------------------------------------- rt_free, shrink

  lemma FreeAtKeeps(h: Heap, k: nat, memSize: nat)
    requires Inv(h, memSize) && k < |h.bs| && h.bs[k].used
    ensures Inv(FreeAt(h, k), memSize)
    ensures LfreeLowest(h.bs, h.lfree) ==> LfreeLowest(FreeAt(h, k).bs, FreeAt(h, k).lfree)
  {
    var a, b, c := h.bs[..k], h.bs[k], h.bs[k + 1..];
    var end := memSize + HDR;
    SplitAt(h.bs, k);
    SegAround(a, b, c, 0, end, false);
    var f := b.(used := false);
    var lf := if b.lo < h.lfree then b.lo else h.lfree;
    assert PlugHoles(a, b, c) == PlugHoles(a, f, c) && PlugLfree(a, b, c, lf) == PlugLfree(a, f, c, lf);
    PlugKeeps(a, f, c, end);
    FreedLfree(a, b, c, h.lfree, end);
    PlugLfreeKeeps(a, f, c, lf, end);
  }

  lemma FreedLfree(a: seq<Block>, b: Block, c: seq<Block>, lfree: nat, end: nat)
    requires LfreeOk(a + [b] + c, lfree, end) && b.used
    ensures var lf := if b.lo < lfree then b.lo else lfree;
            && LfreeOk(a + [b.(used := false)] + c, lf, end)
            && (LfreeLowest(a + [b] + c, lfree) ==> LfreeLowest(a + [b.(used := false)] + c, lf))
  {
    var bs, fs := a + [b] + c, a + [b.(used := false)] + c;
    if b.lo < lfree {
      assert b.(used := false) in fs;
    } else if lfree != end {
      var x :| x in bs && x.lo == lfree && !x.used;
      assert x in fs;
    }
    if LfreeLowest(bs, lfree) {
      forall x | x in fs && !x.used && x != b.(used := false) ensures lfree <= x.lo {
        assert x in bs;
      }
    }
  }

  /** plug_holes takes no block into use. */
  lemma PlugUsed(a: seq<Block>, b: Block, c: seq<Block>)
    ensures forall x :: x in PlugHoles(a, b, c) && x.used ==> x in a + c
    ensures forall x :: x in a + c && x.used ==> x in PlugHoles(a, b, c)
  {
    if c != [] { assert c == [c[0]] + c[1..]; }
    if a != [] { SplitLast(a); }
  }

  lemma ShrinkReady(bs: seq<Block>, k: nat, size: nat, end: nat)
    requires Seg(bs, 0, end, false) && k < |bs| && bs[k].used && size % 4 == 0 && size + HDR <= bs[k].Data()
    ensures var t := Block(bs[k].lo, bs[k].lo + HDR + size, true);
            && Seg(bs[..k] + [t], 0, t.hi, false) && Seg(bs[k + 1..], bs[k].hi, end, false)
            && t.hi + HDR <= bs[k].hi && t.hi % 4 == 0
            && UsedBytes(bs[..k] + [t]) + UsedBytes(bs[k + 1..]) == UsedBytes(bs) - (bs[k].Data() - size)
  {
    var t := Block(bs[k].lo, bs[k].lo + HDR + size, true);
    SplitAt(bs, k);
    SegAround(bs[..k], bs[k], bs[k + 1..], 0, end, false);
    SegAround(bs[..k], t, [], 0, t.hi, false);
    assert bs[..k] + [t] + [] == bs[..k] + [t];
  }

  lemma ShrinkLfree(bs: seq<Block>, k: nat, t: Block, r: Block, lfree: nat, end: nat)
    requires k < |bs| && bs[k].used && LfreeOk(bs, lfree, end)
    ensures LfreeOk(bs[..k] + [t] + [r] + bs[k + 1..], lfree, end)
  {
    if lfree != end {
      var x :| x in bs && x.lo == lfree && !x.used;
      assert x in bs[..k] || x in bs[k + 1..];
      assert x in bs[..k] + [t] + [r] + bs[k + 1..];
    }
  }

  lemma ShrinkAtKeeps(h: Heap, k: nat, size: nat, memSize: nat)
    requires Inv(h, memSize) && k < |h.bs| && h.bs[k].used && size % 4 == 0 && size + HDR <= h.bs[k].Data()
    ensures Inv(ShrinkAt(h, k, size), memSize)
  {
    var b := h.bs[k];
    var t, r := Block(b.lo, b.lo + HDR + size, true), Block(b.lo + HDR + size, b.hi, false);
    var end := memSize + HDR;
    ShrinkReady(h.bs, k, size, end);
    ShrinkLfree(h.bs, k, t, r, h.lfree, end);
    PlugKeeps(h.bs[..k] + [t], r, h.bs[k + 1..], end);
    PlugLfreeKeeps(h.bs[..k] + [t], r, h.bs[k + 1..], h.lfree, end);
  }

  /** A block that is live stays live across an allocation. */
  lemma LiveAfterMalloc(h: Heap, size: nat, p: int, memSize: nat)
    requires Inv(h, memSize) && Live(h.bs, p)
    ensures Live(Malloc(h, size, memSize).0.bs, p)
    ensures forall b :: b in h.bs && b.used ==> b in Malloc(h, size, memSize).0.bs
  {
    var k := FirstFit(h.bs, h.lfree, Rounded(size), memSize);
    if k < |h.bs| {
      SplitAt(h.bs, k);
      FirstFitIs(h.bs, h.lfree, Rounded(size), memSize);
      var g := Malloc(h, size, memSize).0.bs;
      forall b | b in h.bs && b.used ensures b in g {
        assert b in h.bs[..k] || b in h.bs[k + 1..];
      }
      var b :| b in h.bs && b.used && b.lo + HDR == p;
      assert b in g;
    }
  }

  lemma {:induction false} FirstFitIs(bs: seq<Block>, lfree: nat, size: nat, memSize: nat)
    ensures var k := FirstFit(bs, lfree, size, memSize);
            && (k < |bs| ==> Fits(bs[k], lfree, size, memSize))
            && (forall b :: b in bs[..k] ==> !Fits(b, lfree, size, memSize))
  {
    if bs != [] && !Fits(bs[0], lfree, size, memSize) {
      FirstFitIs(bs[1..], lfree, size, memSize);
      var k := FirstFit(bs[1..], lfree, size, memSize);
      assert bs[..k + 1] == [bs[0]] + bs[1..][..k];
    }
  }

  /** The block rt_malloc hands out overlaps no live block and ends inside the heap. */
  lemma MallocFresh(h: Heap, size: nat, memSize: nat)
    requires Inv(h, memSize) && Malloc(h, size, memSize).1.Some?
    ensures var (g, r) := Malloc(h, size, memSize);
            var q := r.value;
            && HDR <= q && q + Rounded(size) <= memSize + HDR
            && Live(g.bs, q)
            && (forall b :: b in h.bs && b.used ==> b.hi <= q - HDR || q + Rounded(size) <= b.lo)
            && (exists t :: t in g.bs && t.used && t.lo + HDR == q && q + Rounded(size) <= t.hi)
  {
    var n := Rounded(size);
    var k := FirstFit(h.bs, h.lfree, n, memSize);
    FirstFitIs(h.bs, h.lfree, n, memSize);
    var b := h.bs[k];
    BlockApart(h.bs, k, memSize + HDR);
    assert Take(b, n)[0] in h.bs[..k] + Take(b, n) + h.bs[k + 1..];
  }

  /** The other blocks lie below or above block k. */
  lemma BlockApart(bs: seq<Block>, k: nat, end: nat)
    requires Seg(bs, 0, end, false) && k < |bs|
    ensures bs[k].hi <= end
    ensures forall x :: x in bs && x != bs[k] ==> x.hi <= bs[k].lo || bs[k].hi <= x.lo
  {
    SplitAt(bs, k);
    var a, b, c := bs[..k], bs[k], bs[k + 1..];
    SegAround(a, b, c, 0, end, false);
    SegBounds(a, 0, b.lo, false);
    SegBounds(c, b.hi, end, !b.used);
  }

  // ------------------------------------ the operations, one branch at a time

  lemma FreeIs(h: Heap, p: int, memSize: nat)
    requires InHeap(p, memSize) && Index(h.bs, p - HDR) < |h.bs|
    ensures Free(h, Some(p), memSize) == FreeAt(h, Index(h.bs, p - HDR))
  {
  }

  lemma NoFitIs(h: Heap, size: nat, memSize: nat)
    requires FirstFit(h.bs, h.lfree, Rounded(size), memSize) == |h.bs|
    ensures Malloc(h, size, memSize).0 == h && Malloc(h, size, memSize).1 == None
  {
  }

  lemma MallocIs(h: Heap, size: nat, k: nat, memSize: nat)
    requires size != 0 && Align(size) <= memSize && FirstFit(h.bs, h.lfree, Rounded(size), memSize) == k < |h.bs|
    requires 0 <= h.bs[k].Data()
    ensures Malloc(h, size, memSize).0 == MallocAt(h, k, Rounded(size), memSize)
    ensures Malloc(h, size, memSize).1 == Some(h.bs[k].lo + HDR)
  {
  }

  lemma ReallocIs(h: Heap, p: int, n: nat, memSize: nat)
    requires InHeap(p, memSize) && Align(n) == n <= memSize && n != 0
    ensures Realloc(h, Some(p), n, memSize) == ReallocAt(h, p, Index(h.bs, p - HDR), n, memSize)
  {
  }

  lemma ShrinkIs(h: Heap, p: int, n: nat, memSize: nat)
    requires InHeap(p, memSize) && Align(n) == n <= memSize && n != 0
    requires Index(h.bs, p - HDR) < |h.bs| && n + HDR + MIN < h.bs[Index(h.bs, p - HDR)].Data()
    ensures Realloc(h, Some(p), n, memSize).0 == ShrinkAt(h, Index(h.bs, p - HDR), n)
    ensures Realloc(h, Some(p), n, memSize).1 == Some(p)
  {
    ReallocIs(h, p, n, memSize);
  }

  lemma StayIs(h: Heap, p: int, n: nat, memSize: nat)
    requires InHeap(p, memSize) && Align(n) == n <= memSize && n != 0
    requires Index(h.bs, p - HDR) < |h.bs| && h.bs[Index(h.bs, p - HDR)].Data() == n
    ensures Realloc(h, Some(p), n, memSize).0 == h && Realloc(h, Some(p), n, memSize).1 == Some(p)
  {
    ReallocIs(h, p, n, memSize);
  }

  lemma MoveIs(h: Heap, p: int, n: nat, memSize: nat)
    requires InHeap(p, memSize) && Align(n) == n <= memSize && n != 0
    requires var k := Index(h.bs, p - HDR); k < |h.bs| && h.bs[k].Data() != n && n + HDR + MIN >= h.bs[k].Data()
    ensures Realloc(h, Some(p), n, memSize).0 == Move(h, Some(p), n, memSize).0
    ensures Realloc(h, Some(p), n, memSize).1 == Move(h, Some(p), n, memSize).1
  {
    ReallocIs(h, p, n, memSize);
  }

  lemma ShrinkAtIs(h: Heap, k: nat, n: nat, t: Block, r: Block)
    requires k < |h.bs| && n <= h.bs[k].Data()
    requires t == Block(h.bs[k].lo, h.bs[k].lo + HDR + n, true) && r == Block(t.hi, h.bs[k].hi, false)
    ensures var a, c := h.bs[..k] + [t], h.bs[k + 1..];
            ShrinkAt(h, k, n) ==
            Heap(PlugHoles(a, r, c), PlugLfree(a, r, c, h.lfree), h.usedMem - (h.bs[k].Data() - n), h.maxMem)
  {
  }

  lemma FreeAtKeepsUsed(h: Heap, k: nat, b: Block)
    requires k < |h.bs| && b in h.bs && b.used && b != h.bs[k]
    ensures b in FreeAt(h, k).bs
  {
    SplitAt(h.bs, k);
    PlugUsed(h.bs[..k], h.bs[k], h.bs[k + 1..]);
    assert b in h.bs[..k] + h.bs[k + 1..];
  }

  /** rt_free of p leaves every other live block in place. */
  lemma FreeKeepsLive(h: Heap, p: int, memSize: nat)
    requires Inv(h, memSize) && Live(h.bs, p) && InHeap(p, memSize)
    ensures forall b :: b in h.bs && b.used && b.lo + HDR != p ==> b in Free(h, Some(p), memSize).bs
  {
    LiveIndex(h.bs, p, memSize + HDR);
    var k := Index(h.bs, p - HDR);
    FreeIs(h, p, memSize);
    forall b | b in h.bs && b.used && b.lo + HDR != p
      ensures b in Free(h, Some(p), memSize).bs
    {
      FreeAtKeepsUsed(h, k, b);
    }
  }

  lemma TakeReady(h: Heap, a: seq<Block>, b: Block, c: seq<Block>, size: nat, memSize: nat)
    requires h.bs == a + [b] + c && Seg(h.bs, 0, memSize + HDR, false)
    requires !b.used && b.Data() >= size && size % 4 == 0
    ensures h.bs[..|a|] == a && h.bs[|a| + 1..] == c && Top(a, 0) == b.lo
    ensures Seg(a, 0, b.lo, false) && b.lo % 4 == 0 && Seg(c, b.hi, memSize + HDR, false)
    ensures Seg(a + (Take(b, size) + c), 0, memSize + HDR, false)
    ensures MallocAt(h, |a|, size, memSize).bs == a + (Take(b, size) + c)
  {
    SegAround(a, b, c, 0, memSize + HDR, false);
    SegWeaken(c, b.hi, memSize + HDR);
    TakeKeeps(a, b, c, size, memSize + HDR);
    assert a + Take(b, size) + c == a + (Take(b, size) + c);
    SegTop(a, 0, false);
  }

  lemma MallocAtIs(h: Heap, a: seq<Block>, b: Block, c: seq<Block>, size: nat, memSize: nat)
    requires h.bs == a + [b] + c && 0 <= b.Data()
    ensures var t := Take(b, size);
            var used := h.usedMem + t[0].Extent();
            MallocAt(h, |a|, size, memSize) ==
            Heap(a + (t + c), if h.lfree == b.lo then NextFree(t + c, memSize + HDR)
                else h.lfree, used, Max(h.maxMem, used))
  {
    assert h.bs[..|a|] == a && h.bs[|a| + 1..] == c;
    assert a + Take(b, size) + c == a + (Take(b, size) + c);
  }

  /** The block handed out by a successful allocation. */
  lemma FreshBlock(h: Heap, size: nat, memSize: nat) returns (t: Block)
    requires Inv(h, memSize) && Malloc(h, size, memSize).1.Some?
    ensures var (g, r) := Malloc(h, size, memSize);
            && t in g.bs && t.used && t.lo + HDR == r.value && r.value + Rounded(size) <= t.hi
            && (forall b :: b in h.bs && b.used ==> b.lo != t.lo)
  {
    MallocFresh(h, size, memSize);
    SegBounds(h.bs, 0, memSize + HDR, false);
    var (g, r) := Malloc(h, size, memSize);
    t :| t in g.bs && t.used && t.lo + HDR == r.value && r.value + Rounded(size) <= t.hi;
  }

  lemma InitialInv(memSize: nat)
    ensures Inv(Initial(memSize), memSize) && LfreeLowest(Initial(memSize).bs, 0)
  {
    var bs := Initial(memSize).bs;
    assert bs[0] in bs && bs[1..] == [];
  }
}
