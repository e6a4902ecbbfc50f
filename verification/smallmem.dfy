/** mem.c as it runs: headers written at offsets of one memory region, the
    static `lfree`, `used_mem` and `max_mem`, and the loops that walk the chain.
    Every operation is proved to do what SmallMemSpec says. */
module SmallMem {
  import opened Options
  import opened Words
  import opened SmallMemSpec
  import opened SmallMemProofs
  import B = SmallMemBlocks

  const HEAP_MAGIC := 0x1ea0

  datatype Header = Header(magic: int, used: bool, next: nat, prev: nat)

  /** Writing a header destroys every header it overlaps. */
  function Put(hdr: map<nat, Header>, at: nat, h: Header): map<nat, Header> {
    (map x | x in hdr && (x + HDR <= at || at + HDR <= x) :: hdr[x])[at := h]
  }

  /** The headers of consecutive blocks; `prev` is the header below the first. */
  ghost predicate Linked(bs: seq<Block>, prev: nat, hdr: map<nat, Header>) {
    bs == [] ||
    (bs[0].lo in hdr && hdr[bs[0].lo] == Header(HEAP_MAGIC, bs[0].used, bs[0].hi, prev) &&
     Linked(bs[1..], bs[0].lo, hdr))
  }

  ghost function LastLo(bs: seq<Block>, prev: nat): nat {
    if bs == [] then prev else bs[|bs| - 1].lo
  }

  /** heap_end: always used, its own successor; its `prev` is not kept up to date. */
  ghost predicate EndOk(hdr: map<nat, Header>, end: nat) {
    end in hdr && hdr[end].used && hdr[end].next == end
  }

  /** The data of the used blocks is the same in both memories. */
  ghost predicate SamePayload(bs: seq<Block>, m: seq<byte>, m': seq<byte>) {
    |m| == |m'| &&
    forall b, i {:trigger b in bs, m'[i]} :: b in bs && b.used && b.lo + HDR <= i < b.hi && i < |m| ==> m[i] == m'[i]
  }

  lemma {:induction false} LinkedConcat(a: seq<Block>, b: seq<Block>, prev: nat, hdr: map<nat, Header>)
    ensures Linked(a + b, prev, hdr) <==> Linked(a, prev, hdr) && Linked(b, LastLo(a, prev), hdr)
  {
    if a == [] {
      assert a + b == b;
    } else {
      LinkedConcat(a[1..], b, a[0].lo, hdr);
      assert (a + b)[1..] == a[1..] + b;
    }
  }

  lemma LinkedAround(a: seq<Block>, b: Block, c: seq<Block>, hdr: map<nat, Header>)
    ensures Linked(a + [b] + c, 0, hdr) <==>
            && Linked(a, 0, hdr) && b.lo in hdr && hdr[b.lo] == Header(HEAP_MAGIC, b.used, b.hi, LastLo(a, 0))
            && Linked(c, b.lo, hdr)
  {
    assert a + [b] + c == a + ([b] + c);
    LinkedConcat(a, [b] + c, 0, hdr);
    assert ([b] + c)[1..] == c;
  }

  /** A header written outside a stretch of blocks leaves its headers alone. */
  lemma {:induction false} LinkedFrame(a: seq<Block>, prev: nat, hdr: map<nat, Header>, at: nat, h: Header,
                                       lo: nat, hi: nat, pf: bool)
    requires Linked(a, prev, hdr) && Seg(a, lo, hi, pf)
    requires at + HDR <= lo || hi <= at
    ensures Linked(a, prev, Put(hdr, at, h))
  {
    if a != [] {
      SegBounds(a, lo, hi, pf);
      SegBounds(a[1..], a[0].hi, hi, !a[0].used);
      assert a[0] in a;
      LinkedFrame(a[1..], a[0].lo, hdr, at, h, a[0].hi, hi, !a[0].used);
    }
  }

  /** The header a walk of the chain reads after the blocks `a`. */
  lemma HeaderAt(a: seq<Block>, c: seq<Block>, hdr: map<nat, Header>, end: nat)
    requires Seg(a + c, 0, end, false) && Linked(a + c, 0, hdr) && EndOk(hdr, end)
    ensures var p := Top(a, 0);
            p in hdr && p <= end && (c == [] ==> p == end)
    ensures c != [] ==>
              var p := Top(a, 0);
              && p == c[0].lo < c[0].hi <= end && 0 <= c[0].Data()
              && hdr[p].magic == HEAP_MAGIC && hdr[p].used == c[0].used && hdr[p].next == c[0].hi
              && a + c == (a + [c[0]]) + c[1..] && Top(a + [c[0]], 0) == c[0].hi
  {
    WalkAt(a, c, end);
    LinkedConcat(a, c, 0, hdr);
  }

  /** Changing the `prev` of the first block of a stretch. */
  lemma LinkedReprev(c: seq<Block>, prev: nat, prev': nat, hdr: map<nat, Header>, lo: nat, hi: nat, pf: bool)
    requires c != [] && Linked(c, prev, hdr) && Seg(c, lo, hi, pf)
    ensures Linked(c, prev', Put(hdr, lo, hdr[lo].(prev := prev')))
  {
    LinkedFrame(c[1..], c[0].lo, hdr, lo, hdr[lo].(prev := prev'), c[0].hi, hi, !c[0].used);
  }

  /** No byte of a used block's data lies in the header written at `at`. */
  ghost predicate Clear(s: seq<Block>, at: nat) {
    forall b :: b in s && b.used ==> at <= b.lo || b.hi <= at
  }

  lemma ClearSeg(s: seq<Block>, lo: nat, hi: nat, pf: bool, at: nat)
    requires Seg(s, lo, hi, pf) && (at <= lo || hi <= at)
    ensures Clear(s, at)
  {
    SegBounds(s, lo, hi, pf);
  }

  ghost predicate OnlyHeader(m: seq<byte>, m': seq<byte>, at: nat) {
    |m| == |m'| && forall i :: 0 <= i < |m| && !(at <= i < at + HDR) ==> m[i] == m'[i]
  }

  lemma PayloadStep(s: seq<Block>, m: seq<byte>, m': seq<byte>, m'': seq<byte>, at: nat)
    requires SamePayload(s, m, m') && OnlyHeader(m', m'', at) && Clear(s, at)
    ensures SamePayload(s, m, m'')
  {
    forall b, i | b in s && b.used && b.lo + HDR <= i < b.hi && i < |m|
      ensures m[i] == m''[i]
    {
      assert m[i] == m'[i];
    }
  }

  lemma PayloadTrans(s: seq<Block>, t: seq<Block>, m: seq<byte>, m': seq<byte>, m'': seq<byte>)
    requires SamePayload(s, m, m') && SamePayload(t, m', m'')
    requires forall b :: b in s && b.used ==> b in t
    ensures SamePayload(s, m, m'')
  {
    forall b, i | b in s && b.used && b.lo + HDR <= i < b.hi && i < |m|
      ensures m[i] == m''[i]
    {
      assert m[i] == m'[i];
      assert b in t;
    }
  }

  lemma ClearCut(a: seq<Block>, t: Block, c: seq<Block>, lo: nat, hi: nat, end: nat)
    requires Seg(a, 0, t.lo, false) && t.lo + HDR <= t.hi == lo <= hi && Seg(c, hi, end, false)
    ensures Clear(a + [t] + c, t.lo) && Clear(a + [t] + c, lo) && Clear(a + [t] + c, hi)
  {
    SegBounds(a, 0, t.lo, false);
    SegBounds(c, hi, end, false);
  }

  lemma CutChain(a: seq<Block>, t: Block, r: Block, c: seq<Block>, hdr: map<nat, Header>)
    requires Linked(a, 0, hdr) && Linked(c, r.lo, hdr) && t.lo in hdr && r.lo in hdr
    requires hdr[t.lo] == Header(HEAP_MAGIC, t.used, t.hi, LastLo(a, 0))
    requires hdr[r.lo] == Header(HEAP_MAGIC, r.used, r.hi, t.lo)
    requires Seg(a, 0, t.lo, false) && t.lo + HDR <= t.hi && t.lo % 4 == 0 && t.used
    ensures Linked(a + [t] + [r] + c, 0, hdr) && Seg(a + [t], 0, t.hi, false)
  {
    LinkedAround(a, t, [], hdr);
    SegAround(a, t, [], 0, t.hi, false);
    assert a + [t] + [] == a + [t];
    LinkedAround(a + [t], r, c, hdr);
  }

  /** Every live block but p keeps its data. */
  ghost predicate Others(bs: seq<Block>, p: Option<int>, m: seq<byte>, m': seq<byte>) {
    && |m| == |m'|
    && forall b, i {:trigger b in bs, m'[i]} ::
         b in bs && b.used && (p.Some? ==> p.value != b.lo + HDR) && b.lo + HDR <= i < b.hi && i < |m| ==> m[i] == m'[i]
  }

  /** The data size of the live block at p. */
  ghost function DataOf(bs: seq<Block>, p: int): int {
    var k := Index(bs, p - HDR);
    if k < |bs| then bs[k].Data() else 0
  }

  lemma HeldAt(g: Heap, t: Block, memSize: nat)
    requires Inv(g, memSize) && t in g.bs
    ensures DataOf(g.bs, t.lo + HDR) == t.Data()
  {
    var k :| 0 <= k < |g.bs| && g.bs[k] == t;
    SplitAt(g.bs, k);
    IndexUnique(g.bs[..k], t, g.bs[k + 1..], 0, memSize + HDR, false);
  }

  lemma MallocHolds(h: Heap, size: nat, memSize: nat)
    requires Inv(h, memSize)
    ensures var (g, q) := SmallMemSpec.Malloc(h, size, memSize);
            q.Some? ==> Live(g.bs, q.value) && Align(size) <= DataOf(g.bs, q.value)
  {
    var (g, q) := SmallMemSpec.Malloc(h, size, memSize);
    if q.Some? {
      B.MallocServes(h, size, memSize);
      B.MallocInv(h, size, memSize);
      var t :| B.PutToUse(h.bs, g.bs, t, Rounded(size)) && t.lo + HDR == q.value;
      HeldAt(g, t, memSize);
    }
  }

  lemma ReallocHolds(h: Heap, p: Option<int>, newsize: nat, memSize: nat, g: Heap, q: Option<int>)
    requires Inv(h, memSize) && Inv(g, memSize) && (p.Some? && InHeap(p.value, memSize) ==> Live(h.bs, p.value))
    requires g == SmallMemSpec.Realloc(h, p, newsize, memSize).0 && q == SmallMemSpec.Realloc(h, p, newsize, memSize).1
    ensures q.Some? && (p.Some? ==> InHeap(p.value, memSize)) ==>
              Live(g.bs, q.value) && Align(newsize) <= DataOf(g.bs, q.value)
  {
    if q.Some? && Align(newsize) != 0 {
      if p.None? {
        AlignTwice(newsize);
        MallocHolds(h, Align(newsize), memSize);
      } else if InHeap(p.value, memSize) {
        B.ReallocServes(h, p.value, newsize, memSize);
        AnswerHolds(h, g, p.value, q, Align(newsize), memSize);
      }
    }
  }

  lemma AnswerHolds(h: Heap, g: Heap, p: int, q: Option<int>, n: nat, memSize: nat)
    requires Inv(g, memSize) && q.Some?
    requires exists b :: b in B.Used(h.bs) && b.lo + HDR == p && B.Answers(h.bs, g.bs, q, b, n)
    ensures Live(g.bs, q.value) && n <= DataOf(g.bs, q.value)
  {
    var b :| b in B.Used(h.bs) && b.lo + HDR == p && B.Answers(h.bs, g.bs, q, b, n);
    var t :| B.Resized(h.bs, g.bs, b, t, n) && t.lo + HDR == q.value;
    HeldAt(g, t, memSize);
  }

  lemma OthersFrom(s: seq<Block>, t: seq<Block>, p: Option<int>, m: seq<byte>, m': seq<byte>)
    requires SamePayload(t, m, m')
    requires forall b :: b in s && b.used && (p.Some? ==> p.value != b.lo + HDR) ==> b in t
    ensures Others(s, p, m, m')
  {
    forall b, i | b in s && b.used && (p.Some? ==> p.value != b.lo + HDR) && b.lo + HDR <= i < b.hi && i < |m|
      ensures m[i] == m'[i]
    {
      assert b in t;
    }
  }

  lemma OthersTrans(s: seq<Block>, t: seq<Block>, p: int, m: seq<byte>, m': seq<byte>, m'': seq<byte>)
    requires Others(s, Some(p), m, m') && SamePayload(t, m', m'')
    requires forall b :: b in s && b.used && b.lo + HDR != p ==> b in t
    ensures Others(s, Some(p), m, m'')
  {
    forall b, i | b in s && b.used && p != b.lo + HDR && b.lo + HDR <= i < b.hi && i < |m|
      ensures m[i] == m''[i]
    {
      assert b in t;
      assert m[i] == m'[i];
    }
  }

  /** A copy into a block that overlaps no live block. */
  lemma CopiedOthers(s: seq<Block>, p: int, q: nat, n: nat, m: seq<byte>, m': seq<byte>, m'': seq<byte>)
    requires SamePayload(s, m, m') && |m''| == |m'|
    requires forall i :: 0 <= i < |m''| && !(q <= i < q + n) ==> m''[i] == m'[i]
    requires forall b :: b in s && b.used ==> b.hi <= q - HDR || q + n <= b.lo
    ensures Others(s, Some(p), m, m'')
  {
    forall b, i | b in s && b.used && p != b.lo + HDR && b.lo + HDR <= i < b.hi && i < |m|
      ensures m[i] == m''[i]
    {
      assert m[i] == m'[i];
    }
  }

  /** What a cut of block k to n data bytes keeps. */
  lemma ShrunkData(bs: seq<Block>, k: nat, n: nat, end: nat, m: seq<byte>, m': seq<byte>)
    requires Layout(bs, end) && k < |bs| && bs[k].used && n <= bs[k].Data() && |m| == end + HDR
    requires SamePayload(bs[..k] + [Block(bs[k].lo, bs[k].lo + HDR + n, true)] + bs[k + 1..], m, m')
    ensures Others(bs, Some(bs[k].lo + HDR), m, m')
    ensures KeptData(m, bs[k].lo + HDR, m', bs[k].lo + HDR, n)
  {
    var t := Block(bs[k].lo, bs[k].lo + HDR + n, true);
    var u := bs[..k] + [t] + bs[k + 1..];
    SplitAt(bs, k);
    SegBounds(bs, 0, end, false);
    OthersFrom(bs, u, Some(bs[k].lo + HDR), m, m');
    assert bs[k] in bs && t in u;
  }

  class SmallHeap {
    var hdr: map<nat, Header>
    var bytes: seq<byte>
    var lfree: nat
    var usedMem: int
    var maxMem: int
    const memSize: nat
    ghost var bs: seq<Block>

    ghost function Abs(): Heap
      reads this
    {
      Heap(bs, lfree, usedMem, maxMem)
    }

    ghost predicate Valid()
      reads this
    {
      Inv(Abs(), memSize) && Wired()
    }

    /** The headers in memory spell out the chain. */
    ghost predicate Wired()
      reads this
    {
      && Linked(bs, 0, hdr) && EndOk(hdr, memSize + HDR)
      && |bytes| == memSize + 2 * HDR && memSize % 4 == 0
    }

    /** Write one header; its bytes are whatever its encoding is. */
    method PutHeader(at: nat, h: Header)
      requires at + HDR <= |bytes|
      modifies this`hdr, this`bytes
      ensures hdr == Put(old(hdr), at, h)
      ensures OnlyHeader(old(bytes), bytes, at)
    {
      hdr := Put(hdr, at, h);
      var enc: seq<byte> :| |enc| == HDR by { assert |seq(HDR, _ => 0 as byte)| == HDR; }
      bytes := bytes[..at] + enc + bytes[at + HDR..];
    }

    /** The chain without the statistics: what plug_holes needs and restores. */
    ghost predicate Chained(a: seq<Block>, b: Block, c: seq<Block>)
      reads this
    {
      && Seg(a, 0, b.lo, false) && b.lo + HDR <= b.hi && b.lo % 4 == 0 && Seg(c, b.hi, memSize + HDR, false)
      && Linked(a + [b] + c, 0, hdr) && EndOk(hdr, memSize + HDR) && |bytes| == memSize + 2 * HDR
    }

    /** Linked stretches below `lo` and from `hi` to the end of the heap. */
    ghost predicate Around(a: seq<Block>, lo: nat, c: seq<Block>, hi: nat, prev: nat)
      reads this
    {
      && Seg(a, 0, lo, false) && lo <= hi && Seg(c, hi, memSize + HDR, false)
      && Linked(a, 0, hdr) && Linked(c, prev, hdr)
      && EndOk(hdr, memSize + HDR) && |bytes| == memSize + 2 * HDR
    }

    /** The chain taken apart around block k. */
    lemma ChainedAt(k: nat)
      requires Wired() && Seg(bs, 0, memSize + HDR, false) && k < |bs|
      ensures bs[k].used ==> Chained(bs[..k], bs[k], bs[k + 1..])
      ensures bs[k].lo in hdr && hdr[bs[k].lo].next == bs[k].hi <= memSize + HDR && bs[k].lo + HDR <= bs[k].hi
    {
      SplitAt(bs, k);
      SegAround(bs[..k], bs[k], bs[k + 1..], 0, memSize + HDR, false);
      LinkedAround(bs[..k], bs[k], bs[k + 1..], hdr);
      SegBounds(bs[k + 1..], bs[k].hi, memSize + HDR, !bs[k].used);
    }

    /** Write a header between two stretches of blocks. */
    method PutBetween(at: nat, h: Header, ghost a: seq<Block>, ghost lo: nat, ghost c: seq<Block>, ghost hi: nat,
                      ghost prev: nat)
      requires Around(a, lo, c, hi, prev) && lo <= at && at + HDR <= hi
      modifies this`hdr, this`bytes
      ensures hdr == Put(old(hdr), at, h) && Around(a, lo, c, hi, prev)
      ensures OnlyHeader(old(bytes), bytes, at) && SamePayload(a + c, old(bytes), bytes)
    {
      SegBounds(c, hi, memSize + HDR, false);
      ClearSeg(a, 0, lo, false, at);
      ClearSeg(c, hi, memSize + HDR, false, at);
      LinkedFrame(a, 0, hdr, at, h, 0, lo, false);
      LinkedFrame(c, prev, hdr, at, h, hi, memSize + HDR, false);
      PutHeader(at, h);
      PayloadStep(a + c, old(bytes), old(bytes), bytes, at);
    }

    /** Let the first block of the upper stretch, or heap_end, point back to `p`. */
    method SetPrev(at: nat, p: nat, ghost a: seq<Block>, ghost lo: nat, ghost c: seq<Block>, ghost prev: nat)
      requires Around(a, lo, c, at, prev)
      modifies this`hdr, this`bytes
      ensures at in old(hdr) && hdr == Put(old(hdr), at, old(hdr)[at].(prev := p)) && Around(a, lo, c, at, p)
      ensures OnlyHeader(old(bytes), bytes, at) && SamePayload(a + c, old(bytes), bytes)
    {
      SegBounds(c, at, memSize + HDR, false);
      ClearSeg(a, 0, lo, false, at);
      ClearSeg(c, at, memSize + HDR, false, at);
      LinkedFrame(a, 0, hdr, at, hdr[at].(prev := p), 0, lo, false);
      if c != [] {
        LinkedReprev(c, prev, p, hdr, at, memSize + HDR, false);
        SegBounds(c[1..], c[0].hi, memSize + HDR, !c[0].used);
      }
      PutHeader(at, hdr[at].(prev := p));
      PayloadStep(a + c, old(bytes), old(bytes), bytes, at);
    }

    /** Merge the hole b with the free block that follows it. */
    method PlugForwardStep(mem: nat, nmem: nat, ghost a: seq<Block>, ghost b: Block, ghost c: seq<Block>)
      requires Chained(a, b, c) && !b.used && c != [] && !c[0].used && mem == b.lo && nmem == c[0].lo
      modifies this`hdr, this`bytes
      ensures Chained(a, Block(b.lo, c[0].hi, false), c[1..])
      ensures SamePayload(a + c[1..], old(bytes), bytes)
    {
      LinkedAround(a, b, c, hdr);
      var nnext := hdr[nmem].next;
      SegWeaken(c[1..], c[0].hi, memSize + HDR);
      PutBetween(mem, hdr[mem].(next := nnext), a, b.lo, c[1..], c[0].hi, nmem);
      label L:
      SetPrev(nnext, mem, a, b.lo, c[1..], nmem);
      PayloadTrans(a + c[1..], a + c[1..], old(bytes), old@L(bytes), bytes);
      LinkedAround(a, Block(b.lo, c[0].hi, false), c[1..], hdr);
    }

    /** Merge the hole b into the free block below it. */
    method PlugBackwardStep(mem: nat, pmem: nat, ghost a: seq<Block>, ghost p: Block, ghost b: Block,
                            ghost c: seq<Block>)
      requires Chained(a + [p], b, c) && !b.used && !p.used && mem == b.lo && pmem == p.lo
      modifies this`hdr, this`bytes
      ensures Chained(a, Block(p.lo, b.hi, false), c)
      ensures SamePayload(a + c, old(bytes), bytes)
    {
      LinkedAround(a + [p], b, c, hdr);
      assert a + [p] + [] == a + [p];
      SegAround(a, p, [], 0, b.lo, false);
      LinkedAround(a, p, [], hdr);
      var next := hdr[mem].next;
      PutBetween(pmem, hdr[pmem].(next := next), a, p.lo, c, b.hi, mem);
      label L:
      SetPrev(next, pmem, a, p.lo, c, mem);
      PayloadTrans(a + c, a + c, old(bytes), old@L(bytes), bytes);
      LinkedAround(a, Block(p.lo, b.hi, false), c, hdr);
    }

    /** The forward half of plug_holes. */
    method PlugNext(mem: nat, ghost a: seq<Block>, ghost b: Block, ghost c: seq<Block>)
      returns (ghost b': Block, ghost c': seq<Block>)
      requires Chained(a, b, c) && !b.used && mem == b.lo
      modifies this`hdr, this`bytes, this`lfree
      ensures Chained(a, b', c') && SamePayload(a + c, old(bytes), bytes)
      ensures if c != [] && !c[0].used
              then b' == Block(b.lo, c[0].hi, false) && c' == c[1..] &&
                lfree == (if old(lfree) == c[0].lo then b.lo else old(lfree))
              else b' == b && c' == c && lfree == old(lfree)
    {
      LinkedAround(a, b, c, hdr);
      SegBounds(c, b.hi, memSize + HDR, false);
      var nmem := hdr[mem].next;
      b', c' := b, c;
      if mem != nmem && !hdr[nmem].used && nmem != memSize + HDR {
        if lfree == nmem { lfree := mem; }
        assert c == [c[0]] + c[1..];
        PlugForwardStep(mem, nmem, a, b, c);
        b', c' := Block(b.lo, c[0].hi, false), c[1..];
      }
      PayloadTrans(a + c, a + c', old(bytes), old(bytes), bytes);
    }

    /** The backward half of plug_holes. */
    method PlugPrev(mem: nat, ghost a: seq<Block>, ghost b: Block, ghost c: seq<Block>)
      requires Chained(a, b, c) && !b.used && mem == b.lo
      modifies this`hdr, this`bytes, this`lfree
      ensures EndOk(hdr, memSize + HDR) && |bytes| == memSize + 2 * HDR && SamePayload(a + c, old(bytes), bytes)
      ensures if a != [] && !a[|a| - 1].used
              then Linked(a[..|a| - 1] + [Block(a[|a| - 1].lo, b.hi, false)] + c, 0, hdr)
                   && lfree == (if old(lfree) == b.lo then a[|a| - 1].lo else old(lfree))
              else Linked(a + [b] + c, 0, hdr) && lfree == old(lfree)
    {
      LinkedAround(a, b, c, hdr);
      SegBounds(a, 0, b.lo, false);
      var pmem := hdr[mem].prev;
      if a != [] {
        SplitLast(a);
        LinkedAround(a[..|a| - 1], a[|a| - 1], [], hdr);
        assert a[..|a| - 1] + [a[|a| - 1]] + [] == a;
      }
      if pmem != mem && !hdr[pmem].used {
        if lfree == mem { lfree := pmem; }
        PlugBackwardStep(mem, pmem, a[..|a| - 1], a[|a| - 1], b, c);
        PayloadTrans(a + c, a[..|a| - 1] + c, old(bytes), old(bytes), bytes);
      }
    }

    /** plug_holes. */
    method PlugHoles(mem: nat, ghost a: seq<Block>, ghost b: Block, ghost c: seq<Block>)
      requires Chained(a, b, c) && !b.used && mem == b.lo
      modifies this`hdr, this`bytes, this`lfree
      ensures Linked(SmallMemSpec.PlugHoles(a, b, c), 0, hdr) && EndOk(hdr, memSize + HDR)
      ensures |bytes| == memSize + 2 * HDR
      ensures lfree == PlugLfree(a, b, c, old(lfree))
      ensures SamePayload(a + c, old(bytes), bytes)
    {
      ghost var b', c' := PlugNext(mem, a, b, c);
      label L:
      PlugPrev(mem, a, b', c');
      if c != [] { assert c == [c[0]] + c[1..]; }
      PayloadTrans(a + c, a + c', old(bytes), old@L(bytes), bytes);
    }

    /** Cut block b: `size` data bytes in use, then a free remainder. */
    method CutBlock(ptr: nat, size: nat, ghost a: seq<Block>, ghost b: Block, ghost c: seq<Block>)
      requires Chained(a, b, c) && ptr == b.lo && size % 4 == 0 && b.Data() >= size + HDR
      modifies this`hdr, this`bytes
      ensures var t := Block(b.lo, b.lo + HDR + size, true);
              Chained(a + [t], Block(t.hi, b.hi, false), c) && SamePayload(a + [t] + c, old(bytes), bytes)
    {
      var ptr2 := ptr + HDR + size;
      ghost var t, r := Block(b.lo, ptr2, true), Block(ptr2, b.hi, false);
      LinkedAround(a, b, c, hdr);
      var mem := hdr[ptr];
      CutHeaders(ptr, ptr2, mem, a, b, c);
      label M:
      LinkBack(mem.next, ptr2, a, t, c, b.hi);
      PayloadTrans(a + [t] + c, a + [t] + c, old(bytes), old@M(bytes), bytes);
      CutChain(a, t, r, c, hdr);
    }

    /** Let the block above a cut, if any, point back to the remainder. */
    method LinkBack(next: nat, ptr2: nat, ghost a: seq<Block>, ghost t: Block, ghost c: seq<Block>, ghost hi: nat)
      requires Around(a, t.lo, c, hi, t.lo) && next == hi && t.lo + HDR <= t.hi == ptr2 && ptr2 + HDR <= hi
      requires t.lo in hdr && ptr2 in hdr
      modifies this`hdr, this`bytes
      ensures Around(a, t.lo, c, hi, ptr2) && SamePayload(a + [t] + c, old(bytes), bytes)
      ensures t.lo in hdr && ptr2 in hdr && hdr[t.lo] == old(hdr)[t.lo] && hdr[ptr2] == old(hdr)[ptr2]
    {
      EmptyAtEnd(c, hi, memSize + HDR, false);
      if next != memSize + HDR {
        SetPrev(next, ptr2, a, t.lo, c, t.lo);
        ClearCut(a, t, c, ptr2, hi, memSize + HDR);
        PayloadStep(a + [t] + c, old(bytes), old(bytes), bytes, hi);
      }
    }

    /** The two headers a cut writes. */
    method CutHeaders(ptr: nat, ptr2: nat, mem: Header, ghost a: seq<Block>, ghost b: Block, ghost c: seq<Block>)
      requires Around(a, b.lo, c, b.hi, b.lo) && ptr == b.lo && ptr + HDR <= ptr2 && ptr2 + HDR <= b.hi
      modifies this`hdr, this`bytes
      ensures Around(a, b.lo, c, b.hi, b.lo)
      ensures ptr in hdr && hdr[ptr] == Header(HEAP_MAGIC, true, ptr2, mem.prev)
      ensures ptr2 in hdr && hdr[ptr2] == Header(HEAP_MAGIC, false, mem.next, ptr)
      ensures SamePayload(a + [Block(ptr, ptr2, true)] + c, old(bytes), bytes)
    {
      ghost var t := Block(ptr, ptr2, true);
      ClearCut(a, t, c, ptr2, b.hi, memSize + HDR);
      PutBetween(ptr2, Header(HEAP_MAGIC, false, mem.next, ptr), a, b.lo, c, b.hi, ptr);
      PayloadStep(a + [t] + c, old(bytes), old(bytes), bytes, ptr2);
      label L:
      PutBetween(ptr, Header(HEAP_MAGIC, true, ptr2, mem.prev), a, b.lo, c, b.hi, ptr);
      PayloadStep(a + [t] + c, old(bytes), old@L(bytes), bytes, ptr);
    }

    /** Take the free block b into use, cutting it when the remainder can hold a block. */
    method TakeBlock(ptr: nat, size: nat, ghost a: seq<Block>, ghost b: Block, ghost c: seq<Block>)
      requires Chained(a, b, c) && !b.used && ptr == b.lo && b.Data() >= size && size % 4 == 0
      modifies this`hdr, this`bytes, this`usedMem, this`maxMem
      ensures Linked(a + (Take(b, size) + c), 0, hdr) && EndOk(hdr, memSize + HDR) && |bytes| == memSize + 2 * HDR
      ensures usedMem == old(usedMem) + Take(b, size)[0].Extent() && maxMem == Max(old(maxMem), usedMem)
      ensures SamePayload(a + c, old(bytes), bytes)
    {
      LinkedAround(a, b, c, hdr);
      if hdr[ptr].next - (ptr + HDR) >= size + HDR + MIN {
        TakeCut(ptr, size, a, b, c);
        usedMem := usedMem + (size + HDR);
      } else {
        var next := hdr[ptr].next;
        TakeAll(ptr, a, b, c);
        usedMem := usedMem + (next - ptr);
      }
      if maxMem < usedMem { maxMem := usedMem; }
    }

    method TakeCut(ptr: nat, size: nat, ghost a: seq<Block>, ghost b: Block, ghost c: seq<Block>)
      requires Chained(a, b, c) && ptr == b.lo && Splits(b, size) && size % 4 == 0
      modifies this`hdr, this`bytes
      ensures Linked(a + (Take(b, size) + c), 0, hdr) && EndOk(hdr, memSize + HDR) && |bytes| == memSize + 2 * HDR
      ensures SamePayload(a + c, old(bytes), bytes)
    {
      CutBlock(ptr, size, a, b, c);
      ghost var t, r := Block(b.lo, b.lo + HDR + size, true), Block(b.lo + HDR + size, b.hi, false);
      assert a + (Take(b, size) + c) == (a + [t]) + [r] + c;
      PayloadTrans(a + c, a + [t] + c, old(bytes), old(bytes), bytes);
    }

    method TakeAll(ptr: nat, ghost a: seq<Block>, ghost b: Block, ghost c: seq<Block>)
      requires Chained(a, b, c) && !b.used && ptr == b.lo
      modifies this`hdr, this`bytes
      ensures Linked(a + ([b.(used := true)] + c), 0, hdr) && EndOk(hdr, memSize + HDR) && |bytes| == memSize + 2 * HDR
      ensures SamePayload(a + c, old(bytes), bytes)
    {
      LinkedAround(a, b, c, hdr);
      PutBetween(ptr, hdr[ptr].(used := true), a, b.lo, c, b.hi, ptr);
      LinkedAround(a, b.(used := true), c, hdr);
      assert a + ([b.(used := true)] + c) == a + [b.(used := true)] + c;
    }

    /** The loop that moves `lfree` to the next free block after an allocation. */
    method AdvanceLfree(ghost a: seq<Block>, ghost t: seq<Block>)
      requires Seg(a + t, 0, memSize + HDR, false) && Linked(a + t, 0, hdr) && EndOk(hdr, memSize + HDR)
      requires lfree == Top(a, 0)
      modifies this`lfree
      ensures lfree == NextFree(t, memSize + HDR)
    {
      ghost var x, y := a, t;
      HeaderAt(x, y, hdr, memSize + HDR);
      while hdr[lfree].used && lfree != memSize + HDR
        invariant a + t == x + y && lfree == Top(x, 0) && lfree in hdr
        invariant NextFree(t, memSize + HDR) == NextFree(y, memSize + HDR)
        decreases |y|
      {
        HeaderAt(x, y, hdr, memSize + HDR);
        lfree := hdr[lfree].next;
        x, y := x + [y[0]], y[1..];
        HeaderAt(x, y, hdr, memSize + HDR);
      }
      HeaderAt(x, y, hdr, memSize + HDR);
    }

    /** rt_system_heap_init on the region [begin, end). */
    constructor (begin: nat, end: nat)
      requires end / 4 * 4 - (begin + 3) / 4 * 4 >= 2 * HDR
      ensures Valid() && Abs() == Initial(memSize)
      ensures memSize == end / 4 * 4 - (begin + 3) / 4 * 4 - 2 * HDR
    {
      memSize := end / 4 * 4 - (begin + 3) / 4 * 4 - 2 * HDR;
      var next := end / 4 * 4 - (begin + 3) / 4 * 4 - HDR;
      hdr := map[0 := Header(HEAP_MAGIC, false, next, 0), next := Header(HEAP_MAGIC, true, next, next)];
      bytes := seq(end / 4 * 4 - (begin + 3) / 4 * 4, _ => 0);
      lfree, usedMem, maxMem := 0, 0, 0;
      bs := [Block(0, next, false)];
      new;
      InitialInv(memSize);
    }

    /** Take the fitting block and move `lfree` on if it was the lowest. */
    method AllocHere(ptr: nat, size: nat, ghost a: seq<Block>, ghost b: Block, ghost c: seq<Block>)
      requires Wired() && Seg(bs, 0, memSize + HDR, false) && bs == a + [b] + c
      requires ptr == b.lo && !b.used && b.Data() >= size && size % 4 == 0
      modifies this
      ensures Wired() && Abs() == MallocAt(old(Abs()), |a|, size, memSize)
      ensures SamePayload(old(bs), old(bytes), bytes)
    {
      ghost var t := Take(b, size);
      TakeReady(Abs(), a, b, c, size, memSize);
      MallocAtIs(Abs(), a, b, c, size, memSize);
      TakeBlock(ptr, size, a, b, c);
      PayloadTrans(bs, a + c, old(bytes), old(bytes), bytes);
      bs := a + (t + c);
      if ptr == lfree {
        AdvanceLfree(a, t + c);
      }
    }

    /** The first-fit walk of rt_malloc, from `lfree` up; `ptr` is past every fit if there is none. */
    method Walk(sz: nat) returns (ptr: nat, found: bool, ghost a: seq<Block>, ghost c: seq<Block>)
      requires Valid() && sz <= memSize
      ensures bs == a + c && FirstFit(bs, lfree, sz, memSize) == (if found then |a| else |bs|)
      ensures found ==> c != [] && bs == a + [c[0]] + c[1..] && ptr == c[0].lo && !c[0].used && c[0].Data() >= sz
    {
      ghost var end := memSize + HDR;
      ptr, found := lfree, false;
      a, c := BelowLfree(bs, lfree, end);
      HeaderAt(a, c, hdr, end);
      while ptr < memSize - sz
        invariant bs == a + c && lfree <= ptr == Top(a, 0) && ptr in hdr && (c == [] ==> ptr == end)
        invariant forall b :: b in a ==> !Fits(b, lfree, sz, memSize)
        decreases |c|
      {
        HeaderAt(a, c, hdr, end);
        assert c != [];
        if !hdr[ptr].used && hdr[ptr].next - (ptr + HDR) >= sz {
          FirstFitSkip(a, c, lfree, sz, memSize);
          assert c == [c[0]] + c[1..];
          found := true;
          return;
        }
        ptr := hdr[ptr].next;
        a, c := a + [c[0]], c[1..];
        HeaderAt(a, c, hdr, end);
      }
      WalkAt(a, c, end);
      SegBounds(c, Top(a, 0), end, LastFree(a, false));
      FirstFitSkip(bs, [], lfree, sz, memSize);
      assert bs + [] == bs;
    }

    /** rt_malloc. */
    method Malloc(size: nat) returns (r: Option<int>)
      requires Valid() && Returns(size, memSize)
      modifies this
      ensures Valid()
      ensures Abs() == SmallMemSpec.Malloc(old(Abs()), size, memSize).0 &&
              r == SmallMemSpec.Malloc(old(Abs()), size, memSize).1
      ensures SamePayload(old(bs), old(bytes), bytes)
      ensures r.Some? ==> Live(bs, r.value) && Align(size) <= DataOf(bs, r.value)
    {
      MallocHolds(Abs(), size, memSize);
      if size == 0 { return None; }
      var sz := Align(size);
      if sz > memSize { return None; }
      if sz < MIN { sz := MIN; }
      r := AllocSized(size, sz);
    }

    /** rt_malloc once the size is rounded. */
    method AllocSized(ghost size: nat, sz: nat) returns (r: Option<int>)
      requires Valid() && MIN <= memSize && size != 0 && Align(size) <= memSize && sz == Rounded(size)
      modifies this
      ensures Valid()
      ensures Abs() == SmallMemSpec.Malloc(old(Abs()), size, memSize).0 &&
              r == SmallMemSpec.Malloc(old(Abs()), size, memSize).1
      ensures SamePayload(old(bs), old(bytes), bytes)
    {
      var ptr, found, a, c := Walk(sz);
      if !found {
        NoFitIs(Abs(), size, memSize);
        return None;
      }
      MallocAtKeeps(Abs(), |a|, sz, memSize);
      MallocIs(Abs(), size, |a|, memSize);
      AllocHere(ptr, sz, a, c[0], c[1..]);
      return Some(ptr + HDR);
    }

    /** Mark block b free, before its neighbours are looked at. */
    method MarkFree(mem: nat, ghost a: seq<Block>, ghost b: Block, ghost c: seq<Block>)
      requires Chained(a, b, c) && b.used && mem == b.lo
      modifies this`hdr, this`bytes, this`lfree, this`usedMem
      ensures Chained(a, b.(used := false), c) && usedMem == old(usedMem) - b.Extent()
      ensures lfree == (if b.lo < old(lfree) then b.lo else old(lfree))
      ensures SamePayload(a + c, old(bytes), bytes)
    {
      LinkedAround(a, b, c, hdr);
      assert hdr[mem].used && hdr[mem].magic == HEAP_MAGIC;
      PutBetween(mem, hdr[mem].(used := false, magic := HEAP_MAGIC), a, b.lo, c, b.hi, b.lo);
      LinkedAround(a, b.(used := false), c, hdr);
      if mem < lfree { lfree := mem; }
      usedMem := usedMem - (hdr[mem].next - mem);
    }

    /** Release the used block k. */
    method Release(mem: nat, ghost k: nat)
      requires Wired() && Seg(bs, 0, memSize + HDR, false) && k < |bs| && bs[k].used && mem == bs[k].lo
      modifies this
      ensures Wired() && Abs() == FreeAt(old(Abs()), k)
      ensures SamePayload(bs, old(bytes), bytes)
    {
      ghost var a, b, c := bs[..k], bs[k], bs[k + 1..];
      ChainedAt(k);
      MarkFree(mem, a, b, c);
      label L:
      PlugHoles(mem, a, b.(used := false), c);
      bs := SmallMemSpec.PlugHoles(a, b.(used := false), c);
      PayloadTrans(a + c, a + c, old(bytes), old@L(bytes), bytes);
      PlugUsed(a, b.(used := false), c);
      PayloadTrans(bs, a + c, old(bytes), old(bytes), bytes);
    }

    /** rt_free of RT_NULL, of an address outside the heap, or of a live block. */
    method Free(p: Option<int>)
      requires Valid() && (p.Some? && InHeap(p.value, memSize) ==> Live(bs, p.value))
      modifies this
      ensures Valid() && Abs() == SmallMemSpec.Free(old(Abs()), p, memSize)
      ensures SamePayload(bs, old(bytes), bytes)
    {
      if p == None { return; }
      if p.value < 0 || p.value >= memSize + HDR { return; }
      ghost var k := Index(bs, p.value - HDR);
      LiveIndex(bs, p.value, memSize + HDR);
      FreeIs(Abs(), p.value, memSize);
      FreeAtKeeps(Abs(), k, memSize);
      Release(p.value - HDR, k);
    }

    /** The split path of rt_realloc. */
    method ShrinkBlock(mem: nat, size: nat, n: nat, ghost k: nat)
      requires Wired() && Layout(bs, memSize + HDR)
      requires k < |bs| && bs[k].used && mem == bs[k].lo && size == bs[k].Data() && n % 4 == 0 && n + HDR <= size
      modifies this
      ensures Wired() && Abs() == ShrinkAt(old(Abs()), k, n)
      ensures SamePayload(old(bs)[..k] + [Block(mem, mem + HDR + n, true)] + old(bs)[k + 1..], old(bytes), bytes)
    {
      ghost var a, b, c := bs[..k], bs[k], bs[k + 1..];
      ghost var t, r := Block(b.lo, b.lo + HDR + n, true), Block(b.lo + HDR + n, b.hi, false);
      ChainedAt(k);
      usedMem := usedMem - (size - n);
      CutBlock(mem, n, a, b, c);
      label L:
      PlugHoles(mem + HDR + n, a + [t], r, c);
      PayloadTrans(a + [t] + c, a + [t] + c, old(bytes), old@L(bytes), bytes);
      bs := SmallMemSpec.PlugHoles(a + [t], r, c);
      ShrinkAtIs(old(Abs()), k, n, t, r);
    }

    /** rt_memcpy inside the heap. */
    method CopyBytes(src: nat, dst: nat, n: nat)
      requires src + n <= |bytes| && dst + n <= |bytes|
      modifies this`bytes
      ensures |bytes| == |old(bytes)| && bytes[dst..dst + n] == old(bytes)[src..src + n]
      ensures forall i :: 0 <= i < |bytes| && !(dst <= i < dst + n) ==> bytes[i] == old(bytes)[i]
    {
      bytes := bytes[..dst] + bytes[src..src + n] + bytes[dst + n..];
    }

    /** The data size that the header of block k records. */
    method BlockSize(mem: nat, ghost k: nat) returns (size: nat)
      requires Wired() && Seg(bs, 0, memSize + HDR, false) && k < |bs| && mem == bs[k].lo
      ensures size == bs[k].Data() && mem + HDR + size <= memSize + HDR
    {
      ChainedAt(k);
      size := hdr[mem].next - mem - HDR;
    }

    /** The split path, with what it does to the data. */
    method ShrinkPath(p: nat, size: nat, n: nat, ghost k: nat)
      requires Valid() && InHeap(p, memSize) && 0 < n == Align(n) <= memSize
      requires Index(bs, p - HDR) == k < |bs| && bs[k].used && p == bs[k].lo + HDR && size == bs[k].Data() &&
               n + HDR + MIN < size
      modifies this
      ensures Valid() && Abs() == SmallMemSpec.Realloc(old(Abs()), Some(p), n, memSize).0 &&
              Some(p) == SmallMemSpec.Realloc(old(Abs()), Some(p), n, memSize).1
      ensures Others(old(bs), Some(p), old(bytes), bytes) && KeptData(old(bytes), p, bytes, p, n)
    {
      ShrinkAtKeeps(Abs(), k, n, memSize);
      ShrinkIs(Abs(), p, n, memSize);
      ShrinkBlock(p - HDR, size, n, k);
      ShrunkData(old(bs), k, n, memSize + HDR, old(bytes), bytes);
    }

    /** Copy the data of block b to the block just allocated at q. */
    method CopyTo(p: nat, q: nat, n: nat, ghost s: seq<Block>, ghost b: Block, ghost m: seq<byte>)
      requires Seg(s, 0, memSize + HDR, false) && SamePayload(s, m, bytes) && b in s && b.used && p == b.lo + HDR
      requires n <= b.Data() && q + n <= memSize + HDR <= |bytes|
      requires forall x :: x in s && x.used ==> x.hi <= q - HDR || q + n <= x.lo
      modifies this`bytes
      ensures Others(s, Some(p), m, bytes) && KeptData(m, p, bytes, q, n) && |bytes| == |old(bytes)|
    {
      SegBounds(s, 0, memSize + HDR, false);
      assert bytes[p..p + n] == m[p..p + n];
      CopyBytes(p, q, n);
      CopiedOthers(s, p, q, n, m, old(bytes), bytes);
    }

    /** The path of rt_realloc that moves block b. */
    method MovePath(p: nat, size: nat, n: nat, ghost b: Block) returns (r: Option<int>)
      requires Valid() && MIN <= memSize && b in bs && b.used && p == b.lo + HDR && InHeap(p, memSize) &&
               size == b.Data()
      requires n == Align(n)
      modifies this
      ensures Valid()
      ensures Abs() == Move(old(Abs()), Some(p), n, memSize).0 && r == Move(old(Abs()), Some(p), n, memSize).1
      ensures r.None? ==> Abs() == old(Abs())
      ensures Others(old(bs), Some(p), old(bytes), bytes)
      ensures r.None? ==> SamePayload(old(bs), old(bytes), bytes)
      ensures r.Some? ==> KeptData(old(bytes), p, bytes, r.value, Min(size, n))
    {
      r := Malloc(n);
      if r == None { return; }
      LiveAfterMalloc(old(Abs()), n, p, memSize);
      MallocFresh(old(Abs()), n, memSize);
      ghost var t := FreshBlock(old(Abs()), n, memSize);
      CopyTo(p, r.value, Min(size, n), old(bs), b, old(bytes));
      FreeCopied(p, r.value, Min(size, n), old(bs), t, old(bytes));
    }

    /** Free the block whose data was copied to block t. */
    method FreeCopied(p: nat, q: nat, n: nat, ghost s: seq<Block>, ghost t: Block, ghost m: seq<byte>)
      requires Valid() && Live(bs, p) && InHeap(p, memSize)
      requires t in bs && t.used && t.lo + HDR == q != p && q + n <= t.hi
      requires forall x :: x in s && x.used ==> x in bs
      requires Others(s, Some(p), m, bytes) && KeptData(m, p, bytes, q, n)
      modifies this
      ensures Valid() && Abs() == SmallMemSpec.Free(old(Abs()), Some(p), memSize)
      ensures Others(s, Some(p), m, bytes) && KeptData(m, p, bytes, q, n)
    {
      FreeKeepsLive(Abs(), p, memSize);
      Free(Some(p));
      assert t in bs;
      assert bytes[q..q + n] == old(bytes)[q..q + n];
      OthersTrans(s, bs, p, m, old(bytes), bytes);
    }

    /** rt_realloc. The data survives, the block returned holds the new size, the other
        live blocks are not disturbed, and on failure nothing has changed. */
    method Realloc(p: Option<int>, newsize: nat) returns (r: Option<int>)
      requires Valid() && ReallocReturns(Abs(), p, newsize, memSize) &&
               (p.Some? && InHeap(p.value, memSize) ==> Live(bs, p.value))
      modifies this
      ensures Valid() && Abs() == SmallMemSpec.Realloc(old(Abs()), p, newsize, memSize).0 &&
              r == SmallMemSpec.Realloc(old(Abs()), p, newsize, memSize).1
      ensures Others(old(bs), p, old(bytes), bytes)
      ensures r.None? && Align(newsize) != 0 ==> Abs() == old(Abs()) && SamePayload(old(bs), old(bytes), bytes)
      ensures p.Some? && InHeap(p.value, memSize) && r.Some? ==>
                KeptData(old(bytes), p.value, bytes, r.value, Min(DataOf(old(bs), p.value), Align(newsize)))
      ensures r.Some? && (p.Some? ==> InHeap(p.value, memSize)) ==>
                Live(bs, r.value) && Align(newsize) <= DataOf(bs, r.value)
    {
      r := ReallocPaths(p, newsize);
      ReallocHolds(old(Abs()), p, newsize, memSize, Abs(), r);
    }

    /** The paths of rt_realloc. */
    method ReallocPaths(p: Option<int>, newsize: nat) returns (r: Option<int>)
      requires Valid() && ReallocReturns(Abs(), p, newsize, memSize) &&
               (p.Some? && InHeap(p.value, memSize) ==> Live(bs, p.value))
      modifies this
      ensures Valid() && Abs() == SmallMemSpec.Realloc(old(Abs()), p, newsize, memSize).0 &&
              r == SmallMemSpec.Realloc(old(Abs()), p, newsize, memSize).1
      ensures Others(old(bs), p, old(bytes), bytes)
      ensures r.None? && Align(newsize) != 0 ==> Abs() == old(Abs()) && SamePayload(old(bs), old(bytes), bytes)
      ensures p.Some? && InHeap(p.value, memSize) && r.Some? ==>
                KeptData(old(bytes), p.value, bytes, r.value, Min(DataOf(old(bs), p.value), Align(newsize)))
    {
      var n := Align(newsize);
      if n > memSize { return None; }
      if n == 0 {
        if p.Some? && InHeap(p.value, memSize) { FreeKeepsLive(Abs(), p.value, memSize); }
        Free(p);
        OthersFrom(old(bs), bs, p, old(bytes), bytes);
        return None;
      }
      if p == None {
        r := Malloc(n);
        return;
      }
      if p.value < 0 || p.value >= memSize + HDR { return p; }
      r := ReallocLive(p.value, n);
    }

    /** rt_realloc of a live block to a non-zero aligned size. */
    method ReallocLive(p: nat, n: nat) returns (r: Option<int>)
      requires Valid() && Live(bs, p) && InHeap(p, memSize) && 0 < n == Align(n) <= memSize
      requires MIN <= memSize || Settles(Abs(), Index(bs, p - HDR), n)
      modifies this
      ensures Valid() && Abs() == SmallMemSpec.Realloc(old(Abs()), Some(p), n, memSize).0 &&
              r == SmallMemSpec.Realloc(old(Abs()), Some(p), n, memSize).1
      ensures Others(old(bs), Some(p), old(bytes), bytes)
      ensures r.None? ==> Abs() == old(Abs()) && SamePayload(old(bs), old(bytes), bytes)
      ensures r.Some? ==> KeptData(old(bytes), p, bytes, r.value, Min(DataOf(old(bs), p), n))
    {
      ghost var k := Index(bs, p - HDR);
      LiveIndex(bs, p, memSize + HDR);
      var mem := p - HDR;
      var size := BlockSize(mem, k);
      if size == n {
        StayIs(Abs(), p, n, memSize);
        return Some(p);
      }
      if n + HDR + MIN < size {
        ShrinkPath(p, size, n, k);
        return Some(p);
      }
      MoveIs(Abs(), p, n, memSize);
      r := MovePath(p, size, n, bs[k]);
    }
  }
}
