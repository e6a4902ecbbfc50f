/** memheap.c as it runs: headers and their four links written in one pool, two
    circular lists through them, and the statistics. Every operation is proved
    to do what MemHeapSpec says, and to leave the data of the live blocks alone. */
module MemHeapObject {
  import opened Options
  import opened Words
  import opened LinkMaps
  import opened MemHeapSpec
  import opened MemHeapProofs
  import B = MemHeapBlocks

  /** `free_header` lies outside the pool; RT_NULL is no header. */
  const HEAD := -24
  const NULL := -1

  // ---------------------------------------------------------------- headers

  ghost function Los(bs: seq<Block>): seq<int> {
    if bs == [] then [] else [bs[0].lo] + Los(bs[1..])
  }

  /** The magic words say which blocks are in use. */
  ghost predicate Flags(bs: seq<Block>, used: map<int, bool>) {
    forall b :: b in bs ==> b.lo in used && used[b.lo] == b.used
  }

  lemma {:induction false} LosConcat(a: seq<Block>, b: seq<Block>)
    ensures Los(a + b) == Los(a) + Los(b)
  {
    if a == [] {
      assert a + b == b && Los(a) + Los(b) == Los(b);
    } else {
      LosConcat(a[1..], b);
      assert (a + b)[1..] == a[1..] + b;
      assert [a[0].lo] + (Los(a[1..]) + Los(b)) == ([a[0].lo] + Los(a[1..])) + Los(b);
    }
  }

  lemma LosAround(a: seq<Block>, b: Block, c: seq<Block>)
    ensures Los(a + [b] + c) == Los(a) + [b.lo] + Los(c)
  {
    LosConcat(a + [b], c);
    LosConcat(a, [b]);
    assert Los([b]) == [b.lo];
  }

  lemma {:induction false} LosBounds(bs: seq<Block>, lo: nat, hi: nat, pf: bool)
    requires Tiles(bs, lo, hi, pf)
    ensures NoDup(Los(bs)) && |Los(bs)| == |bs|
    ensures forall x :: x in Los(bs) ==> lo <= x && x + HDR + MINI <= hi
    ensures First(Los(bs), hi) == lo
  {
    if bs != [] {
      TilesBounds(bs[1..], bs[0].hi, hi, !bs[0].used);
      LosBounds(bs[1..], bs[0].hi, hi, !bs[0].used);
      assert Los(bs)[1..] == Los(bs[1..]);
    }
  }

  lemma {:induction false} LosIn(bs: seq<Block>, x: int)
    ensures x in Los(bs) <==> exists b :: b in bs && b.lo == x
  {
    if bs != [] {
      LosIn(bs[1..], x);
      assert bs == [bs[0]] + bs[1..];
      if x in Los(bs[1..]) {
        var b :| b in bs[1..] && b.lo == x;
        assert b in bs;
      }
    }
  }

  // ----------------------------------------------------------------- new header

  /** A header written at `at` destroys every header it overlaps. */
  function Kill<T>(m: map<int, T>, at: int): map<int, T> {
    map x | x in m && (x + HDR <= at || at + HDR <= x) :: m[x]
  }

  /** No header of s overlaps one at `at`. */
  ghost predicate Apart(s: seq<int>, at: int) {
    forall x :: x in s ==> x + HDR <= at || at + HDR <= x
  }

  lemma KillDls(s: seq<int>, h: int, nx: Links, pv: Links, at: int)
    requires Dls(s, h, h, nx, pv) && Apart(s, at) && Apart([h], at)
    ensures Dls(s, h, h, Kill(nx, at), Kill(pv, at))
  {
    assert h in [h];
    DlsFrame(s, h, h, nx, pv, Kill(nx, at), Kill(pv, at));
  }

  // ----------------------------------------------------------------- data bytes

  /** The data of the used blocks is the same in both memories. */
  ghost predicate SamePayload(bs: seq<Block>, m: seq<byte>, m': seq<byte>) {
    |m| == |m'| &&
    forall b, i {:trigger b in bs, m'[i]} :: b in bs && b.used && b.lo + HDR <= i < b.hi && i < |m| ==> m[i] == m'[i]
  }

  /** No byte of a used block's data lies in the header at `at`. */
  ghost predicate Clear(s: seq<Block>, at: int) {
    forall b :: b in s && b.used ==> at <= b.lo || b.hi <= at
  }

  ghost predicate AllClear(s: seq<Block>, hs: seq<int>) {
    forall x :: x in hs ==> Clear(s, x)
  }

  /** Headers of a tiling, and its tailer, lie in no block's data. */
  lemma {:induction false} TilingClear(bs: seq<Block>, lo: nat, hi: nat, pf: bool)
    requires Tiles(bs, lo, hi, pf)
    ensures AllClear(bs, Los(bs)) && Clear(bs, hi)
  {
    TilesBounds(bs, lo, hi, pf);
    if bs != [] {
      TilingClear(bs[1..], bs[0].hi, hi, !bs[0].used);
      TilesBounds(bs[1..], bs[0].hi, hi, !bs[0].used);
      LosBounds(bs[1..], bs[0].hi, hi, !bs[0].used);
      assert bs == [bs[0]] + bs[1..];
    }
  }

  /** So does any header inside a hole. */
  lemma HoleClear(a: seq<Block>, b: Block, c: seq<Block>, end: nat, at: int)
    requires Tiles(a + [b] + c, 0, end, false) && !b.used && b.lo <= at <= b.hi
    ensures Clear(a + [b] + c, at)
  {
    TilesAround(a, b, c, 0, end, false);
    TilesBounds(a, 0, b.lo, false);
    TilesBounds(c, b.hi, end, true);
  }

  ghost predicate OnlyHeader(m: seq<byte>, m': seq<byte>, at: int) {
    |m| == |m'| && forall i :: 0 <= i < |m| && !(at <= i < at + HDR) ==> m[i] == m'[i]
  }

  lemma PayloadStep(s: seq<Block>, m: seq<byte>, m': seq<byte>, m'': seq<byte>, at: int)
    requires SamePayload(s, m, m') && OnlyHeader(m', m'', at) && Clear(s, at)
    ensures SamePayload(s, m, m'')
  {
    forall b, i | b in s && b.used && b.lo + HDR <= i < b.hi && i < |m|
      ensures m[i] == m''[i]
    {
      assert m[i] == m'[i];
    }
  }

  // ----------------------------------------------------------------- free list

  lemma {:induction false} NoDupOccurs(f: seq<nat>)
    requires forall x: nat :: Occurs(f, x) <= 1
    ensures NoDup(f)
  {
    if f != [] {
      OccursIn(f[1..], f[0]);
      assert Occurs(f, f[0]) <= 1;
      forall x: nat ensures Occurs(f[1..], x) <= 1 { assert Occurs(f, x) <= 1; }
      NoDupOccurs(f[1..]);
    }
  }

  /** Around an entry of the free list. */
  lemma {:induction false} DropSplit(f: seq<nat>, x: nat) returns (u: seq<nat>, v: seq<nat>)
    requires x in f
    ensures f == u + [x] + v && Drop(f, x) == u + v
  {
    if f[0] == x {
      u, v := [], f[1..];
    } else {
      assert f == [f[0]] + f[1..];
      u, v := DropSplit(f[1..], x);
      u := [f[0]] + u;
    }
  }

  /** The free list of a sound heap: no header twice, and each one of a block. */
  lemma FreeListOk(h: Heap, P: nat)
    requires Inv(h, P)
    ensures NoDup(h.free) && HEAD !in h.free
    ensures forall x :: x in h.free ==> x in Los(h.bs)
  {
    forall x: nat ensures Occurs(h.free, x) <= 1 {
      assert Occurs(h.free, x) == Times(h.bs, x);
      TimesOnce(h.bs, 0, P - HDR, false, x);
    }
    NoDupOccurs(h.free);
    forall x | x in h.free ensures x in Los(h.bs) {
      FreeEntry(h, x, P);
      assert h.bs[Index(h.bs, x)] in h.bs;
      LosIn(h.bs, x);
    }
  }

  /** A header inside block b overlaps no header of the tiling. */
  lemma HeaderApart(a: seq<Block>, b: Block, c: seq<Block>, end: nat, at: int)
    requires Tiles(a + [b] + c, 0, end, false) && b.lo + HDR <= at && at + HDR <= b.hi
    ensures Apart(Los(a + [b] + c), at) && at + HDR <= end
  {
    LosAround(a, b, c);
    TilesAround(a, b, c, 0, end, false);
    LosBounds(a, 0, b.lo, false);
    LosBounds(c, b.hi, end, !b.used);
    TilesBounds(c, b.hi, end, !b.used);
  }

  lemma TwoLos(a: seq<Block>, b: Block, x: Block, c: seq<Block>)
    ensures Los((a + [b]) + [x] + c) == (Los(a) + [b.lo as int]) + [x.lo] + Los(c)
  {
    LosAround(a + [b], x, c);
    LosAround(a, b, []);
    assert a + [b] + [] == a + [b];
    assert Los(a) + [b.lo as int] + [] == Los(a) + [b.lo as int];
  }

  /** A header inside b and the hole x above it, when that hole's own header is gone. */
  lemma GrowApart(a: seq<Block>, b: Block, x: Block, c: seq<Block>, end: nat, at: int)
    requires Tiles((a + [b]) + [x] + c, 0, end, false) && b.used && !x.used
    requires b.lo + HDR <= at && at + HDR <= x.hi && x.lo <= at
    ensures Apart(Los(a) + [b.lo as int] + Los(c), at) && at + HDR <= end
  {
    TilesAround(a + [b], x, c, 0, end, false);
    assert a + [b] + [] == a + [b];
    TilesAround(a, b, [], 0, x.lo, false);
    var v := Block(b.lo, x.hi, true);
    TilesWeaken(c, x.hi, end);
    TilesAround(a, v, c, 0, end, false);
    HeaderApart(a, v, c, end, at);
    LosAround(a, v, c);
  }

  lemma TwoShape(a: seq<Block>, t: Block, r: Block, c: seq<Block>)
    ensures Los(a + [t, r] + c) == (Los(a) + [t.lo as int]) + [r.lo as int] + Los(c)
  {
    TwoLos(a, t, r, c);
    assert (a + [t]) + [r] + c == a + [t, r] + c;
  }

  lemma TwoFlags(a: seq<Block>, t: Block, r: Block, c: seq<Block>, u: map<int, bool>)
    requires Flags(a, u) && Flags(c, u) && t.lo in u && u[t.lo] == t.used && r.lo in u && u[r.lo] == r.used
    ensures Flags(a + [t, r] + c, u)
  {
  }

  lemma LosOne(b: Block)
    ensures Los([b]) == [b.lo as int]
  {
  }

  lemma LosSnoc(x: seq<Block>, l: Block)
    ensures Los(x + [l]) == Los(x) + [l.lo as int]
  {
    LosConcat(x, [l]);
    LosOne(l);
  }

  lemma LastOf(a: seq<Block>)
    ensures a != [] ==> Los(a) == Los(a[..|a| - 1]) + [a[|a| - 1].lo as int] && a[|a| - 1] in a
    ensures a == [] ==> Los(a) == []
  {
    if a != [] { LosOfSum(a, a[..|a| - 1], a[|a| - 1]); }
  }

  lemma LosOfSum(a: seq<Block>, x: seq<Block>, l: Block)
    requires a == x + [l]
    ensures Los(a) == Los(x) + [l.lo as int]
  {
    LosSnoc(x, l);
  }

  lemma AboveLos(a: seq<int>, h: int, c: seq<Block>)
    requires c != []
    ensures a + [h] + Los(c) == (a + [h]) + [c[0].lo] + Los(c[1..])
  {
  }

  /** The headers left after a merge downwards. */
  lemma MergedLos(a: seq<Block>, b: Block, c: seq<Block>)
    requires NoDup(Los(a + [b] + c))
    ensures var l := Los(Below(a)) + [HoleLo(a, b.lo) as int] + Los(c);
            NoDup(l) && forall x :: x in l ==> x in Los(a + [b] + c)
  {
    LosAround(a, b, c);
    LastOf(a);
    NoDupSplit(Los(a), b.lo, Los(c));
  }

  /** Their magic words. */
  lemma MergedFlags(a: seq<Block>, b: Block, c: seq<Block>, u: map<int, bool>, hi: nat)
    requires Flags(a + [b] + c, u) && !b.used
    ensures Flags(Below(a) + [Block(HoleLo(a, b.lo), hi, false)] + Above(c), u)
  {
    assert b in a + [b] + c;
    forall x | x in a || x in c ensures x in a + [b] + c {}
    if MergesDown(a) { assert a[|a| - 1] in a; }
    forall x | x in Above(c) ensures x in c {}
  }

  lemma DropKeeps(f: seq<nat>, c: seq<Block>)
    requires NoDup(f) && (MergesUp(c) ==> c[0].lo in f)
    ensures NoDup(UpDropped(f, c)) && forall y :: y in UpDropped(f, c) ==> y in f
  {
    if MergesUp(c) {
      var u, v := DropSplit(f, c[0].lo);
      NoDupSplit(u, c[0].lo, v);
    }
  }

  lemma DropLeaves(f: seq<nat>, x: nat)
    requires NoDup(f) && x in f
    ensures x !in Drop(f, x)
  {
    var u, v := DropSplit(f, x);
    NoDupSplit(u, x, v);
  }

  lemma LosTwo(a: seq<Block>, t: Block, r: Block, c: seq<Block>)
    ensures Los(a + [t, r] + c) == Los(a) + [t.lo] + ([r.lo] + Los(c))
  {
    LosAround(a, t, [r] + c);
    LosAround([], r, c);
    assert [] + [r] + c == [r] + c;
    assert a + [t, r] + c == a + [t] + ([r] + c);
  }

  /** No two blocks share a header. */
  lemma OthersElsewhere(a: seq<Block>, b: Block, c: seq<Block>)
    requires NoDup(Los(a + [b] + c))
    ensures forall x :: x in a || x in c ==> x.lo != b.lo
  {
    LosAround(a, b, c);
    NoDupSplit(Los(a), b.lo, Los(c));
    forall x | x in a || x in c ensures x.lo != b.lo {
      LosIn(a, x.lo);
      LosIn(c, x.lo);
    }
  }

  /** Marking block b in its magic word. */
  lemma SetFlag(a: seq<Block>, b: Block, c: seq<Block>, u: map<int, bool>, v: bool)
    requires Flags(a + [b] + c, u) && NoDup(Los(a + [b] + c))
    ensures Flags(a + [b.(used := v)] + c, u[b.lo := v]) && Los(a + [b.(used := v)] + c) == Los(a + [b] + c)
  {
    LosAround(a, b, c);
    LosAround(a, b.(used := v), c);
    OthersElsewhere(a, b, c);
    forall x | x in a + [b.(used := v)] + c ensures x.lo in u[b.lo := v] && u[b.lo := v][x.lo] == x.used {
      if x in a || x in c { assert x in a + [b] + c; }
    }
  }

  /** The magic words after block b was cut in two. */
  lemma CutFlags(a: seq<Block>, b: Block, c: seq<Block>, u: map<int, bool>, at: nat, hi: nat)
    requires Flags(a + [b] + c, u) && Apart(Los(a + [b] + c), at) && NoDup(Los(a + [b] + c))
    ensures Flags(a + [Block(b.lo, at, true), Block(at, hi, false)] + c, Kill(u, at)[at := false][b.lo := true])
  {
    var g := a + [Block(b.lo, at, true), Block(at, hi, false)] + c;
    var u' := Kill(u, at)[at := false][b.lo := true];
    OthersElsewhere(a, b, c);
    LosIn(a + [b] + c, b.lo);
    assert b in a + [b] + c;
    forall x | x in g ensures x.lo in u' && u'[x.lo] == x.used {
      if x in a || x in c {
        assert x in a + [b] + c;
        LosIn(a + [b] + c, x.lo);
      }
    }
  }

  /** The magic words around a grown block. */
  lemma GrowFlags(a: seq<Block>, b: Block, x: Block, c: seq<Block>, u: map<int, bool>, at: nat, hi: nat)
    requires Flags((a + [b]) + [x] + c, u) && b.used && Apart(Los(a) + [b.lo as int] + Los(c), at)
    ensures Flags(a + [Block(b.lo, at, true), Block(at, hi, false)] + c, Kill(u, at)[at := false])
  {
    var g := a + [Block(b.lo, at, true), Block(at, hi, false)] + c;
    var w := (a + [b]) + [x] + c;
    assert b in w;
    assert b.lo in Los(a) + [b.lo as int] + Los(c);
    forall y | y in g ensures y.lo in Kill(u, at)[at := false] && Kill(u, at)[at := false][y.lo] == y.used {
      if y in a || y in c {
        assert y in w;
        LosIn(a, y.lo);
        LosIn(c, y.lo);
        assert y.lo in Los(a) + [b.lo as int] + Los(c);
      }
    }
  }

  lemma ShrunkClear(a: seq<Block>, b: Block, c: seq<Block>, at: nat)
    requires b.used && at <= b.hi
    ensures forall x :: Clear(a + [b] + c, x) ==> Clear(a + [Block(b.lo, at, true)] + c, x)
  {
    var t := Block(b.lo, at, true);
    forall x | Clear(a + [b] + c, x) ensures Clear(a + [t] + c, x) {
      assert b in a + [b] + c;
      forall y | y in a + [t] + c && y.used ensures x <= y.lo || y.hi <= x {
        if y in a || y in c { assert y in a + [b] + c; }
      }
    }
  }

  // ------------------------------------------------------ what a resize keeps

  /** Every live block but p keeps its data. */
  ghost predicate Others(bs: seq<Block>, p: Option<int>, m: seq<byte>, m': seq<byte>) {
    && |m| == |m'|
    && forall b, i {:trigger b in bs, m'[i]} ::
         b in bs && b.used && (p.Some? ==> p.value != b.lo + HDR) && b.lo + HDR <= i < b.hi && i < |m| ==> m[i] == m'[i]
  }

  /** The data size of the live block at p. */
  ghost function DataOf(bs: seq<Block>, p: int): int {
    DataAt(bs, p - HDR)
  }

  lemma AllocHolds(h: Heap, size: nat, P: nat)
    requires Inv(h, P) && size + 3 < WORD
    ensures var (g, q) := Alloc(h, size, P);
            q.Some? ==> Live(g.bs, q.value) && size <= DataOf(g.bs, q.value)
  {
    RoundedIs(size);
    if Alloc(h, size, P).1.Some? {
      B.AllocServes(h, size, P);
      var (g, q) := Alloc(h, size, P);
      var t :| B.PutToUse(h.bs, g.bs, t, Rounded(size)) && t.lo + HDR == q.value;
      HeldAt(g, t, P);
    }
  }

  lemma ReallocHolds(h: Heap, p: int, newsize: nat, P: nat)
    requires Inv(h, P) && Live(h.bs, p) && 0 < newsize && newsize + 3 < WORD
    ensures var (g, q) := MemHeapSpec.Realloc(h, Some(p), newsize, P);
            q.Some? ==> Live(g.bs, q.value) && newsize <= DataOf(g.bs, q.value)
  {
    B.ReallocServes(h, p, newsize, P);
    ReallocKeeps(h, Some(p), newsize, P);
    var (g, q) := MemHeapSpec.Realloc(h, Some(p), newsize, P);
    if q.Some? { ResizedHolds(h.bs, g, p, q.value, Rounded(newsize), P); }
  }

  lemma ResizedHolds(bs: seq<Block>, g: Heap, p: int, q: int, n: nat, P: nat)
    requires Inv(g, P) && exists b, t :: B.Resized(bs, g.bs, b, t, n) && b.lo + HDR == p && t.lo + HDR == q
    ensures Live(g.bs, q) && n <= DataOf(g.bs, q)
  {
    var b, t :| B.Resized(bs, g.bs, b, t, n) && b.lo + HDR == p && t.lo + HDR == q;
    HeldAt(g, t, P);
  }

  lemma HeldAt(g: Heap, t: Block, P: nat)
    requires Inv(g, P) && t in g.bs
    ensures DataOf(g.bs, t.lo + HDR) == t.Data()
  {
    var k :| 0 <= k < |g.bs| && g.bs[k] == t;
    IndexAt(g.bs, k, 0, P - HDR, false);
  }

  lemma ShrinkFrame(bs: seq<Block>, k: nat, end: nat)
    requires Tiles(bs, 0, end, false) && k < |bs|
    ensures bs == bs[..k] + [bs[k]] + bs[k + 1..] && bs[k].hi <= end && NoDup(Los(bs))
  {
    LosBounds(bs, 0, end, false);
    SplitAt(bs, k);
    assert bs[k] in bs;
    TilesBounds(bs, 0, end, false);
  }

  lemma OthersFrom(s: seq<Block>, t: seq<Block>, p: Option<int>, m: seq<byte>, m': seq<byte>)
    requires SamePayload(t, m, m')
    requires forall b :: b in s && b.used && (p.Some? ==> p.value != b.lo + HDR) ==> b in t
    ensures Others(s, p, m, m')
  {
    forall b, i | b in s && b.used && (p.Some? ==> p.value != b.lo + HDR) && b.lo + HDR <= i < b.hi && i < |m|
      ensures m[i] == m'[i]
    {
      assert b in t;
    }
  }

  /** The data of a used block that stays where it is. */
  lemma StaysData(s: seq<Block>, b: Block, m: seq<byte>, m': seq<byte>, n: int)
    requires SamePayload(s, m, m') && b in s && b.used && b.hi <= |m| && 0 <= n <= b.Data()
    ensures KeptData(m, b.lo + HDR, m', b.lo + HDR, n)
  {
  }

  /** What a cut of block b to n data bytes keeps. */
  lemma ShrunkData(a: seq<Block>, b: Block, c: seq<Block>, n: nat, m: seq<byte>, m': seq<byte>)
    requires b.used && n <= b.Data() && b.hi <= |m| && NoDup(Los(a + [b] + c))
    requires SamePayload(a + [Block(b.lo, b.lo + HDR + n, true)] + c, m, m')
    ensures Others(a + [b] + c, Some(b.lo + HDR), m, m')
    ensures KeptData(m, b.lo + HDR, m', b.lo + HDR, n)
  {
    var t := Block(b.lo, b.lo + HDR + n, true);
    var u := a + [t] + c;
    OthersFrom(a + [b] + c, u, Some(b.lo + HDR), m, m');
    StaysData(u, t, m, m', n);
  }

  /** A copy into a block that overlaps no live block. */
  lemma CopiedOthers(s: seq<Block>, p: int, q: nat, n: nat, m: seq<byte>, m': seq<byte>, m'': seq<byte>)
    requires SamePayload(s, m, m') && |m''| == |m'|
    requires forall i :: 0 <= i < |m''| && !(q <= i < q + n) ==> m''[i] == m'[i]
    requires forall b :: b in s && b.used ==> b.hi <= q - HDR || q + n <= b.lo
    ensures Others(s, Some(p), m, m'')
  {
    forall b, i | b in s && b.used && p != b.lo + HDR && b.lo + HDR <= i < b.hi && i < |m|
      ensures m[i] == m''[i]
    {
      assert m[i] == m'[i];
    }
  }

  lemma OthersTrans(s: seq<Block>, t: seq<Block>, p: int, m: seq<byte>, m': seq<byte>, m'': seq<byte>)
    requires Others(s, Some(p), m, m') && SamePayload(t, m', m'')
    requires forall b :: b in s && b.used && b.lo + HDR != p ==> b in t
    ensures Others(s, Some(p), m, m'')
  {
    forall b, i | b in s && b.used && p != b.lo + HDR && b.lo + HDR <= i < b.hi && i < |m|
      ensures m[i] == m''[i]
    {
      assert b in t;
      assert m[i] == m'[i];
    }
  }

  lemma KeptStays(s: seq<Block>, t: Block, m: seq<byte>, p: int, m': seq<byte>, m'': seq<byte>, n: nat)
    requires KeptData(m, p, m', t.lo + HDR, n) && SamePayload(s, m', m'') && t in s && t.used && t.lo + HDR + n <= t.hi
    ensures KeptData(m, p, m'', t.lo + HDR, n)
  {
    var q := t.lo + HDR;
    assert m''[q..q + n] == m'[q..q + n];
  }

  /** Nothing is lost when the old block goes after the copy. */
  lemma MovedKeeps(s: seq<Block>, g: seq<Block>, t: Block, m: seq<byte>, p: int, m': seq<byte>, m'': seq<byte>, n: nat)
    requires KeptData(m, p, m', t.lo + HDR, n) && SamePayload(g, m', m'') && t in g && t.used && t.lo + HDR + n <= t.hi
    requires Others(s, Some(p), m, m') && forall x :: x in s && x.used ==> x in g
    ensures KeptData(m, p, m'', t.lo + HDR, n) && Others(s, Some(p), m, m'')
  {
    KeptStays(g, t, m, p, m', m'', n);
    OthersTrans(s, g, p, m, m', m'');
  }

  /** The block a move takes, apart from every live one. */
  lemma MoveTarget(h: Heap, n: nat, P: nat, b: Block) returns (t: Block)
    requires Inv(h, P) && Alloc(h, n, P).1.Some? && b in h.bs && b.used && n == Rounded(n)
    ensures var g := Alloc(h, n, P).0.bs;
            && t in g && t.used && t.lo + HDR == Alloc(h, n, P).1.value && t.lo + HDR + n <= t.hi <= P && b.hi <= P
            && t.lo != b.lo && Live(g, b.lo + HDR) && forall x :: x in h.bs && x.used ==> x in g
    ensures forall x :: x in h.bs && x.used ==> x.hi <= t.lo || t.hi <= x.lo
  {
    LiveAfterAlloc(h, n, P);
    t := FreshBlock(h, n, P);
    TilesBounds(h.bs, 0, P - HDR, false);
    AllocKeeps(h, n, P);
    TilesBounds(Alloc(h, n, P).0.bs, 0, P - HDR, false);
  }

  class MemHeap {
    const poolSize: nat
    var used: map<int, bool>
    var next: Links
    var prev: Links
    var nextFree: Links
    var prevFree: Links
    var availableSize: int
    var maxUsedSize: int
    var bytes: seq<byte>
    ghost var bs: seq<Block>
    ghost var free: seq<nat>

    ghost function Abs(): Heap
      reads this
    {
      Heap(bs, free, availableSize, maxUsedSize)
    }

    ghost function End(): int { poolSize - HDR }

    /** The two rings, the magic words and the tailer. */
    ghost predicate Wired(l: seq<int>, f: seq<int>)
      reads this
    {
      && Dls(l, End(), End(), next, prev) && Dls(f, HEAD, HEAD, nextFree, prevFree)
      && End() in used && used[End()] && |bytes| == poolSize
    }

    ghost predicate Valid()
      reads this
    {
      Inv(Abs(), poolSize) && Flags(bs, used) && Wired(Los(bs), free)
    }

    /** One header's bytes take some new value; the list head is not in the pool. */
    method Scribble(at: int, ghost s: seq<Block>, ghost m: seq<byte>)
      requires (at == HEAD || 0 <= at) && at + HDR <= |bytes| && Clear(s, at) && SamePayload(s, m, bytes)
      modifies this`bytes
      ensures SamePayload(s, m, bytes) && |bytes| == |old(bytes)|
    {
      if at == HEAD { return; }
      var enc: seq<byte> :| |enc| == HDR by { assert |seq(HDR, _ => 0 as byte)| == HDR; }
      bytes := bytes[..at] + enc + bytes[at + HDR..];
      PayloadStep(s, m, old(bytes), bytes, at);
    }

    /** Headers that may be written while the data of s is kept. */
    ghost predicate Writable(hs: seq<int>, s: seq<Block>) {
      AllClear(s, hs) && forall x :: x in hs ==> (x == HEAD || 0 <= x) && x + HDR <= poolSize
    }

    /** A new header, free and in no list yet. */
    method NewHeader(at: int, ghost l: seq<int>, ghost f: seq<int>, ghost s: seq<Block>, ghost m: seq<byte>)
      requires Wired(l, f) && Apart(l, at) && Apart(f, at) && Apart([End(), HEAD], at)
      requires Writable([at], s) && at != HEAD && SamePayload(s, m, bytes)
      modifies this`used, this`next, this`prev, this`nextFree, this`prevFree, this`bytes
      ensures Wired(l, f) && used == Kill(old(used), at)[at := false]
      ensures SamePayload(s, m, bytes)
    {
      assert End() in [End(), HEAD] && HEAD in [End(), HEAD] && at in [at];
      KillDls(l, End(), next, prev, at);
      KillDls(f, HEAD, nextFree, prevFree, at);
      used := Kill(used, at)[at := false];
      next, prev := Kill(next, at), Kill(prev, at);
      nextFree, prevFree := Kill(nextFree, at), Kill(prevFree, at);
      Scribble(at, s, m);
    }

    /** Put header x after header b on the physical list. */
    method LinkBlock(b: int, x: int, ghost a: seq<int>, ghost c: seq<int>, ghost f: seq<int>, ghost s: seq<Block>,
                     ghost m: seq<byte>)
      requires Wired(a + [b] + c, f) && NoDup(a + [b] + c) && End() !in a + [b] + c && x !in a + [b] + c && x != End()
      requires Writable(a + [b] + c, s) && Writable([x, End()], s) && SamePayload(s, m, bytes)
      modifies this`next, this`prev, this`bytes
      ensures Wired(a + [b] + ([x] + c), f) && SamePayload(s, m, bytes)
    {
      DlsAround(a, b, c, End(), End(), next, prev);
      InsertAfterNode(a, b, c, End(), x, next, prev);
      var n := next[b];
      assert n in a + [b] + c || n in [x, End()];
      assert b in a + [b] + c && x in [x, End()];
      prev := prev[x := b];
      next := next[x := n];
      Scribble(x, s, m);
      prev := prev[n := x];
      Scribble(n, s, m);
      next := next[b := x];
      Scribble(b, s, m);
    }

    /** Take header x out of the physical list. */
    method UnlinkBlock(x: int, ghost a: seq<int>, ghost c: seq<int>, ghost f: seq<int>, ghost s: seq<Block>,
                       ghost m: seq<byte>)
      requires Wired(a + [x] + c, f) && NoDup(a + [x] + c) && End() !in a + [x] + c
      requires Writable(a + [x] + c, s) && Writable([End()], s) && SamePayload(s, m, bytes)
      modifies this`next, this`prev, this`bytes
      ensures Wired(a + c, f) && SamePayload(s, m, bytes)
    {
      DlsAround(a, x, c, End(), End(), next, prev);
      UnlinkSeg(a, x, c, End(), End(), next, prev);
      var n, p := next[x], prev[x];
      assert (n in a + [x] + c || n in [End()]) && (p in a + [x] + c || p in [End()]);
      next := next[p := n];
      Scribble(p, s, m);
      prev := prev[n := p];
      Scribble(n, s, m);
    }

    /** Put header x at the front of the free list. */
    method InsertFree(x: int, ghost l: seq<int>, ghost f: seq<int>, ghost s: seq<Block>, ghost m: seq<byte>)
      requires Wired(l, f) && NoDup(f) && HEAD !in f && x !in f && x != HEAD
      requires Writable(f, s) && Writable([x], s) && Writable([HEAD], s) && SamePayload(s, m, bytes)
      modifies this`nextFree, this`prevFree, this`bytes
      ensures Wired(l, [x] + f) && SamePayload(s, m, bytes)
    {
      DlsEnds(f, HEAD, HEAD, nextFree, prevFree);
      InsertAfterHead(f, HEAD, HEAD, x, nextFree, prevFree);
      var n := nextFree[HEAD];
      assert n in f || n in [HEAD];
      assert x in [x];
      nextFree := nextFree[x := n];
      prevFree := prevFree[x := HEAD];
      Scribble(x, s, m);
      prevFree := prevFree[n := x];
      Scribble(n, s, m);
      nextFree := nextFree[HEAD := x];
    }

    /** Take header x out of the free list. */
    method RemoveFree(x: int, ghost l: seq<int>, ghost a: seq<int>, ghost c: seq<int>, ghost s: seq<Block>,
                      ghost m: seq<byte>)
      requires Wired(l, a + [x] + c) && NoDup(a + [x] + c) && HEAD !in a + [x] + c
      requires Writable(a + [x] + c, s) && Writable([HEAD], s) && SamePayload(s, m, bytes)
      modifies this`nextFree, this`prevFree, this`bytes
      ensures Wired(l, a + c) && SamePayload(s, m, bytes)
    {
      DlsAround(a, x, c, HEAD, HEAD, nextFree, prevFree);
      UnlinkSeg(a, x, c, HEAD, HEAD, nextFree, prevFree);
      var n, p := nextFree[x], prevFree[x];
      assert (n in a + [x] + c || n in [HEAD]) && (p in a + [x] + c || p in [HEAD]);
      prevFree := prevFree[n := p];
      Scribble(n, s, m);
      nextFree := nextFree[p := n];
      Scribble(p, s, m);
    }

    // ------------------------------------------------------ the rings of a heap

    /** All headers may be written while the live data is kept. */
    lemma Ready()
      requires Valid()
      ensures NoDup(Los(bs)) && End() !in Los(bs) && NoDup(free) && HEAD !in free
      ensures Writable(Los(bs), bs) && Writable(free, bs) && Writable([End()], bs) && Writable([HEAD], bs)
      ensures forall x :: x in free ==> x in Los(bs)
    {
      LosBounds(bs, 0, poolSize - HDR, false);
      TilingClear(bs, 0, poolSize - HDR, false);
      FreeListOk(Abs(), poolSize);
    }

    /** What the header of block k says. */
    lemma BlockLinks(k: nat)
      requires Valid() && k < |bs|
      ensures var x := bs[k].lo;
              x in next && next[x] == bs[k].hi && x in used && used[x] == bs[k].used && x in prev
    {
      var a, b, c := bs[..k], bs[k], bs[k + 1..];
      SplitAt(bs, k);
      LosAround(a, b, c);
      DlsAround(Los(a), b.lo, Los(c), End(), End(), next, prev);
      TilesAround(a, b, c, 0, poolSize - HDR, false);
      LosBounds(c, b.hi, poolSize - HDR, !b.used);
      assert b in bs;
    }

    /** The header above block k: the next block's, or the tailer. */
    lemma NextFlag(k: nat)
      requires Valid() && k < |bs|
      ensures bs[k].hi in used && (used[bs[k].hi] <==> !MergesUp(bs[k + 1..]))
    {
      SplitAt(bs, k);
      TilesAround(bs[..k], bs[k], bs[k + 1..], 0, poolSize - HDR, false);
      if k + 1 < |bs| { assert bs[k + 1] in bs; }
    }

    /** The first-fit search of rt_memheap_alloc along the free list. */
    method Search(n: nat) returns (h: int, freeSize: int)
      requires Valid() && n > 0
      ensures var i := FirstFit(free, bs, n);
              if freeSize >= n then i < |free| && h == free[i] && freeSize == DataAt(bs, free[i]) else i == |free|
    {
      freeSize := 0;
      DlsEnds(free, HEAD, HEAD, nextFree, prevFree);
      h := nextFree[HEAD];
      ghost var u, v := [], free;
      FreeListOk(Abs(), poolSize);
      while h != HEAD && freeSize < n
        invariant free == u + v && h == First(v, HEAD)
        invariant FirstFit(free, bs, n) == |u| + FirstFit(v, bs, n)
        invariant freeSize >= n ==> v != [] && freeSize == DataAt(bs, v[0])
        decreases |v|, n - freeSize
      {
        assert v[0] in free;
        freeSize := ItemSize(h);
        if freeSize < n {
          NextEntry(u, v);
          u, v := u + [v[0]], v[1..];
          h := nextFree[h];
        }
      }
    }

    /** MEMITEM_SIZE of a free block. */
    method ItemSize(h: int) returns (size: int)
      requires Valid() && h in free
      ensures size == DataAt(bs, h)
    {
      FreeEntry(Abs(), h, poolSize);
      BlockLinks(Index(bs, h));
      size := next[h] - h - HDR;
    }

    lemma NextEntry(u: seq<nat>, v: seq<nat>)
      requires Valid() && free == u + v && v != []
      ensures v[0] in nextFree && nextFree[v[0]] == First(v[1..], HEAD)
      ensures free == (u + [v[0]]) + v[1..]
    {
      assert free == u + [v[0]] + v[1..];
      DlsAround(u, v[0], v[1..], HEAD, HEAD, nextFree, prevFree);
    }

    // ------------------------------------------------------------- allocation

    /** Take header x out of the free list. */
    method DropFree(x: nat, ghost l: seq<int>, ghost f: seq<nat>, ghost s: seq<Block>, ghost m: seq<byte>)
      requires Wired(l, f) && NoDup(f) && HEAD !in f && x in f
      requires Writable(f, s) && Writable([HEAD], s) && SamePayload(s, m, bytes)
      modifies this`nextFree, this`prevFree, this`bytes
      ensures Wired(l, Drop(f, x)) && SamePayload(s, m, bytes)
      ensures NoDup(Drop(f, x)) && x !in Drop(f, x) && forall y :: y in Drop(f, x) ==> y in f
    {
      ghost var u, v := DropSplit(f, x);
      NoDupSplit(u, x, v);
      RemoveFree(x, l, u, v, s, m);
    }

    /** Take x out of the free list and clear its links. */
    method Detach(x: nat, ghost l: seq<int>, ghost f: seq<nat>, ghost s: seq<Block>, ghost m: seq<byte>)
      requires Wired(l, f) && NoDup(f) && HEAD !in f && x in f
      requires Writable(f, s) && Writable([HEAD], s) && SamePayload(s, m, bytes)
      modifies this`nextFree, this`prevFree, this`bytes
      ensures Wired(l, Drop(f, x)) && SamePayload(s, m, bytes)
      ensures NoDup(Drop(f, x)) && x !in Drop(f, x) && forall y :: y in Drop(f, x) ==> y in f
    {
      DropFree(x, l, f, s, m);
      DlsFrame(Drop(f, x), HEAD, HEAD, nextFree, prevFree, nextFree[x := NULL], prevFree[x := NULL]);
      nextFree, prevFree := nextFree[x := NULL], prevFree[x := NULL];
      Scribble(x, s, m);
    }

    /** Account for `taken` more bytes in use. */
    method Charge(taken: int)
      modifies this`availableSize, this`maxUsedSize
      ensures availableSize == old(availableSize) - taken
      ensures maxUsedSize == Peak(old(Abs()), availableSize, poolSize)
    {
      availableSize := availableSize - taken;
      if poolSize - availableSize > maxUsedSize { maxUsedSize := poolSize - availableSize; }
    }

    /** A hole's header position is apart from all others, and may be written. */
    lemma HoleReady(k: nat, at: int)
      requires Valid() && k < |bs| && !bs[k].used && bs[k].lo + HDR <= at && at + HDR <= bs[k].hi
      ensures Apart(Los(bs), at) && Apart(free, at) && Apart([End(), HEAD], at)
      ensures Writable([at], bs) && at !in Los(bs)
    {
      FreeListOk(Abs(), poolSize);
      SplitAt(bs, k);
      HoleClear(bs[..k], bs[k], bs[k + 1..], poolSize - HDR, at);
      HeaderApart(bs[..k], bs[k], bs[k + 1..], poolSize - HDR, at);
    }

    /** A new header inside block b, linked after it on the physical list. */
    method Carve(b: int, at: int, ghost a: seq<int>, ghost c: seq<int>, ghost f: seq<int>, ghost s: seq<Block>,
                 ghost m: seq<byte>)
      requires Wired(a + [b] + c, f) && NoDup(a + [b] + c) && End() !in a + [b] + c
      requires Apart(a + [b] + c, at) && Apart(f, at) && Apart([End(), HEAD], at)
      requires Writable(a + [b] + c, s) && Writable([End()], s) && Writable([at], s) && at != HEAD &&
               SamePayload(s, m, bytes)
      modifies this`used, this`next, this`prev, this`nextFree, this`prevFree, this`bytes
      ensures Wired(a + [b] + ([at] + c), f) && SamePayload(s, m, bytes)
      ensures used == Kill(old(used), at)[at := false]
    {
      assert End() in [End(), HEAD];
      NewHeader(at, a + [b] + c, f, s, m);
      assert at in [at] && End() in [End()];
      LinkBlock(b, at, a, c, f, s, m);
    }

    /** Header x leaves the free list, and `at` goes to its front. */
    method Replace(x: nat, at: nat, ghost l: seq<int>, ghost f: seq<nat>, ghost s: seq<Block>, ghost m: seq<byte>)
      requires Wired(l, f) && NoDup(f) && HEAD !in f && x in f && at !in f
      requires Writable(f, s) && Writable([HEAD], s) && Writable([at], s) && SamePayload(s, m, bytes)
      modifies this`nextFree, this`prevFree, this`bytes
      ensures Wired(l, [at] + Drop(f, x)) && SamePayload(s, m, bytes)
    {
      Detach(x, l, f, s, m);
      InsertFree(at, l, Drop(f, x), s, m);
    }

    /** Cut the free block k in two: n bytes in use, and a hole at the front of the free list. */
    method TakeSplit(h: nat, n: nat, ghost k: nat)
      requires Valid() && Allocatable(Abs(), k, n) && Splits(bs[k], n) && h == bs[k].lo
      modifies this
      ensures Abs() == TakeAt(old(Abs()), k, n, poolSize)
      ensures Flags(bs, used) && Wired(Los(bs), free) && SamePayload(old(bs), old(bytes), bytes)
    {
      ghost var a, b, c := bs[..k], bs[k], bs[k + 1..];
      var at := h + n + HDR;
      CutHole(h, at, k);
      Charge(n + HDR);
      bs, free := a + [Block(b.lo, at, true), Block(at, b.hi, false)] + c, [at] + Drop(free, h);
    }

    /** The lists and magic words of such a cut. */
    method CutHole(h: nat, at: nat, ghost k: nat)
      requires Valid() && k < |bs| && !bs[k].used && h == bs[k].lo && h + HDR <= at && at + HDR <= bs[k].hi
      modifies this`used, this`next, this`prev, this`nextFree, this`prevFree, this`bytes
      ensures var g := bs[..k] + [Block(h, at, true), Block(at, bs[k].hi, false)] + bs[k + 1..];
              Flags(g, used) && Wired(Los(g), [at] + Drop(free, h))
      ensures SamePayload(bs, old(bytes), bytes)
    {
      ghost var a, b, c := bs[..k], bs[k], bs[k + 1..];
      SplitAt(bs, k);
      Ready();
      HoleReady(k, at);
      FreeBlockListed(k);
      LosAround(a, b, c);
      CutFlags(a, b, c, used, at, b.hi);
      LosTwo(a, Block(h, at, true), Block(at, b.hi, false), c);
      Carve(h, at, Los(a), Los(c), free, bs, bytes);
      Replace(h, at, Los(a) + [b.lo] + ([at] + Los(c)), free, bs, old(bytes));
      used := used[h := true];
    }

    lemma FreeBlockListed(k: nat)
      requires Valid() && k < |bs| && !bs[k].used
      ensures bs[k].lo in free
    {
      assert bs[k] in bs;
      TimesIn(bs, bs[k].lo);
      OccursIn(free, bs[k].lo);
    }

    /** Take all of the free block k into use. */
    method TakeWhole(h: nat, size: int, ghost k: nat)
      requires Valid() && k < |bs| && !bs[k].used && h == bs[k].lo && size == bs[k].Data()
      modifies this
      ensures bs == old(bs)[..k] + [old(bs[k]).(used := true)] + old(bs)[k + 1..] && free == Drop(old(free), h)
      ensures availableSize == old(availableSize) - size && maxUsedSize == Peak(old(Abs()), availableSize, poolSize)
      ensures Flags(bs, used) && Wired(Los(bs), free) && SamePayload(old(bs), old(bytes), bytes)
    {
      ghost var a, b, c := bs[..k], bs[k], bs[k + 1..];
      SplitAt(bs, k);
      Ready();
      FreeBlockListed(k);
      Charge(size);
      Detach(h, Los(bs), free, bs, bytes);
      SetFlag(a, b, c, used, true);
      used := used[h := true];
      bs, free := a + [b.(used := true)] + c, Drop(free, h);
    }

    /** Take n bytes of the free block k. */
    method Take(h: nat, n: nat, size: int, ghost k: nat)
      requires Valid() && Allocatable(Abs(), k, n) && h == bs[k].lo && size == bs[k].Data()
      modifies this
      ensures Valid() && Abs() == TakeAt(old(Abs()), k, n, poolSize)
      ensures SamePayload(old(bs), old(bytes), bytes)
    {
      TakeAtKeeps(Abs(), k, n, poolSize);
      if size >= n + HDR + MINI { TakeSplit(h, n, k); } else { TakeWhole(h, size, k); }
    }

    /** rt_memheap_alloc: the data of the live blocks is kept. */
    method Alloc(size: nat) returns (r: Option<int>)
      requires Valid()
      modifies this
      ensures Valid()
      ensures Abs() == MemHeapSpec.Alloc(old(Abs()), size, poolSize).0
      ensures r == MemHeapSpec.Alloc(old(Abs()), size, poolSize).1
      ensures r.None? ==> Abs() == old(Abs())
      ensures SamePayload(old(bs), old(bytes), bytes)
      ensures r.Some? && size + 3 < WORD ==> Live(bs, r.value) && size <= DataOf(bs, r.value)
    {
      if size + 3 < WORD { AllocHolds(Abs(), size, poolSize); }
      var n := Align(size);
      if n < MINI { n := MINI; }
      r := AllocSized(size, n);
    }

    /** rt_memheap_alloc once the size is rounded. */
    method AllocSized(ghost size: nat, n: nat) returns (r: Option<int>)
      requires Valid() && n == Rounded(size)
      modifies this
      ensures Valid()
      ensures Abs() == MemHeapSpec.Alloc(old(Abs()), size, poolSize).0
      ensures r == MemHeapSpec.Alloc(old(Abs()), size, poolSize).1
      ensures r.None? ==> Abs() == old(Abs())
      ensures SamePayload(old(bs), old(bytes), bytes)
    {
      AllocIs(Abs(), size, poolSize);
      if n < availableSize {
        var h, freeSize := Search(n);
        if freeSize >= n {
          ChosenFits(Abs(), size, poolSize);
          ghost var k := Chosen(Abs(), size, poolSize);
          Take(h, n, freeSize, k);
          return Some(h + HDR);
        }
      }
      return None;
    }

    // ---------------------------------------------------------------- release

    /** Merge the hole at h with the block below it, if that is free. */
    method MergePrev(h: int, ghost a: seq<Block>, ghost c: seq<int>, ghost f: seq<int>, ghost s: seq<Block>,
                     ghost m: seq<byte>)
      returns (h': int, merged: bool)
      requires Wired(Los(a) + [h] + c, f) && NoDup(Los(a) + [h] + c) && End() !in Los(a) + [h] + c && Flags(a, used)
      requires Writable(Los(a) + [h] + c, s) && Writable([End()], s) && SamePayload(s, m, bytes) && h >= 0
      modifies this`next, this`prev, this`bytes
      ensures merged == MergesDown(a) && h' == (if merged then a[|a| - 1].lo else h)
      ensures Wired(Los(Below(a)) + [h'] + c, f) && SamePayload(s, m, bytes)
      ensures |bytes| == |old(bytes)|
    {
      DlsAround(Los(a), h, c, End(), End(), next, prev);
      LastOf(a);
      var p := prev[h];
      if used[p] { return h, false; }
      UnlinkBlock(h, Los(a), c, f, s, m);
      return p, true;
    }

    /** Merge the hole at h with the block above it, if that is free; that block leaves both lists. */
    method MergeNext(h: int, ghost a: seq<int>, ghost c: seq<Block>, ghost f: seq<nat>, ghost s: seq<Block>,
                     ghost m: seq<byte>)
      returns (merged: bool)
      requires Wired(a + [h] + Los(c), f) && NoDup(a + [h] + Los(c)) && End() !in a + [h] + Los(c) && Flags(c, used)
      requires NoDup(f) && HEAD !in f && (MergesUp(c) ==> c[0].lo in f)
      requires Writable(a + [h] + Los(c), s) && Writable([End()], s) && Writable(f, s) && Writable([HEAD], s)
      requires SamePayload(s, m, bytes)
      modifies this`next, this`prev, this`nextFree, this`prevFree, this`bytes
      ensures merged == MergesUp(c)
      ensures Wired(a + [h] + Los(Above(c)), UpDropped(f, c)) && SamePayload(s, m, bytes)
    {
      DlsAround(a, h, Los(c), End(), End(), next, prev);
      var n := next[h];
      if c != [] { assert c[0] in c; }
      if used[n] { return false; }
      AboveLos(a, h, c);
      UnlinkBlock(n, a + [h], Los(c[1..]), f, s, m);
      DropFree(n, a + [h] + Los(c[1..]), f, s, m);
      return true;
    }

    /** The merges of rt_memheap_free, and the hole's place in the free list. */
    method MergeHole(h: int, ghost a: seq<Block>, ghost b: Block, ghost c: seq<Block>, ghost s: seq<Block>,
                     ghost m: seq<byte>)
      returns (down: bool, up: bool)
      requires Wired(Los(a + [b] + c), free) && Flags(a + [b] + c, used) && h == b.lo && !b.used
      requires NoDup(Los(a + [b] + c)) && End() !in Los(a + [b] + c)
      requires NoDup(free) && HEAD !in free && h !in free && (MergesUp(c) ==> c[0].lo in free)
      requires Writable(Los(a + [b] + c), s) && Writable([End()], s) && Writable(free, s) && Writable([HEAD], s)
      requires SamePayload(s, m, bytes)
      modifies this`next, this`prev, this`nextFree, this`prevFree, this`bytes
      ensures down == MergesDown(a) && up == MergesUp(c) && SamePayload(s, m, bytes)
      ensures Wired(Los(Below(a)) + [HoleLo(a, b.lo) as int] + Los(Above(c)),
                    (if down then [] else [b.lo]) + UpDropped(free, c))
    {
      LosAround(a, b, c);
      MergedLos(a, b, c);
      SplitFlags(a, b, c);
      var h';
      h', down := MergePrev(h, a, Los(c), free, s, m);
      up := MergeNext(h', Los(Below(a)), c, free, s, m);
      DropKeeps(free, c);
      if !down {
        assert h in Los(a + [b] + c);
        InsertFree(h, Los(a) + [h] + Los(Above(c)), UpDropped(free, c), s, m);
      } else {
        assert [] + UpDropped(free, c) == UpDropped(free, c);
      }
    }

    lemma SplitFlags(a: seq<Block>, b: Block, c: seq<Block>)
      requires Flags(a + [b] + c, used)
      ensures Flags(a, used) && Flags(c, used)
    {
      forall x | x in a || x in c ensures x in a + [b] + c {}
    }

    /** A used block is on no free list, and a free neighbour above it is. */
    lemma UsedNotListed(k: nat)
      requires Valid() && k < |bs| && bs[k].used
      ensures bs[k].lo !in free && (MergesUp(bs[k + 1..]) ==> bs[k + 1].lo in free)
    {
      IndexAt(bs, k, 0, poolSize - HDR, false);
      forall x | x in free ensures x != bs[k].lo { FreeEntry(Abs(), x, poolSize); }
      if MergesUp(bs[k + 1..]) { FreeBlockListed(k + 1); }
    }

    /** Clear the in-use mark of block k and count its data as available. */
    method MarkFree(h: nat, ghost k: nat)
      requires Valid() && k < |bs| && bs[k].used && h == bs[k].lo
      modifies this`used, this`bytes, this`availableSize
      ensures var b := bs[k].(used := false);
              && Flags(bs[..k] + [b] + bs[k + 1..], used) && Los(bs[..k] + [b] + bs[k + 1..]) == Los(bs)
              && availableSize == old(availableSize) + b.Data()
      ensures Wired(Los(bs), free) && SamePayload(bs, old(bytes), bytes)
    {
      BlockLinks(k);
      SplitAt(bs, k);
      Ready();
      SetFlag(bs[..k], bs[k], bs[k + 1..], used, false);
      LosIn(bs, h);
      assert bs[k] in bs;
      used := used[h := false];
      Scribble(h, bs, bytes);
      availableSize := availableSize + (next[h] - h - HDR);
    }

    ghost predicate Holed(a: seq<Block>, b: Block, c: seq<Block>, s: seq<Block>)
      reads this
    {
      && Wired(Los(a + [b] + c), free) && Flags(a + [b] + c, used) && !b.used
      && NoDup(Los(a + [b] + c)) && End() !in Los(a + [b] + c)
      && NoDup(free) && HEAD !in free && b.lo !in free && (MergesUp(c) ==> c[0].lo in free)
      && Writable(Los(a + [b] + c), s) && Writable([End()], s) && Writable(free, s) && Writable([HEAD], s)
    }

    /** Merge the hole b with its free neighbours, counting the headers that become data. */
    method Coalesce(h: int, ghost a: seq<Block>, ghost b: Block, ghost c: seq<Block>, ghost s: seq<Block>,
                    ghost m: seq<byte>)
      requires Holed(a, b, c, s) && h == b.lo && SamePayload(s, m, bytes)
      modifies this`next, this`prev, this`nextFree, this`prevFree, this`bytes, this`availableSize
      ensures var g := Below(a) + [Block(HoleLo(a, b.lo), HoleHi(c, b.hi), false)] + Above(c);
              Flags(g, used) && Wired(Los(g), (if MergesDown(a) then [] else [b.lo]) + UpDropped(free, c))
      ensures availableSize == old(availableSize) + (if MergesDown(a) then HDR else 0) +
              (if MergesUp(c) then HDR else 0)
      ensures SamePayload(s, m, bytes)
    {
      MergedFlags(a, b, c, used, HoleHi(c, b.hi));
      LosAround(Below(a), Block(HoleLo(a, b.lo), HoleHi(c, b.hi), false), Above(c));
      var down, up := MergeHole(h, a, b, c, s, m);
      if down { availableSize := availableSize + HDR; }
      if up { availableSize := availableSize + HDR; }
    }

    method ReleaseStep(h: nat, ghost k: nat)
      requires Valid() && k < |bs| && bs[k].used && h == bs[k].lo
      modifies this
      ensures Abs() == FreeAt(old(Abs()), k)
      ensures Flags(bs, used) && Wired(Los(bs), free) && SamePayload(old(bs), old(bytes), bytes)
    {
      ghost var a, b, c := bs[..k], bs[k].(used := false), bs[k + 1..];
      Ready();
      UsedNotListed(k);
      FreeAtParts(Abs(), k);
      ghost var g := FreeAt(Abs(), k);
      MarkFree(h, k);
      Coalesce(h, a, b, c, bs, old(bytes));
      bs, free := g.bs, g.free;
    }

    /** Release the used block k. */
    method Release(h: nat, ghost k: nat)
      requires Valid() && k < |bs| && bs[k].used && h == bs[k].lo && Index(bs, h) == k
      modifies this
      ensures Valid() && Abs() == MemHeapSpec.Free(old(Abs()), Some(h + HDR))
      ensures SamePayload(old(bs), old(bytes), bytes)
    {
      FreeAtKeeps(Abs(), k, poolSize);
      FreeIs(Abs(), h + HDR);
      ReleaseStep(h, k);
    }

    /** rt_memheap_free of RT_NULL or of a live block. */
    method Free(p: Option<int>)
      requires Valid() && (p.Some? ==> Live(bs, p.value))
      modifies this
      ensures Valid() && Abs() == MemHeapSpec.Free(old(Abs()), p)
      ensures SamePayload(old(bs), old(bytes), bytes)
    {
      if p == None { return; }
      LiveIndex(bs, p.value, poolSize - HDR);
      Release(p.value - HDR, Index(bs, p.value - HDR));
    }

    // ----------------------------------------------------------------- resizing

    /** The headers around a grown block: the free block above it is gone from both lists. */
    method UnlinkNext(x: int, ghost a: seq<int>, ghost b: int, ghost c: seq<int>, ghost f: seq<nat>,
                      ghost s: seq<Block>, ghost m: seq<byte>)
      requires Wired((a + [b]) + [x] + c, f) && NoDup((a + [b]) + [x] + c) && End() !in (a + [b]) + [x] + c
      requires NoDup(f) && HEAD !in f && x >= 0 && x in f
      requires Writable((a + [b]) + [x] + c, s) && Writable([End()], s) && Writable(f, s) && Writable([HEAD], s)
      requires SamePayload(s, m, bytes)
      modifies this`next, this`prev, this`nextFree, this`prevFree, this`bytes
      ensures Wired(a + [b] + c, Drop(f, x)) && SamePayload(s, m, bytes)
      ensures NoDup(Drop(f, x)) && x !in Drop(f, x) && forall y :: y in Drop(f, x) ==> y in f
      ensures NoDup(a + [b] + c) && |bytes| == |old(bytes)|
    {
      NoDupSplit(a + [b], x, c);
      DropFree(x, (a + [b]) + [x] + c, f, s, m);
      UnlinkBlock(x, a + [b], c, Drop(f, x), s, m);
    }

    /** What a new header at `at` after b, first on the free list, needs. */
    ghost predicate Carvable(a: seq<int>, b: int, c: seq<int>, f: seq<int>, at: int, s: seq<Block>) {
      && NoDup(a + [b] + c) && End() !in a + [b] + c && NoDup(f) && HEAD !in f && at !in f && at != HEAD
      && Apart(a + [b] + c, at) && Apart(f, at) && Apart([End(), HEAD], at)
      && Writable(a + [b] + c, s) && Writable(f, s) && Writable([End()], s) && Writable([at], s) && Writable([HEAD], s)
    }

    method CarveFront(b: int, at: int, ghost a: seq<int>, ghost c: seq<int>, ghost f: seq<int>, ghost s: seq<Block>,
                      ghost m: seq<byte>)
      requires Wired(a + [b] + c, f) && Carvable(a, b, c, f, at, s) && SamePayload(s, m, bytes)
      modifies this`used, this`next, this`prev, this`nextFree, this`prevFree, this`bytes
      ensures Wired(a + [b] + ([at] + c), [at] + f) && SamePayload(s, m, bytes)
      ensures used == Kill(old(used), at)[at := false]
    {
      Carve(b, at, a, c, f, s, m);
      InsertFree(at, a + [b] + ([at] + c), f, s, m);
    }

    /** Where the header of the hole above a grown block may go. */
    lemma GrowReady(k: nat, n: nat, at: int)
      requires Valid() && Growable(Abs(), k, n) && at == bs[k].lo + HDR + n
      ensures var a, b, x, c := bs[..k], bs[k], bs[k + 1], bs[k + 2..];
              && Los(bs) == (Los(a) + [b.lo as int]) + [x.lo] + Los(c) && x.lo in free
              && Carvable(Los(a), b.lo, Los(c), Drop(free, x.lo), at, bs)
    {
      var a, b, x, c := bs[..k], bs[k], bs[k + 1], bs[k + 2..];
      NextLo(k);
      assert bs[k + 1].lo + HDR <= bs[k + 1].hi && bs[k].lo + HDR <= bs[k].hi by {
        assert bs[k + 1] in bs && bs[k] in bs;
        TilesBounds(bs, 0, poolSize - HDR, false);
      }
      GrowPlace(k, at);
      Ready();
      FreeBlockListed(k + 1);
      DropKeeps(free, [x] + c);
      DropLeaves(free, x.lo);
      CarvableWithout(Los(a), b.lo, x.lo, Los(c), Drop(free, x.lo), at, bs);
    }

    lemma CarvableWithout(a: seq<int>, b: int, x: int, c: seq<int>, f: seq<int>, at: int, s: seq<Block>)
      requires var l := (a + [b]) + [x] + c;
               && NoDup(l) && End() !in l && Writable(l, s) && forall y :: y in f ==> y in l && y != x
      requires NoDup(f) && HEAD !in f && Apart(a + [b] + c, at) && Apart([End(), HEAD], at)
      requires Writable([at], s) && Writable([End()], s) && Writable([HEAD], s)
      ensures Carvable(a, b, c, f, at, s)
    {
      NoDupSplit(a + [b], x, c);
      assert HEAD in [End(), HEAD];
      forall y | y in f ensures y in a + [b] + c && y in (a + [b]) + [x] + c {}
      forall y | y in a + [b] + c ensures y in (a + [b]) + [x] + c {}
    }

    lemma GrowPlace(k: nat, at: int)
      requires Valid() && k + 1 < |bs| && bs[k].used && !bs[k + 1].used && bs[k].hi < at && at + HDR <= bs[k + 1].hi
      ensures var a, b, x, c := bs[..k], bs[k], bs[k + 1], bs[k + 2..];
              && Los(bs) == (Los(a) + [b.lo as int]) + [x.lo] + Los(c)
              && Apart(Los(a) + [b.lo as int] + Los(c), at)
      ensures Writable([at], bs) && Apart([End(), HEAD], at)
    {
      var a, b, x, c := bs[..k], bs[k], bs[k + 1], bs[k + 2..];
      NextLo(k);
      SplitTwo(bs, k);
      TwoLos(a, b, x, c);
      assert b in bs;
      TilesBounds(bs, 0, poolSize - HDR, false);
      GrowApart(a, b, x, c, poolSize - HDR, at);
      HoleClear(a + [b], x, c, poolSize - HDR, at);
    }

    /** Move the hole above block k up to make room for n bytes. */
    method GrowLists(h: nat, x: nat, at: nat, ghost k: nat, ghost n: nat)
      requires Valid() && Growable(Abs(), k, n) && h == bs[k].lo && x == bs[k + 1].lo && at == h + HDR + n
      modifies this`used, this`next, this`prev, this`nextFree, this`prevFree, this`bytes
      ensures var g := bs[..k] + [Block(h, at, true), Block(at, bs[k + 1].hi, false)] + bs[k + 2..];
              Flags(g, used) && Wired(Los(g), [at] + Drop(free, x))
      ensures SamePayload(bs, old(bytes), bytes)
    {
      ghost var a, c := bs[..k], bs[k + 2..];
      Ready();
      GrowReady(k, n, at);
      SplitTwo(bs, k);
      GrowFlags(a, bs[k], bs[k + 1], c, used, at, bs[k + 1].hi);
      LosTwo(a, Block(h, at, true), Block(at, bs[k + 1].hi, false), c);
      UnlinkNext(x, Los(a), h, Los(c), free, bs, bytes);
      CarveFront(h, at, Los(a), Los(c), Drop(free, x), bs, old(bytes));
    }

    lemma NextLo(k: nat)
      requires Valid() && k + 1 < |bs|
      ensures bs[k].hi == bs[k + 1].lo
    {
      SplitAt(bs, k);
      TilesAround(bs[..k], bs[k], bs[k + 1..], 0, poolSize - HDR, false);
    }

    /** The growing path of rt_memheap_realloc. */
    method Grow(h: nat, size: nat, n: nat, ghost k: nat)
      requires Valid() && Growable(Abs(), k, n) && h == bs[k].lo && size == bs[k].Data()
      modifies this
      ensures Valid() && Abs() == GrowAt(old(Abs()), k, n, poolSize)
      ensures SamePayload(old(bs), old(bytes), bytes)
    {
      GrowAtKeeps(Abs(), k, n, poolSize);
      BlockLinks(k);
      NextLo(k);
      var x := next[h];
      GrowLists(h, x, h + HDR + n, k, n);
      Charge(n - size);
      bs, free := bs[..k] + [Block(h, h + HDR + n, true), Block(h + HDR + n, bs[k + 1].hi, false)] + bs[k + 2..],
                  [h + HDR + n] + Drop(free, x);
    }

    /** The blocks whose data a cut of block k at `at` keeps. */
    ghost function Shrunk(k: nat, at: nat): seq<Block>
      requires k < |bs|
      reads this
    {
      bs[..k] + [Block(bs[k].lo, at, true)] + bs[k + 1..]
    }

    lemma ShrinkReady(k: nat, at: nat)
      requires Valid() && k < |bs| && bs[k].used && bs[k].lo + HDR <= at && at + HDR <= bs[k].hi
      ensures var a, b, c := bs[..k], bs[k], bs[k + 1..];
              && Los(bs) == Los(a) + [b.lo] + Los(c) && Carvable(Los(a), b.lo, Los(c), free, at, Shrunk(k, at))
    {
      var a, b, c := bs[..k], bs[k], bs[k + 1..];
      Ready();
      SplitAt(bs, k);
      LosAround(a, b, c);
      HeaderApart(a, b, c, poolSize - HDR, at);
      CutClear(a, b, c, poolSize - HDR, at);
    }

    lemma CutClear(a: seq<Block>, b: Block, c: seq<Block>, end: nat, at: nat)
      requires Tiles(a + [b] + c, 0, end, false) && b.used && b.lo <= at <= b.hi
      ensures Clear(a + [Block(b.lo, at, true)] + c, at)
      ensures forall x :: Clear(a + [b] + c, x) ==> Clear(a + [Block(b.lo, at, true)] + c, x)
    {
      TilesAround(a, b, c, 0, end, false);
      TilesBounds(a, 0, b.lo, false);
      TilesBounds(c, b.hi, end, false);
      ShrunkClear(a, b, c, at);
    }

    /** MEMITEM_SIZE of the free block above the header h, 0 if that block is used. */
    method UpSize(h: int, ghost l: seq<int>, ghost c: seq<Block>, ghost f: seq<int>, ghost hi: nat) returns (size: int)
      requires Wired(l + [h] + Los(c), f) && Flags(c, used) && poolSize >= HDR && Tiles(c, hi, poolSize - HDR, false)
      ensures size == if MergesUp(c) then c[0].Data() else 0
    {
      DlsAround(l, h, Los(c), End(), End(), next, prev);
      if c != [] { assert c[0] in c; }
      var n := next[h];
      if used[n] { return 0; }
      AboveLos(l, h, c);
      DlsAround(l + [h], n, Los(c[1..]), End(), End(), next, prev);
      LosBounds(c[1..], c[0].hi, poolSize - HDR, true);
      size := next[n] - n - HDR;
    }

    /** MEMITEM_SIZE of the hole at h below the blocks c. */
    method HoleSize(h: int, ghost l: seq<int>, ghost c: seq<Block>, ghost f: seq<int>, ghost hi: nat)
      returns (size: int)
      requires Wired(l + [h] + Los(c), f) && poolSize >= HDR && Tiles(c, hi, poolSize - HDR, true)
      ensures size == hi - h - HDR
    {
      DlsAround(l, h, Los(c), End(), End(), next, prev);
      LosBounds(c, hi, poolSize - HDR, true);
      size := next[h] - h - HDR;
    }

    /** The headers once `at` is among them. */
    lemma Carved(a: seq<int>, b: int, c: seq<int>, f: seq<int>, at: int, s: seq<Block>)
      requires Carvable(a, b, c, f, at, s)
      ensures var l := (a + [b]) + [at] + c;
              NoDup(l) && End() !in l && Writable(l, s) && l == a + [b] + ([at] + c)
    {
      NoDupInsert(a + [b], at, c);
      assert at in [at] && End() in [End(), HEAD];
      forall x | x in (a + [b]) + [at] + c ensures x in a + [b] + c || x in [at] {}
    }

    /** The new hole at the end of `l` joins a free block above it and goes to the
        front of the free list. */
    method MergeCut(at: int, ghost l: seq<int>, ghost c: seq<Block>, ghost f: seq<nat>, ghost s: seq<Block>,
                    ghost m: seq<byte>, ghost hi: nat)
      requires Wired(l + [at] + Los(c), f) && NoDup(l + [at] + Los(c)) && End() !in l + [at] + Los(c) && Flags(c, used)
      requires NoDup(f) && HEAD !in f && at !in f && at != HEAD && (MergesUp(c) ==> c[0].lo in f)
      requires Writable(l + [at] + Los(c), s) && Writable([End()], s) && Writable(f, s) && Writable([HEAD], s)
      requires Writable([at], s) && SamePayload(s, m, bytes) && poolSize >= HDR && Tiles(c, hi, poolSize - HDR, false)
      modifies this`next, this`prev, this`nextFree, this`prevFree, this`bytes, this`availableSize
      ensures Wired(l + [at] + Los(Above(c)), [at] + UpDropped(f, c)) && SamePayload(s, m, bytes)
      ensures availableSize == old(availableSize) - (if MergesUp(c) then c[0].Data() else 0) +
              (HoleHi(c, hi) - at - HDR)
    {
      MergeUp(c, hi, poolSize - HDR);
      DropKeeps(f, c);
      var up := UpSize(at, l, c, f, hi);
      availableSize := availableSize - up;
      var merged := MergeNext(at, l, c, f, s, m);
      InsertFree(at, l + [at] + Los(Above(c)), UpDropped(f, c), s, m);
      var size := HoleSize(at, l, Above(c), [at] + UpDropped(f, c), HoleHi(c, hi));
      availableSize := availableSize + size;
    }

    /** The cut: a new header in block k, joined with a free block above it. */
    method ShrinkLists(h: nat, at: nat, ghost k: nat)
      requires Valid() && k < |bs| && bs[k].used && h == bs[k].lo && h + HDR <= at && at + HDR <= bs[k].hi
      modifies this`used, this`next, this`prev, this`nextFree, this`prevFree, this`bytes, this`availableSize
      ensures Flags(bs[..k], used) && Flags(Above(bs[k + 1..]), used)
      ensures h in used && used[h] && at in used && !used[at]
      ensures Wired((Los(bs[..k]) + [h as int]) + [at as int] + Los(Above(bs[k + 1..])),
                [at] + UpDropped(free, bs[k + 1..]))
      ensures availableSize == old(availableSize) - (if MergesUp(bs[k + 1..]) then bs[k + 1].Data() else 0)
                               + (HoleHi(bs[k + 1..], bs[k].hi) - at - HDR)
      ensures SamePayload(Shrunk(k, at), old(bytes), bytes)
    {
      ghost var a, c, s := bs[..k], bs[k + 1..], Shrunk(k, at);
      ShrinkReady(k, at);
      UsedNotListed(k);
      CutFlagsOf(k, at);
      Carved(Los(a), h, Los(c), free, at, s);
      CutTiles(k);
      Carve(h, at, Los(a), Los(c), free, s, bytes);
      MergeCut(at, Los(a) + [h], c, free, s, old(bytes), bs[k].hi);
    }

    lemma CutTiles(k: nat)
      requires Valid() && k < |bs| && bs[k].used
      ensures Tiles(bs[k + 1..], bs[k].hi, poolSize - HDR, false)
    {
      SplitAt(bs, k);
      TilesAround(bs[..k], bs[k], bs[k + 1..], 0, poolSize - HDR, false);
    }

    lemma CutFlagsOf(k: nat, at: nat)
      requires Valid() && k < |bs| && bs[k].used && Apart(Los(bs), at)
      ensures var u := Kill(used, at)[at := false];
              && Flags(bs[..k], u) && Flags(bs[k + 1..], u) && Flags(Above(bs[k + 1..]), u)
              && bs[k].lo in u && u[bs[k].lo]
    {
      var u := Kill(used, at)[at := false];
      forall x | x in bs ensures x.lo in u && u[x.lo] == x.used { LosIn(bs, x.lo); }
      SplitAt(bs, k);
      assert bs[k] in bs;
      forall x | x in bs[..k] || x in bs[k + 1..] ensures x in bs {}
    }

    /** The shrinking path of rt_memheap_realloc. */
    method Shrink(h: nat, n: nat, ghost k: nat)
      requires Valid() && Shrinkable(Abs(), k, n) && h == bs[k].lo
      modifies this
      ensures Valid() && Abs() == ShrinkAt(old(Abs()), k, n)
      ensures SamePayload(old(Shrunk(k, h + HDR + n)), old(bytes), bytes)
    {
      ShrinkAtKeeps(Abs(), k, n, poolSize);
      ShrinkStep(h, n, k, Shrunk(k, h + HDR + n));
    }

    method ShrinkStep(h: nat, n: nat, ghost k: nat, ghost s: seq<Block>)
      requires Valid() && Shrinkable(Abs(), k, n) && h == bs[k].lo && s == Shrunk(k, h + HDR + n)
      modifies this
      ensures Abs() == ShrinkAt(old(Abs()), k, n) && Flags(bs, used) && Wired(Los(bs), free)
      ensures SamePayload(s, old(bytes), bytes)
    {
      ghost var g := ShrinkAt(Abs(), k, n);
      ShrinkAtParts(Abs(), k, n, h + HDR + n);
      ShrinkFits(k, n);
      CutBlock(h, h + HDR + n, k, s);
      bs, free := g.bs, g.free;
    }

    lemma ShrinkFits(k: nat, n: nat)
      requires Shrinkable(Abs(), k, n)
      ensures bs[k].lo + HDR + n + HDR <= bs[k].hi
    {
    }

    /** The cut with the blocks it leaves. */
    method CutBlock(h: nat, at: nat, ghost k: nat, ghost s: seq<Block>)
      requires Valid() && k < |bs| && bs[k].used && h == bs[k].lo && h + HDR <= at && at + HDR <= bs[k].hi &&
               s == Shrunk(k, at)
      modifies this`used, this`next, this`prev, this`nextFree, this`prevFree, this`bytes, this`availableSize
      ensures var c := bs[k + 1..];
              var g := bs[..k] + [Block(h, at, true), Block(at, HoleHi(c, bs[k].hi), false)] + Above(c);
              && Flags(g, used) && Wired(Los(g), [at] + UpDropped(free, c))
              && availableSize == old(availableSize) - (if MergesUp(c) then c[0].Data() else 0) +
                (HoleHi(c, bs[k].hi) - at - HDR)
      ensures SamePayload(s, old(bytes), bytes)
    {
      ghost var a, c := bs[..k], Above(bs[k + 1..]);
      ghost var t, r := Block(h, at, true), Block(at, HoleHi(bs[k + 1..], bs[k].hi), false);
      TwoShape(a, t, r, c);
      ShrinkLists(h, at, k);
      TwoFlags(a, t, r, c, used);
    }

    /** rt_memcpy inside the pool. */
    method CopyBytes(src: nat, dst: nat, n: nat)
      requires src + n <= |bytes| && dst + n <= |bytes|
      modifies this`bytes
      ensures |bytes| == |old(bytes)| && bytes[dst..dst + n] == old(bytes)[src..src + n]
      ensures forall i :: 0 <= i < |bytes| && !(dst <= i < dst + n) ==> bytes[i] == old(bytes)[i]
    {
      bytes := bytes[..dst] + bytes[src..src + n] + bytes[dst + n..];
    }

    /** Copy the data of block b to the block just allocated at q. */
    method CopyTo(p: nat, q: nat, n: nat, ghost s: seq<Block>, ghost b: Block, ghost m: seq<byte>)
      requires SamePayload(s, m, bytes) && b in s && b.used && b.hi <= |bytes| && p == b.lo + HDR
      requires n <= b.Data() && q + n <= |bytes|
      requires forall x :: x in s && x.used ==> x.hi <= q - HDR || q + n <= x.lo
      modifies this`bytes
      ensures Others(s, Some(p), m, bytes) && KeptData(m, p, bytes, q, n) && |bytes| == |old(bytes)|
    {
      StaysData(s, b, m, bytes, n);
      CopyBytes(p, q, n);
      CopiedOthers(s, p, q, n, m, old(bytes), bytes);
    }

    /** Another block with a copy of the data of block b. */
    method AllocCopy(p: nat, size: nat, n: nat, ghost b: Block) returns (r: Option<int>, ghost t: Block)
      requires Valid() && b in bs && b.used && p == b.lo + HDR && size == b.Data() < n == Rounded(n)
      modifies this
      ensures Valid()
      ensures Abs() == MemHeapSpec.Alloc(old(Abs()), n, poolSize).0 && r == MemHeapSpec.Alloc(old(Abs()), n, poolSize).1
      ensures r.None? ==> Abs() == old(Abs()) && SamePayload(old(bs), old(bytes), bytes)
      ensures r.Some? ==> t in bs && t.used && t.lo + HDR == r.value && t.lo + HDR + size <= t.hi && Live(bs, p)
      ensures r.Some? ==> Others(old(bs), Some(p), old(bytes), bytes) && KeptData(old(bytes), p, bytes, r.value, size)
      ensures r.Some? ==> forall x :: x in old(bs) && x.used ==> x in bs
    {
      t := b;
      r := Alloc(n);
      if r.Some? {
        t := MoveTarget(old(Abs()), n, poolSize, b);
        CopyTo(p, r.value, size, old(bs), b, old(bytes));
      }
    }

    /** The path of rt_memheap_realloc that moves block b. */
    method MovePath(p: nat, size: nat, n: nat, ghost b: Block) returns (r: Option<int>)
      requires Valid() && b in bs && b.used && p == b.lo + HDR && size == b.Data() < n == Rounded(n)
      modifies this
      ensures Valid()
      ensures Abs() == Move(old(Abs()), p, n, poolSize).0 && r == Move(old(Abs()), p, n, poolSize).1
      ensures Others(old(bs), Some(p), old(bytes), bytes)
      ensures r.None? ==> Abs() == old(Abs()) && SamePayload(old(bs), old(bytes), bytes)
      ensures r.Some? ==> KeptData(old(bytes), p, bytes, r.value, size)
    {
      ghost var t;
      r, t := AllocCopy(p, size, n, b);
      if r.Some? {
        ghost var g, m := bs, bytes;
        Free(Some(p));
        MovedKeeps(old(bs), g, t, old(bytes), p, m, bytes, size);
      } else {
        OthersFrom(old(bs), old(bs), Some(p), old(bytes), bytes);
      }
    }

    /** Whether the next block is free and leaves more than the minimum. */
    method HasRoom(h: nat, size: int, n: nat, ghost k: nat) returns (room: bool)
      requires Valid() && k < |bs| && h == bs[k].lo && size == bs[k].Data()
      ensures room == Grows(bs, k, n)
    {
      BlockLinks(k);
      NextFlag(k);
      var nx := next[h];
      if used[nx] { return false; }
      NextLo(k);
      BlockLinks(k + 1);
      return next[nx] - nx - HDR + size > n + MINI;
    }

    /** The growing path, with what it keeps. */
    method GrowPath(p: nat, size: nat, n: nat, ghost k: nat)
      requires Valid() && Growable(Abs(), k, n) && p == bs[k].lo + HDR && size == bs[k].Data()
      modifies this
      ensures Valid() && Abs() == GrowAt(old(Abs()), k, n, poolSize)
      ensures Others(old(bs), Some(p), old(bytes), bytes) && KeptData(old(bytes), p, bytes, p, size)
    {
      TilesBounds(bs, 0, poolSize - HDR, false);
      assert bs[k] in bs;
      Grow(p - HDR, size, n, k);
      StaysData(old(bs), old(bs)[k], old(bytes), bytes, size);
      OthersFrom(old(bs), old(bs), Some(p), old(bytes), bytes);
    }

    /** The shrinking path, with what it keeps. */
    method ShrinkPath(p: nat, n: nat, ghost k: nat)
      requires Valid() && Shrinkable(Abs(), k, n) && p == bs[k].lo + HDR
      modifies this
      ensures Valid() && Abs() == ShrinkAt(old(Abs()), k, n)
      ensures Others(old(bs), Some(p), old(bytes), bytes) && KeptData(old(bytes), p, bytes, p, n)
    {
      ShrinkFrame(bs, k, poolSize - HDR);
      Shrink(p - HDR, n, k);
      ShrunkData(old(bs)[..k], old(bs)[k], old(bs)[k + 1..], n, old(bytes), bytes);
    }

    /** rt_memheap_realloc of block k to more than it has. */
    method ReallocUp(p: nat, size: nat, n: nat, ghost k: nat) returns (r: Option<int>)
      requires Valid() && k < |bs| && bs[k].used && p == bs[k].lo + HDR && size == bs[k].Data() < n == Rounded(n)
      modifies this
      ensures Valid()
      ensures Abs() == ReallocAt(old(Abs()), k, n, poolSize).0 && r == ReallocAt(old(Abs()), k, n, poolSize).1
      ensures Others(old(bs), Some(p), old(bytes), bytes)
      ensures r.None? ==> Abs() == old(Abs()) && SamePayload(old(bs), old(bytes), bytes)
      ensures r.Some? ==> KeptData(old(bytes), p, bytes, r.value, size)
    {
      var room := HasRoom(p - HDR, size, n, k);
      if room {
        GrowPath(p, size, n, k);
        r := Some(p);
      } else {
        r := MovePath(p, size, n, bs[k]);
      }
    }

    /** rt_memheap_realloc of block k to no more than it has. */
    method ReallocDown(p: nat, size: nat, n: nat, ghost k: nat)
      requires Valid() && k < |bs| && bs[k].used && p == bs[k].lo + HDR && n <= size == bs[k].Data() && n == Rounded(n)
      modifies this
      ensures Valid()
      ensures Abs() == ReallocAt(old(Abs()), k, n, poolSize).0 && Some(p) == ReallocAt(old(Abs()), k, n, poolSize).1
      ensures Others(old(bs), Some(p), old(bytes), bytes) && KeptData(old(bytes), p, bytes, p, n)
    {
      if n + HDR + MINI >= size {
        assert bs[k] in bs;
        TilesBounds(bs, 0, poolSize - HDR, false);
        StaysData(bs, bs[k], bytes, bytes, n);
      } else {
        ShrinkPath(p, n, k);
      }
    }

    /** rt_memheap_realloc of a live block to a non-zero size. */
    method ReallocLive(p: nat, n: nat, ghost k: nat) returns (r: Option<int>)
      requires Valid() && k < |bs| && bs[k].used && p == bs[k].lo + HDR && n == Rounded(n)
      modifies this
      ensures Valid()
      ensures Abs() == ReallocAt(old(Abs()), k, n, poolSize).0 && r == ReallocAt(old(Abs()), k, n, poolSize).1
      ensures Others(old(bs), Some(p), old(bytes), bytes)
      ensures r.None? ==> Abs() == old(Abs()) && SamePayload(old(bs), old(bytes), bytes)
      ensures r.Some? ==> KeptData(old(bytes), p, bytes, r.value, Min(old(bs)[k].Data(), n))
    {
      var size := UsedSize(p - HDR, k);
      if n > size {
        r := ReallocUp(p, size, n, k);
      } else {
        ReallocDown(p, size, n, k);
        r := Some(p);
      }
    }

    /** MEMITEM_SIZE of block k. */
    method UsedSize(h: int, ghost k: nat) returns (size: nat)
      requires Valid() && k < |bs| && h == bs[k].lo
      ensures size == bs[k].Data()
    {
      BlockLinks(k);
      assert bs[k] in bs;
      TilesBounds(bs, 0, poolSize - HDR, false);
      size := next[h] - h - HDR;
    }

    /** rt_memheap_realloc of a live block. */
    method ReallocSome(p: nat, ghost newsize: nat, n: nat) returns (r: Option<int>)
      requires Valid() && Live(bs, p) && newsize != 0 && n == Rounded(newsize)
      modifies this
      ensures Valid()
      ensures Abs() == MemHeapSpec.Realloc(old(Abs()), Some(p), newsize, poolSize).0
      ensures r == MemHeapSpec.Realloc(old(Abs()), Some(p), newsize, poolSize).1
      ensures Others(old(bs), Some(p), old(bytes), bytes)
      ensures r.None? ==> Abs() == old(Abs()) && SamePayload(old(bs), old(bytes), bytes)
      ensures r.Some? ==> KeptData(old(bytes), p, bytes, r.value, Min(DataOf(old(bs), p), n))
    {
      ghost var k := Index(bs, p - HDR);
      LiveIndex(bs, p, poolSize - HDR);
      ReallocIs(Abs(), p, newsize, poolSize);
      RoundedTwice(newsize);
      r := ReallocLive(p, n, k);
    }

    /** rt_memheap_realloc. The first bytes survive whichever path is taken, the
        other live blocks are not disturbed, and a failure changes nothing. */
    method Realloc(p: Option<int>, newsize: nat) returns (r: Option<int>)
      requires Valid() && (p.Some? ==> Live(bs, p.value)) && newsize + 3 + HDR + MINI < WORD
      modifies this
      ensures Valid()
      ensures Abs() == MemHeapSpec.Realloc(old(Abs()), p, newsize, poolSize).0
      ensures r == MemHeapSpec.Realloc(old(Abs()), p, newsize, poolSize).1
      ensures Others(old(bs), p, old(bytes), bytes)
      ensures r.None? && newsize != 0 ==> Abs() == old(Abs()) && SamePayload(old(bs), old(bytes), bytes)
      ensures p.Some? && r.Some? ==>
                KeptData(old(bytes), p.value, bytes, r.value, Min(DataOf(old(bs), p.value), Rounded(newsize)))
      ensures r.Some? ==> Live(bs, r.value) && newsize <= DataOf(bs, r.value)
    {
      if newsize == 0 {
        Free(p);
        OthersFrom(old(bs), old(bs), p, old(bytes), bytes);
        return None;
      }
      var n := Align(newsize);
      if n < MINI { n := MINI; }
      if p == None {
        RoundedIs(newsize);
        r := Alloc(n);
        OthersFrom(old(bs), old(bs), p, old(bytes), bytes);
      } else {
        ReallocHolds(Abs(), p.value, newsize, poolSize);
        r := ReallocSome(p.value, newsize, n);
      }
    }

    /** rt_memheap_init on a pool of `size` bytes that can hold one block. */
    constructor (size: nat)
      requires size / 4 * 4 >= 2 * HDR + MINI
      ensures Valid() && poolSize == size / 4 * 4 && Abs() == Initial(poolSize)
    {
      poolSize := size / 4 * 4;
      var avail := size / 4 * 4 - 2 * HDR;
      availableSize, maxUsedSize := avail, 2 * HDR;
      used := map[0 := false, avail + HDR := true];
      next := map[0 := avail + HDR, avail + HDR := 0];
      prev := map[0 := avail + HDR, avail + HDR := 0];
      nextFree := map[HEAD := 0, 0 := HEAD, avail + HDR := NULL];
      prevFree := map[HEAD := 0, 0 := HEAD, avail + HDR := NULL];
      bytes := seq(size / 4 * 4, _ => 0);
      bs, free := [Block(0, avail + HDR, false)], [0];
      new;
      InitialInv(poolSize);
      assert Abs() == Initial(poolSize);
    }
  }
}
