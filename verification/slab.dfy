/** slab.c as a whole: small requests are served from zones, large ones from the
    page allocator, and the usage table finds the block again from its address. */
module SlabSpec {
  import opened Options
  import opened Words
  import P = PageSpec
  import Z = SlabZoneSpec

  const PAGE := 4096              // RT_MM_PAGE_SIZE

  /** The entry of a page in `memusage`: its type and size. */
  datatype Usage = Unused | Large(n: nat) | Small(off: nat)

  /** Pages are counted from `heap_start`; `table` is the first page of `memusage`. */
  datatype Slab = Slab(pages: P.Heap, zs: Z.Slab, usage: map<int, Usage>, table: int)

  function ZonePages(s: Slab): nat { s.zs.Z / PAGE }

  // -------------------------------------------------------------- operations

  /** The address of chunk i of zone z. */
  function ChunkAddr(zs: Z.Slab, z: Z.Id, i: nat): nat
    requires z in zs.zones && zs.zones[z].chunkSize > 0
  {
    z * PAGE + Z.ChunkOff(zs.zones[z], i)
  }

  function Marked(u: map<int, Usage>, z: int, n: nat): map<int, Usage> {
    u + map k: int | z <= k < z + n && P.Within(k, z, n) :: Small(k - z)
  }

  function Unmarked(u: map<int, Usage>, z: int, n: nat): map<int, Usage> {
    u + map k: int | z <= k < z + n && P.Within(k, z, n) :: Unused
  }

  /** rt_page_free of n pages. */
  ghost function Freed(h: P.Heap, at: nat, n: nat): P.Heap {
    P.Heap(P.Free(h.rs, at, n), h.live - {at}, h.own - P.Span(at, n))
  }

  /** RT_ALIGN to a page, which wraps, in pages. */
  function PageCount(size: nat): nat { (size + PAGE - 1) % WORD / PAGE }

  /** rt_malloc of zone_limit bytes or more. */
  ghost function MallocLarge(s: Slab, size: nat): (Slab, Option<nat>) {
    var n := PageCount(size);
    if n == 0 || P.Alloc(s.pages.rs, n).0 == None then (s, None)
    else
      var a := P.Alloc(s.pages.rs, n).0.value;
      (s.(pages := P.Step(s.pages, P.OpAlloc(n)), usage := s.usage[a := Large(n)]), Some(a * PAGE))
  }

  /** No zone of the class has a chunk and no empty zone is kept. */
  predicate NeedsPages(zs: Z.Slab, size: nat)
    requires 0 <= Z.Zoneindex(size).0 < |zs.arr|
  {
    zs.arr[Z.Zoneindex(size).0] == [] && zs.idle == []
  }

  /** rt_malloc of a smaller size. */
  ghost function MallocSmall(s: Slab, size: nat): (Slab, Option<nat>)
    requires Z.Inv(s.zs) && Z.AllLaidOut(s.zs) && 0 < size < Z.Limit(s.zs.Z)
  {
    Z.ListsKnown(s.zs, size);
    var page := P.Alloc(s.pages.rs, ZonePages(s)).0;
    var (g, r) := Z.Alloc(s.zs, size, page);
    if r == None then (s, None)
    else
      var (z, i) := r.value;
      var t := if NeedsPages(s.zs, size)
               then s.(pages := P.Step(s.pages, P.OpAlloc(ZonePages(s))), usage := Marked(s.usage, z, ZonePages(s)))
               else s;
      (t.(zs := g), if z in g.zones && g.zones[z].chunkSize > 0 then Some(ChunkAddr(g, z, i)) else None)
  }

  ghost function Malloc(s: Slab, size: nat): (Slab, Option<nat>)
    requires Z.Inv(s.zs) && Z.AllLaidOut(s.zs)
  {
    if size == 0 then (s, None)
    else if size >= Z.Limit(s.zs.Z) then MallocLarge(s, size)
    else MallocSmall(s, size)
  }

  /** rt_free of an address: the table tells a large block, and its size, from a page
      of a zone, and how far behind the zone's header that page is. */
  ghost function Free(s: Slab, p: nat): Slab {
    var page := p / PAGE;
    if page !in s.usage then s
    else match s.usage[page]
      case Unused => s
      case Large(n) => s.(usage := s.usage[page := Large(0)], pages := Freed(s.pages, page, n))
      case Small(off) =>
        if off <= page && page - off in s.zs.zones then FreeChunk(s, page - off, p) else s
  }

  ghost function FreeChunk(s: Slab, z: nat, p: nat): Slab
    requires z in s.zs.zones
  {
    var i := ChunkIndex(s.zs.zones[z], p - z * PAGE);
    if s.zs.zones[z].cls >= |s.zs.arr| || i < 0 then s
    else
      var (g, released) := Z.Free(s.zs, z, i);
      if released == None then s.(zs := g)
      else s.(zs := g, usage := Unmarked(s.usage, z, ZonePages(s)), pages := Freed(s.pages, z, ZonePages(s)))
  }

  /** Which chunk of its zone starts at the offset. */
  function ChunkIndex(b: Z.Zone, off: int): int {
    if b.chunkSize == 0 then 0 else (off - Z.BaseOff(b.chunkSize)) / b.chunkSize
  }

  // -------------------------------------------------------------- invariants

  ghost predicate IsZone(s: Slab, a: int) {
    a >= 0 && (a in s.zs.zones || a in s.zs.idle)
  }

  /** Every zone is a live allocation of pages, the table names zone pages and large
      blocks as they are, and the table itself is neither. */
  ghost predicate Inv(s: Slab, total: nat) {
    P.Inv(s.pages, total) && Z.Inv(s.zs) && Z.AllLaidOut(s.zs) && Mapped(s)
  }

  ghost predicate Mapped(s: Slab) {
    && s.table in s.pages.live && !IsZone(s, s.table)
    && (forall z :: IsZone(s, z) ==> z in s.pages.live && s.pages.live[z] == ZonePages(s))
    && (forall z, k :: IsZone(s, z) && P.Within(k, z, ZonePages(s)) ==> k in s.usage && s.usage[k] == Small(k - z))
    && (forall a :: IsLarge(s, a) ==> a in s.usage && s.usage[a] == Large(s.pages.live[a]))
  }

  /** A large block in a caller's hands starts on page a. */
  ghost predicate IsLarge(s: Slab, a: int) {
    a in s.pages.live && !IsZone(s, a) && a != s.table
  }

  /** A block: chunk i of zone z, or pages from page a on. */
  datatype Block = Chunk(z: Z.Id, i: nat) | Pages(a: int)

  ghost predicate Live(s: Slab, x: Block) {
    match x
    case Chunk(z, i) => Z.Live(s.zs, z, i)
    case Pages(a) => IsLarge(s, a)
  }

  /** Address and length of a live block. */
  ghost function Lo(s: Slab, x: Block): int
    requires Live(s, x) && Z.AllLaidOut(s.zs)
  {
    match x
    case Chunk(z, i) => assert Z.LaidOut(s.zs.zones[z], s.zs.Z); ChunkAddr(s.zs, z, i)
    case Pages(a) => a * PAGE
  }

  ghost function Size(s: Slab, x: Block): int
    requires Live(s, x)
  {
    match x
    case Chunk(z, i) => s.zs.zones[z].chunkSize
    case Pages(a) => s.pages.live[a] * PAGE
  }

  /** The pages a live block lies in. */
  ghost function First(x: Block): int { if x.Chunk? then x.z else x.a }

  // ------------------------------------------------- where live blocks are

  lemma ChunkInside(b: Z.Zone, size: nat, i: nat)
    requires Z.ZoneSize(size) && Z.LaidOut(b, size) && i < b.nmax
    ensures Z.HEADER <= Z.ChunkOff(b, i) && Z.ChunkOff(b, i) + b.chunkSize <= size
  {
    Z.NmaxIs(b.chunkSize, size);
    if i == 0 { Z.ChunksApart(b, size, 0, 1); } else { Z.ChunksApart(b, size, i - 1, i); }
  }

  lemma BlockInside(s: Slab, total: nat, x: Block)
    requires Inv(s, total) && Live(s, x)
    ensures First(x) in s.pages.live && First(x) != s.table && First(x) >= 0
    ensures First(x) * PAGE <= Lo(s, x) && Lo(s, x) + Size(s, x) <= (First(x) + s.pages.live[First(x)]) * PAGE
  {
    match x {
      case Chunk(z, i) =>
        assert IsZone(s, z) && Z.ZoneOk(s.zs.zones[z]) && Z.LaidOut(s.zs.zones[z], s.zs.Z);
        ChunkInside(s.zs.zones[z], s.zs.Z, i);
      case Pages(a) =>
    }
  }

  lemma RunsApart(h: P.Heap, a: int, b: int)
    requires P.Owned(h.live, h.own) && a in h.live && b in h.live && a < b
    ensures a + h.live[a] <= b
  {
    assert P.Within(b, b, h.live[b]) && h.own[b] == b;
    assert !P.Within(b, a, h.live[a]);
  }

  /** Two live blocks never share a byte, whichever zones or pages they come from. */
  lemma BlocksApart(s: Slab, total: nat, x: Block, y: Block)
    requires Inv(s, total) && Live(s, x) && Live(s, y) && x != y
    ensures Lo(s, x) + Size(s, x) <= Lo(s, y) || Lo(s, y) + Size(s, y) <= Lo(s, x)
  {
    BlockInside(s, total, x);
    BlockInside(s, total, y);
    if First(x) < First(y) { RunsApart(s.pages, First(x), First(y)); }
    else if First(y) < First(x) { RunsApart(s.pages, First(y), First(x)); }
    else {
      var z := First(x);
      if x.Chunk? { assert IsZone(s, x.z); }
      if y.Chunk? { assert IsZone(s, y.z); }
      assert x.Chunk? && y.Chunk?;
      assert Z.ZoneOk(s.zs.zones[x.z]) && Z.LaidOut(s.zs.zones[x.z], s.zs.Z);
      if x.i < y.i { Z.ChunksApart(s.zs.zones[x.z], s.zs.Z, x.i, y.i); }
      else { Z.ChunksApart(s.zs.zones[x.z], s.zs.Z, y.i, x.i); }
    }
  }

  /** Blocks lie inside the heap and clear of the usage table. */
  lemma BlockInHeap(s: Slab, total: nat, x: Block)
    requires Inv(s, total) && Live(s, x)
    ensures 0 <= Lo(s, x) && Lo(s, x) + Size(s, x) <= total * PAGE
    ensures var t := s.table;
            Lo(s, x) + Size(s, x) <= t * PAGE || (t + s.pages.live[t]) * PAGE <= Lo(s, x)
  {
    BlockInside(s, total, x);
    var a, t := First(x), s.table;
    var last := a + s.pages.live[a] - 1;
    assert P.Within(last, a, s.pages.live[a]);
    assert last in P.Span(0, total);
    if a < t { RunsApart(s.pages, a, t); } else { RunsApart(s.pages, t, a); }
  }

  // ---------------------------------------------------------------- rt_malloc

  /** Apart from x, the same blocks are live, where they were and as long as before. */
  ghost predicate OthersStay(s: Slab, g: Slab, x: Block)
    requires Z.AllLaidOut(s.zs) && Z.AllLaidOut(g.zs)
  {
    forall y :: y != x && (Live(s, y) || Live(g, y)) ==>
      Live(s, y) && Live(g, y) && Lo(g, y) == Lo(s, y) && Size(g, y) == Size(s, y)
  }

  /** x has become live, at address p and large enough, and nothing else has changed. */
  ghost predicate HandsOut(s: Slab, g: Slab, x: Block, p: int, size: nat)
    requires Z.AllLaidOut(s.zs) && Z.AllLaidOut(g.zs)
  {
    !Live(s, x) && Live(g, x) && Lo(g, x) == p && size <= Size(g, x) && OthersStay(s, g, x)
  }

  /** Pages not handed out before. */
  lemma PagesFresh(s: Slab, n: nat, total: nat)
    requires Inv(s, total) && 0 < n && P.Alloc(s.pages.rs, n).0.Some?
    ensures var a := P.Alloc(s.pages.rs, n).0.value;
            var h := P.Step(s.pages, P.OpAlloc(n));
            && P.Inv(h, total) && h.live == s.pages.live[a := n] && a !in s.pages.live
            && (forall b, k :: b in s.pages.live && P.Within(k, b, s.pages.live[b]) ==> !P.Within(k, a, n))
  {
    P.AllocKeepsInv(s.pages, n, total);
    P.AllocTakes(s.pages.rs, n, -1);
    var a := P.Alloc(s.pages.rs, n).0.value;
    forall b, k | b in s.pages.live && P.Within(k, b, s.pages.live[b]) ensures !P.Within(k, a, n) {
      assert k in s.pages.own;
      assert P.Within(k, a, n) ==> k in P.Span(a, n);
    }
    assert P.Within(a, a, n);
    if a in s.pages.live { assert P.Within(a, a, s.pages.live[a]); }
  }

  /** A large block on page a of n pages that nobody had. */
  lemma LargeKeeps(s: Slab, g: Slab, a: int, n: nat)
    requires Mapped(s) && a >= 0 && a !in s.pages.live && 0 < n
    requires forall b, k :: b in s.pages.live && P.Within(k, b, s.pages.live[b]) ==> !P.Within(k, a, n)
    requires g.zs == s.zs && g.table == s.table && g.pages.live == s.pages.live[a := n] &&
             g.usage == s.usage[a := Large(n)]
    ensures Mapped(g) && IsLarge(g, a) && !IsLarge(s, a)
    ensures forall b :: b != a ==> (IsLarge(g, b) <==> IsLarge(s, b))
    ensures forall b :: b != a && b in s.pages.live ==> g.pages.live[b] == s.pages.live[b]
  {
    assert P.Within(a, a, n);
    forall z, k | IsZone(g, z) && P.Within(k, z, ZonePages(g)) ensures k in g.usage && g.usage[k] == Small(k - z) {
      assert IsZone(s, z) && k != a;
    }
  }

  lemma LargeHandsOut(s: Slab, g: Slab, a: int, n: nat, size: nat)
    requires Z.AllLaidOut(s.zs) && g.zs == s.zs && IsLarge(g, a) && !IsLarge(s, a) && g.pages.live[a] == n &&
             size <= n * PAGE
    requires forall b :: b != a ==> (IsLarge(g, b) <==> IsLarge(s, b))
    requires forall b :: b != a && b in s.pages.live ==> b in g.pages.live && g.pages.live[b] == s.pages.live[b]
    ensures HandsOut(s, g, Pages(a), a * PAGE, size)
  {
  }

  /** Where RT_ALIGN wraps there are no pages to ask for. */
  lemma PagesHold(size: nat)
    requires 0 < size < WORD
    ensures PageCount(size) != 0 ==> size <= PageCount(size) * PAGE
  {
    var m := size + PAGE - 1;
    if m >= WORD { assert m % WORD == m - WORD; } else { assert m % WORD == m; }
  }

  lemma LargePlaced(s: Slab, g: Slab, a: int, n: nat, size: nat)
    requires Mapped(s) && Z.AllLaidOut(s.zs) && a >= 0 && a !in s.pages.live && 0 < n && size <= n * PAGE
    requires forall b, k :: b in s.pages.live && P.Within(k, b, s.pages.live[b]) ==> !P.Within(k, a, n)
    requires g.zs == s.zs && g.table == s.table && g.pages.live == s.pages.live[a := n] &&
             g.usage == s.usage[a := Large(n)]
    ensures Mapped(g) && HandsOut(s, g, Pages(a), a * PAGE, size)
  {
    LargeKeeps(s, g, a, n);
    LargeHandsOut(s, g, a, n, size);
  }

  lemma LargeGives(s: Slab, size: nat, total: nat)
    requires Inv(s, total) && 0 < size < WORD
    ensures var (g, r) := MallocLarge(s, size);
            && Inv(g, total) && (r == None ==> g == s)
            && (r.Some? ==> r.value % PAGE == 0 && HandsOut(s, g, Pages(r.value / PAGE), r.value, size))
  {
    var n := PageCount(size);
    if n != 0 && P.Alloc(s.pages.rs, n).0.Some? {
      PagesFresh(s, n, total);
      var a := P.Alloc(s.pages.rs, n).0.value;
      PagesHold(size);
      LargePlaced(s, MallocLarge(s, size).0, a, n, size);
      assert a * PAGE / PAGE == a;
    }
  }

  /** The zone path without new pages leaves the zones and everybody's chunk size. */
  lemma ZonesStay(zs: Z.Slab, size: nat, page: Option<Z.Id>)
    requires Z.Inv(zs) && Z.AllLaidOut(zs) && 0 < size < Z.Limit(zs.Z)
    requires page.Some? ==> page.value !in zs.zones && page.value !in zs.idle
    ensures 0 <= Z.Zoneindex(size).0 < Z.NZONES && Z.Zoneindex(size).1 > 0
    ensures forall z :: z in zs.arr[Z.Zoneindex(size).0] ==> z in zs.zones
    ensures var (g, r) := Z.Alloc(zs, size, page);
            && g.Z == zs.Z
            && (forall z :: z in zs.zones ==> z in g.zones && g.zones[z].chunkSize == zs.zones[z].chunkSize)
            && (!NeedsPages(zs, size) ==> r.Some? && forall z ::
                  z in g.zones || z in g.idle <==> z in zs.zones || z in zs.idle)
            && (NeedsPages(zs, size) ==> r == if page.Some? then Some((page.value, 0)) else None)
            && (NeedsPages(zs, size) ==>
                forall z :: z in g.zones || z in g.idle <==> z in zs.zones || z in zs.idle || page == Some(z))
  {
    Z.ListsKnown(zs, size);
    if zs.arr[Z.Zoneindex(size).0] == [] && zs.idle != [] {
      assert zs.idle == [zs.idle[0]] + zs.idle[1..];
      assert zs.idle[0] !in zs.zones;
    } else if zs.arr[Z.Zoneindex(size).0] != [] {
      assert zs.arr[Z.Zoneindex(size).0][0] in zs.zones;
    }
  }

  /** New zone z on n pages that nobody had. */
  lemma ZoneKeeps(s: Slab, g: Slab, z: nat)
    requires var n := ZonePages(s);
             && Mapped(s) && z !in s.pages.live && 0 < n && g.zs.Z == s.zs.Z && g.table == s.table
             && (forall b, k :: b in s.pages.live && P.Within(k, b, s.pages.live[b]) ==> !P.Within(k, z, n))
             && g.pages.live == s.pages.live[z := n] && g.usage == Marked(s.usage, z, n)
    requires forall y: nat :: y in g.zs.zones || y in g.zs.idle <==> y in s.zs.zones || y in s.zs.idle || y == z
    requires P.Owned(s.pages.live, s.pages.own)
    ensures Mapped(g)
    ensures forall b :: (IsLarge(g, b) <==> IsLarge(s, b)) && (b in s.pages.live ==> g.pages.live[b] == s.pages.live[b])
  {
    var n := ZonePages(s);
    assert forall y :: IsZone(g, y) <==> IsZone(s, y) || y == z;
    forall y, k | IsZone(g, y) && P.Within(k, y, n) ensures k in g.usage && g.usage[k] == Small(k - y) {
      if y != z { SmallUnmarked(s, y, k, z); }
    }
    forall a | IsLarge(g, a) ensures a in g.usage && g.usage[a] == Large(g.pages.live[a]) {
      assert IsLarge(s, a);
      LargeUnmarked(s, a, z, n);
    }
  }

  lemma SmallUnmarked(s: Slab, y: int, k: int, z: int)
    requires Mapped(s) && IsZone(s, y) && P.Within(k, y, ZonePages(s))
    requires forall b, k :: b in s.pages.live && P.Within(k, b, s.pages.live[b]) ==> !P.Within(k, z, ZonePages(s))
    ensures k in s.usage && Marked(s.usage, z, ZonePages(s))[k] == Small(k - y)
  {
    assert y in s.pages.live && s.pages.live[y] == ZonePages(s);
    assert !P.Within(k, z, ZonePages(s));
  }

  lemma LargeUnmarked(s: Slab, a: int, z: int, n: nat)
    requires P.Owned(s.pages.live, s.pages.own) && Mapped(s) && IsLarge(s, a)
    requires forall b, k :: b in s.pages.live && P.Within(k, b, s.pages.live[b]) ==> !P.Within(k, z, n)
    ensures a in s.usage && s.usage[a] == Large(s.pages.live[a])
    ensures Marked(s.usage, z, n)[a] == s.usage[a]
  {
    assert P.Within(a, a, s.pages.live[a]) && !P.Within(a, z, n);
  }

  /** The same zones, pages and table. */
  lemma ZonesKeep(s: Slab, g: Slab)
    requires Mapped(s) && g == s.(zs := g.zs) && g.zs.Z == s.zs.Z
    requires forall y: nat :: y in g.zs.zones || y in g.zs.idle <==> y in s.zs.zones || y in s.zs.idle
    ensures Mapped(g)
    ensures forall b :: IsLarge(g, b) <==> IsLarge(s, b)
  {
    assert forall y :: IsZone(g, y) <==> IsZone(s, y);
  }

  lemma ChunkHandsOut(s: Slab, g: Slab, x: Block, size: nat)
    requires Z.AllLaidOut(s.zs) && Z.AllLaidOut(g.zs) && x.Chunk?
    requires Z.Live(g.zs, x.z, x.i) && !Z.Live(s.zs, x.z, x.i) && size <= g.zs.zones[x.z].chunkSize
    requires forall z: nat, i: nat :: Z.Live(g.zs, z, i) <==> Z.Live(s.zs, z, i) || (z == x.z && i == x.i)
    requires forall z :: z in s.zs.zones ==> z in g.zs.zones && g.zs.zones[z].chunkSize == s.zs.zones[z].chunkSize
    requires forall b :: IsLarge(g, b) <==> IsLarge(s, b)
    requires forall b :: b in s.pages.live ==> b in g.pages.live && g.pages.live[b] == s.pages.live[b]
    ensures HandsOut(s, g, x, Lo(g, x), size)
  {
  }

  lemma SmallGives(s: Slab, size: nat, total: nat)
    requires Inv(s, total) && 0 < size < Z.Limit(s.zs.Z)
    ensures var (g, r) := MallocSmall(s, size);
            && Inv(g, total) && (r == None ==> g == s)
            && (r.Some? ==> exists x :: HandsOut(s, g, x, r.value, size))
  {
    var n := ZonePages(s);
    var page := P.Alloc(s.pages.rs, n).0;
    if page.Some? {
      PagesFresh(s, n, total);
      assert !IsZone(s, page.value);
    }
    ZonesStay(s.zs, size, page);
    Z.AllocGives(s.zs, size, page);
    forall z: nat, i: nat
      ensures var (h, q) := Z.Alloc(s.zs, size, page); Z.Live(h, z, i) <==> Z.Live(s.zs, z, i) || q == Some((z, i))
    {
      Z.AllocOthers(s.zs, size, page, z, i);
    }
    var g := MallocSmall(s, size).0;
    var (h, q) := Z.Alloc(s.zs, size, page);
    if q.Some? {
      var x := Chunk(q.value.0, q.value.1);
      if NeedsPages(s.zs, size) { ZoneKeeps(s, g, x.z); } else { ZonesKeep(s, g); }
      assert Z.LaidOut(h.zones[x.z], h.Z);
      ChunkHandsOut(s, g, x, size);
      assert HandsOut(s, g, x, Lo(g, x), size);
    }
  }

  /** A successful rt_malloc hands out a block that overlaps no live one and holds the
      request; a failed one changes nothing. */
  lemma MallocGives(s: Slab, size: nat, total: nat)
    requires Inv(s, total) && size < WORD
    ensures var (g, r) := Malloc(s, size);
            && Inv(g, total) && (r == None ==> g == s)
            && (r.Some? ==> exists x :: HandsOut(s, g, x, r.value, size))
  {
    if size >= Z.Limit(s.zs.Z) {
      LargeGives(s, size, total);
      var (g, r) := MallocLarge(s, size);
      if r.Some? { assert HandsOut(s, g, Pages(r.value / PAGE), r.value, size); }
    } else if size > 0 {
      SmallGives(s, size, total);
    }
  }

  /** rt_malloc fails exactly on a request for nothing, or when neither a zone has a
      chunk nor the pages wanted are free in a row; a size that wraps wants none. */
  lemma MallocFailsIff(s: Slab, size: nat, total: nat)
    requires Inv(s, total) && size < WORD
    ensures 0 < size < Z.Limit(s.zs.Z) ==> 0 <= Z.Zoneindex(size).0 < |s.zs.arr|
    ensures var large := size >= Z.Limit(s.zs.Z);
            var n := if large then PageCount(size) else ZonePages(s);
            Malloc(s, size).1 == None <==>
            size == 0 || ((large || NeedsPages(s.zs, size)) &&
                (n == 0 || forall a: int :: !(P.Span(a, n) <= P.Pages(s.pages.rs))))
  {
    if size >= Z.Limit(s.zs.Z) {
      if PageCount(size) != 0 { P.AllocFailsIff(s.pages.rs, PageCount(size), -1); }
    } else if size > 0 {
      var page := P.Alloc(s.pages.rs, ZonePages(s)).0;
      P.AllocFailsIff(s.pages.rs, ZonePages(s), -1);
      if page.Some? {
        PagesFresh(s, ZonePages(s), total);
        assert !IsZone(s, page.value);
      }
      ZonesStay(s.zs, size, page);
      Z.AllocGives(s.zs, size, page);
    }
  }

  // ------------------------------------------------------------------ rt_free

  /** Pages of a live allocation given back. */
  lemma PagesFreed(h: P.Heap, a: nat, total: nat)
    requires P.Inv(h, total) && a in h.live
    ensures P.Inv(Freed(h, a, h.live[a]), total)
    ensures forall b, k :: b in h.live && b != a && P.Within(k, b, h.live[b]) ==> !P.Within(k, a, h.live[a])
  {
    P.FreeKeepsInv(h, a, total);
    forall b, k | b in h.live && b != a && P.Within(k, b, h.live[b]) ensures !P.Within(k, a, h.live[a]) {
      assert k in h.own && h.own[k] == b;
    }
  }

  /** The table entry of the page an address lies in leads back to the zone and chunk. */
  lemma ChunkFound(s: Slab, total: nat, z: nat, i: nat)
    requires Inv(s, total) && Z.Live(s.zs, z, i)
    ensures s.zs.zones[z].chunkSize > 0 && s.zs.zones[z].cls < |s.zs.arr|
    ensures var p := ChunkAddr(s.zs, z, i);
            && p / PAGE in s.usage && s.usage[p / PAGE] == Small(p / PAGE - z) && z <= p / PAGE
            && ChunkIndex(s.zs.zones[z], p - z * PAGE) == i
  {
    var b := s.zs.zones[z];
    assert Z.ZoneOk(b) && Z.LaidOut(b, s.zs.Z) && IsZone(s, z);
    ChunkInside(b, s.zs.Z, i);
    var off := Z.ChunkOff(b, i);
    assert (z * PAGE + off) / PAGE == z + off / PAGE;
    assert P.Within(z + off / PAGE, z, ZonePages(s));
    Z.Quotient(i, b.chunkSize);
  }

  lemma LargeFreed(s: Slab, g: Slab, a: nat)
    requires Mapped(s) && IsLarge(s, a) && g.zs == s.zs && g.table == s.table
    requires g.pages.live == s.pages.live - {a} && g.usage == s.usage[a := Large(0)]
    requires forall b, k :: b in s.pages.live && b != a && P.Within(k, b, s.pages.live[b]) ==>
               !P.Within(k, a, s.pages.live[a])
    requires s.pages.live[a] > 0
    ensures Mapped(g)
    ensures forall b :: IsLarge(g, b) <==> IsLarge(s, b) && b != a
  {
    assert P.Within(a, a, s.pages.live[a]);
    forall z, k | IsZone(g, z) && P.Within(k, z, ZonePages(g)) ensures k in g.usage && g.usage[k] == Small(k - z) {
      assert IsZone(s, z) && k != a;
    }
  }

  /** A zone goes back to the page allocator. */
  lemma ZoneFreed(s: Slab, g: Slab, z: nat)
    requires var n := ZonePages(s);
             && Mapped(s) && IsZone(s, z) && g.zs.Z == s.zs.Z && g.table == s.table
             && (forall b, k :: b in s.pages.live && b != z && P.Within(k, b, s.pages.live[b]) ==> !P.Within(k, z, n))
             && g.pages.live == s.pages.live - {z} && g.usage == Unmarked(s.usage, z, n)
    requires forall y: nat :: y in g.zs.zones || y in g.zs.idle <==> (y in s.zs.zones || y in s.zs.idle) && y != z
    requires P.Owned(s.pages.live, s.pages.own)
    ensures Mapped(g)
    ensures forall b :: IsLarge(g, b) <==> IsLarge(s, b)
  {
    var n := ZonePages(s);
    assert forall y :: IsZone(g, y) <==> IsZone(s, y) && y != z;
    forall y, k | IsZone(g, y) && P.Within(k, y, n) ensures k in g.usage && g.usage[k] == Small(k - y) {
      assert IsZone(s, y) && !P.Within(k, z, n);
    }
    forall a | IsLarge(g, a) ensures a in g.usage && g.usage[a] == Large(g.pages.live[a]) {
      assert IsLarge(s, a) && P.Within(a, a, s.pages.live[a]) && !P.Within(a, z, n);
    }
  }

  /** What the zone path of rt_free does to the zones. */
  lemma ZonesAfterFree(zs: Z.Slab, z: nat, i: nat)
    requires Z.Inv(zs) && Z.Live(zs, z, i)
    ensures zs.zones[z].cls < |zs.arr|
    ensures var (g, released) := Z.Free(zs, z, i);
            && g.Z == zs.Z && (released.Some? ==> released.value == z)
            && (forall y :: y in g.zones ==> y in zs.zones && g.zones[y].chunkSize == zs.zones[y].chunkSize)
            && (forall y: nat ::
                  y in g.zones || y in g.idle <==> (y in zs.zones || y in zs.idle) && released != Some(y))
  {
    assert Z.ZoneOk(zs.zones[z]);
  }

  lemma ChunkTaken(s: Slab, g: Slab, x: Block)
    requires Z.AllLaidOut(s.zs) && Z.AllLaidOut(g.zs) && x.Chunk?
    requires forall z: nat, i: nat :: Z.Live(g.zs, z, i) <==> Z.Live(s.zs, z, i) && (z, i) != (x.z, x.i)
    requires forall z :: z in g.zs.zones ==> z in s.zs.zones && g.zs.zones[z].chunkSize == s.zs.zones[z].chunkSize
    requires forall b :: IsLarge(g, b) <==> IsLarge(s, b)
    requires forall b :: b in g.pages.live ==> b in s.pages.live && g.pages.live[b] == s.pages.live[b]
    ensures !Live(g, x) && OthersStay(s, g, x)
  {
  }

  /** rt_free of the address of a live block takes back just that block. */
  lemma FreeFinds(s: Slab, total: nat, x: Block)
    requires Inv(s, total) && Live(s, x)
    ensures var g := Free(s, Lo(s, x));
            Inv(g, total) && !Live(g, x) && OthersStay(s, g, x)
  {
    BlockInside(s, total, x);
    match x {
      case Chunk(z, i) => ChunkFreed(s, total, z, i);
      case Pages(a) =>
        assert a * PAGE / PAGE == a;
        PagesFreed(s.pages, a, total);
        LargeFreed(s, Free(s, Lo(s, x)), a);
    }
  }

  lemma ChunkFreed(s: Slab, total: nat, z: nat, i: nat)
    requires Inv(s, total) && Live(s, Chunk(z, i))
    ensures var g := Free(s, Lo(s, Chunk(z, i)));
            Inv(g, total) && !Live(g, Chunk(z, i)) && OthersStay(s, g, Chunk(z, i))
  {
    ChunkFound(s, total, z, i);
    ChunkFreeIs(s, z, i);
    var g := Free(s, ChunkAddr(s.zs, z, i));
    Z.FreeTakesBack(s.zs, z, i);
    ZonesAfterFree(s.zs, z, i);
    if Z.Free(s.zs, z, i).1 == None {
      ZonesKeep(s, g);
    } else {
      assert IsZone(s, z);
      PagesFreed(s.pages, z, total);
      ZoneFreed(s, g, z);
    }
    ChunkTaken(s, g, Chunk(z, i));
  }

  lemma ChunkFreeIs(s: Slab, z: nat, i: nat)
    requires z in s.zs.zones && s.zs.zones[z].chunkSize > 0 && s.zs.zones[z].cls < |s.zs.arr|
    requires var p := ChunkAddr(s.zs, z, i);
             && p / PAGE in s.usage && z <= p / PAGE && s.usage[p / PAGE] == Small(p / PAGE - z)
             && ChunkIndex(s.zs.zones[z], p - z * PAGE) == i
    ensures var (h, released) := Z.Free(s.zs, z, i);
            Free(s, ChunkAddr(s.zs, z, i)) ==
            if released == None then s.(zs := h)
            else s.(zs := h, usage := Unmarked(s.usage, z, ZonePages(s)), pages := Freed(s.pages, z, ZonePages(s)))
  {
    FreeByPage(s, ChunkAddr(s.zs, z, i), z);
    FreeChunkIs(s, z, ChunkAddr(s.zs, z, i), i);
  }

  lemma FreeByPage(s: Slab, p: nat, z: nat)
    requires p / PAGE in s.usage && z <= p / PAGE && s.usage[p / PAGE] == Small(p / PAGE - z) && z in s.zs.zones
    ensures Free(s, p) == FreeChunk(s, z, p)
  {
  }

  lemma FreeChunkIs(s: Slab, z: nat, p: nat, i: nat)
    requires z in s.zs.zones && s.zs.zones[z].cls < |s.zs.arr| && ChunkIndex(s.zs.zones[z], p - z * PAGE) == i
    ensures var (h, released) := Z.Free(s.zs, z, i);
            FreeChunk(s, z, p) ==
            if released == None then s.(zs := h)
            else s.(zs := h, usage := Unmarked(s.usage, z, ZonePages(s)), pages := Freed(s.pages, z, ZonePages(s)))
  {
  }

  // --------------------------------------------------------------- whole runs

  /** A call of rt_malloc, or of rt_free with the address of a live block. */
  datatype Op = OpMalloc(size: nat) | OpFree(x: Block)

  ghost predicate Legal(s: Slab, op: Op) {
    match op
    case OpMalloc(size) => size < WORD
    case OpFree(x) => Live(s, x)
  }

  ghost function Step(s: Slab, op: Op, total: nat): Slab
    requires Inv(s, total) && Legal(s, op)
    ensures Inv(Step(s, op, total), total)
  {
    match op
    case OpMalloc(size) => MallocGives(s, size, total); Malloc(s, size).0
    case OpFree(x) => FreeFinds(s, total, x); Free(s, Lo(s, x))
  }

  ghost predicate Reaches(s: Slab, ops: seq<Op>, g: Slab, total: nat)
    requires Inv(s, total)
    decreases ops
  {
    if ops == [] then s == g else Legal(s, ops[0]) && Reaches(Step(s, ops[0], total), ops[1..], g, total)
  }

  /** The pages of the usage table, four bytes for every page of the heap. */
  function TablePages(total: nat): nat { (4 * total + PAGE - 1) / PAGE }

  /** rt_system_heap_init; the table starts with whatever its memory holds. */
  ghost function Initial(total: nat, zoneSize: nat, usage: map<int, Usage>): Slab
    requires 0 < total
  {
    TableFits(total);
    Slab(P.Step(P.Initial(total), P.OpAlloc(TablePages(total))), Z.Initial(zoneSize), usage,
         P.Alloc(P.Initial(total).rs, TablePages(total)).0.value)
  }

  lemma TableFits(total: nat)
    requires 0 < total
    ensures 0 < TablePages(total) <= total && P.Alloc(P.Initial(total).rs, TablePages(total)).0 == Some(0)
  {
    P.InitialInv(total);
  }

  lemma InitialInv(total: nat, zoneSize: nat, usage: map<int, Usage>)
    requires 0 < total && Z.ZoneSize(zoneSize)
    ensures Inv(Initial(total, zoneSize, usage), total)
    ensures forall x :: !Live(Initial(total, zoneSize, usage), x)
  {
    TableFits(total);
    P.InitialInv(total);
    P.AllocKeepsInv(P.Initial(total), TablePages(total), total);
    Z.InitialInv(zoneSize);
  }

  lemma {:induction false} StepsKeepInv(s: Slab, ops: seq<Op>, g: Slab, total: nat)
    requires Inv(s, total) && Reaches(s, ops, g, total)
    ensures Inv(g, total)
    decreases ops
  {
    if ops != [] { StepsKeepInv(Step(s, ops[0], total), ops[1..], g, total); }
  }

  ghost predicate Reachable(total: nat, zoneSize: nat, usage: map<int, Usage>, ops: seq<Op>, g: Slab)
    requires 0 < total && Z.ZoneSize(zoneSize)
  {
    InitialInv(total, zoneSize, usage);
    Reaches(Initial(total, zoneSize, usage), ops, g, total)
  }

  /** In every run from the start, live blocks lie in the heap, clear of the table and
      of each other, and rt_free finds each by its address. */
  lemma RunKeepsApart(ops: seq<Op>, g: Slab, total: nat, zoneSize: nat, usage: map<int, Usage>, x: Block, y: Block)
    requires 0 < total && Z.ZoneSize(zoneSize) && Reachable(total, zoneSize, usage, ops, g)
    ensures Inv(g, total)
    ensures Live(g, x) ==> 0 <= Lo(g, x) && Lo(g, x) + Size(g, x) <= total * PAGE
    ensures Live(g, x) ==> var f := Free(g, Lo(g, x)); Inv(f, total) && !Live(f, x) && OthersStay(g, f, x)
    ensures Live(g, x) && Live(g, y) && x != y ==>
              Lo(g, x) + Size(g, x) <= Lo(g, y) || Lo(g, y) + Size(g, y) <= Lo(g, x)
  {
    InitialInv(total, zoneSize, usage);
    StepsKeepInv(Initial(total, zoneSize, usage), ops, g, total);
    if Live(g, x) {
      BlockInHeap(g, total, x);
      FreeFinds(g, total, x);
      if Live(g, y) && x != y { BlocksApart(g, total, x, y); }
    }
  }
}
