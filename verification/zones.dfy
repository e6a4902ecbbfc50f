/** The zones of slab.c: size classes, the zones that still have chunks, and the
    chunks handed out of each. */
module SlabZoneSpec {
  import opened Options
  import opened IpcList

  /** The page offset of a zone; every zone is zone_size bytes long. */
  type Id = Tid

  const NZONES := 72
  const HEADER := 36              // sizeof(slab_zone) on a 32-bit core
  const THRESH := 2               // ZONE_RELEASE_THRESH

  // ------------------------------------------------------------ size classes

  function RoundUp(n: nat, g: nat): nat
    requires g > 0
  {
    (n + g - 1) / g * g
  }

  /** zoneindex: the class of a request, and the chunk size it is rounded to. */
  function Zoneindex(n: nat): (int, nat) {
    if n < 128 then (RoundUp(n, 8) / 8 - 1, RoundUp(n, 8))
    else if n < 256 then (RoundUp(n, 16) / 16 + 7, RoundUp(n, 16))
    else if n < 512 then (RoundUp(n, 32) / 32 + 15, RoundUp(n, 32))
    else if n < 1024 then (RoundUp(n, 64) / 64 + 23, RoundUp(n, 64))
    else if n < 2048 then (RoundUp(n, 128) / 128 + 31, RoundUp(n, 128))
    else if n < 4096 then (RoundUp(n, 256) / 256 + 39, RoundUp(n, 256))
    else if n < 8192 then (RoundUp(n, 512) / 512 + 47, RoundUp(n, 512))
    else if n < 16384 then (RoundUp(n, 1024) / 1024 + 55, RoundUp(n, 1024))
    else (0, n)
  }

  /** The one chunk size of a class. */
  function ChunkSize(zi: nat): nat {
    if zi <= 15 then 8 * (zi + 1)
    else if zi <= 23 then 16 * (zi - 7)
    else if zi <= 31 then 32 * (zi - 15)
    else if zi <= 39 then 64 * (zi - 23)
    else if zi <= 47 then 128 * (zi - 31)
    else if zi <= 55 then 256 * (zi - 39)
    else if zi <= 63 then 512 * (zi - 47)
    else 1024 * (zi - 55)
  }

  lemma RoundUpIs(n: nat, g: nat) returns (k: nat)
    requires g > 0
    ensures RoundUp(n, g) == k * g && n <= k * g < n + g && RoundUp(n, g) / g == k
  {
    k := (n + g - 1) / g;
    assert n + g - 1 == k * g + (n + g - 1) % g;
    Quotient(k, g);
  }

  lemma {:induction false} MulAtLeast(d: nat, g: nat)
    requires d >= 1
    ensures d * g >= g
  {
    if d > 1 {
      MulAtLeast(d - 1, g);
      assert d * g == (d - 1) * g + g;
    }
  }

  lemma Quotient(k: nat, g: nat)
    requires g > 0
    ensures k * g / g == k
  {
    SameQuotient(k, k * g / g, k * g % g, g);
  }

  lemma SameQuotient(k: nat, q: nat, r: nat, g: nat)
    requires r < g && k * g == q * g + r
    ensures k == q
  {
    if k > q {
      MulAtLeast(k - q, g);
      Distribute(k, q, g);
    } else if k < q {
      MulAtLeast(q - k, g);
      Distribute(q, k, g);
    }
  }

  lemma Distribute(k: nat, q: nat, g: nat)
    requires k >= q
    ensures (k - q) * g == k * g - q * g
  {
  }

  /** Every request below 16384 gets a class of its own chunk size, which holds it
      and wastes less than 8 bytes or an eighth of it. */
  lemma ZoneindexIs(n: nat)
    requires 0 < n < 16384
    ensures var (zi, b) := Zoneindex(n);
            && 0 <= zi < NZONES && b == ChunkSize(zi) && n <= b && (b < n + 8 || b - n < n / 8)
  {
    var g := if n < 128 then 8 else if n < 256 then 16 else if n < 512 then 32 else if n < 1024 then 64
             else if n < 2048 then 128 else if n < 4096 then 256 else if n < 8192 then 512 else 1024;
    var k := RoundUpIs(n, g);
    if n < 128 { SmallClass(n, k); }
    else if n < 256 { LargeClass(n, k, 16, 7); }
    else if n < 512 { LargeClass(n, k, 32, 15); }
    else if n < 1024 { LargeClass(n, k, 64, 23); }
    else if n < 2048 { LargeClass(n, k, 128, 31); }
    else if n < 4096 { LargeClass(n, k, 256, 39); }
    else if n < 8192 { LargeClass(n, k, 512, 47); }
    else { LargeClass(n, k, 1024, 55); }
  }

  lemma SmallClass(n: nat, k: nat)
    requires 0 < n < 128 && n <= k * 8 < n + 8
    ensures 1 <= k <= 16 && ChunkSize(k - 1) == k * 8
  {
  }

  /** Eight classes share a granularity g; the first one ends the range before. */
  lemma LargeClass(n: nat, k: nat, g: nat, c: nat)
    requires (g, c) in {(16, 7), (32, 15), (64, 23), (128, 31), (256, 39), (512, 47), (1024, 55)}
    requires 8 * g <= n < 16 * g && n <= k * g < n + g
    ensures 8 <= k <= 16 && k + c < NZONES && ChunkSize(k + c) == k * g && k * g - n < n / 8
  {
  }

  /** So two requests share a class exactly when they round to the same chunk size. */
  lemma SharedClassIff(n: nat, m: nat)
    requires 0 < n < 16384 && 0 < m < 16384
    ensures Zoneindex(n).0 == Zoneindex(m).0 <==> Zoneindex(n).1 == Zoneindex(m).1
  {
    ZoneindexIs(n);
    ZoneindexIs(m);
    var i, j := Zoneindex(n).0, Zoneindex(m).0;
    if i < j { ChunkSizesRise(i, j); } else if j < i { ChunkSizesRise(j, i); }
  }

  lemma ChunkSizesRise(i: nat, j: nat)
    requires i < j < NZONES
    ensures ChunkSize(i) < ChunkSize(j)
  {
  }

  // -------------------------------------------------------------- zone layout

  /** A zone is 32, 64 or 128 KiB long. */
  predicate ZoneSize(Z: nat) { Z == 0x8000 || Z == 0x1_0000 || Z == 0x2_0000 }

  /** zone_limit: larger requests go to the page allocator. */
  function Limit(Z: nat): nat { if Z / 4 > 16384 then 16384 else Z / 4 }

  predicate PowerOfTwo(n: nat) {
    n == 1 || (n > 1 && n % 2 == 0 && PowerOfTwo(n / 2))
  }

  /** Where the chunks start: aligned to the chunk size if that is a power of two. */
  function BaseOff(size: nat): nat
    requires size > 0
  {
    if PowerOfTwo(size) then RoundUp(HEADER, size) else RoundUp(HEADER, 8)
  }

  function Nmax(size: nat, Z: nat): int
    requires size > 0
  {
    (Z - BaseOff(size)) / size
  }

  lemma BaseOffIs(size: nat)
    requires size > 0
    ensures HEADER <= BaseOff(size) <= HEADER + size + 7 && (PowerOfTwo(size) ==> BaseOff(size) % size == 0)
  {
    if PowerOfTwo(size) {
      var k := RoundUpIs(HEADER, size);
      Quotient(k, size);
    } else {
      var k := RoundUpIs(HEADER, 8);
    }
  }

  /** Every class has at least two chunks a zone, and they all lie inside it. */
  lemma NmaxIs(size: nat, Z: nat)
    requires ZoneSize(Z) && 0 < size <= Limit(Z)
    ensures Nmax(size, Z) >= 2 && BaseOff(size) + Nmax(size, Z) * size <= Z
  {
    BaseOffIs(size);
    TwoFit(Z - BaseOff(size), size);
  }

  lemma TwoFit(room: nat, size: nat)
    requires size > 0 && room >= 2 * size
    ensures room / size >= 2 && room / size * size <= room
  {
    var m, r := room / size, room % size;
    assert room == m * size + r && r < size;
    assert m == 0 ==> m * size == 0;
    assert m == 1 ==> m * size == size;
  }

  lemma SizeWithinLimit(n: nat, Z: nat)
    requires ZoneSize(Z) && 0 < n < Limit(Z)
    ensures 0 < Zoneindex(n).1 <= Limit(Z) && 0 <= Zoneindex(n).0 < NZONES
  {
    ZoneindexIs(n);
  }

  // ----------------------------------------------------------------- the zones

  /** The header of a zone: `nfree` chunks are left, those after `uindex` have
      never been used, `freechunk` lists those given back. */
  datatype Zone = Zone(cls: nat, chunkSize: nat, nmax: int, nfree: int, uindex: nat, freechunk: seq<nat>)

  /** The zones in use, zone_array, and the empty zones kept on zone_free. */
  datatype Slab = Slab(Z: nat, zones: map<Id, Zone>, arr: seq<seq<Id>>, idle: seq<Id>)

  /** The counters of a zone agree with its chunks. */
  ghost predicate ZoneOk(z: Zone) {
    && z.cls < NZONES && z.uindex < z.nmax
    && Distinct(z.freechunk) && (forall i :: i in z.freechunk ==> i <= z.uindex)
    && z.nfree == (z.nmax - 1 - z.uindex) + |z.freechunk|
  }

  /** Its chunks have the size of its class, and there are as many as fit. */
  ghost predicate LaidOut(z: Zone, Z: nat) {
    z.cls < NZONES && z.chunkSize == ChunkSize(z.cls) && 0 < z.chunkSize <= Limit(Z) && z.nmax == Nmax(z.chunkSize, Z)
  }

  /** zone_array[i] lists exactly the zones of class i that have chunks left. */
  ghost predicate ListOk(s: Slab, i: nat)
    requires i < |s.arr|
  {
    Distinct(s.arr[i]) && forall z :: z in s.arr[i] <==> z in s.zones && s.zones[z].cls == i && s.zones[z].nfree > 0
  }

  ghost predicate AllLaidOut(s: Slab) {
    ZoneSize(s.Z) && forall z :: z in s.zones ==> LaidOut(s.zones[z], s.Z)
  }

  ghost predicate Inv(s: Slab) {
    && |s.arr| == NZONES && Distinct(s.idle) && |s.idle| <= THRESH
    && (forall z :: z in s.idle ==> z !in s.zones)
    && (forall z :: z in s.zones ==> ZoneOk(s.zones[z]))
    && (forall i :: 0 <= i < NZONES ==> ListOk(s, i))
  }

  /** Chunk i of zone z is in a caller's hands. */
  ghost predicate Live(s: Slab, z: Id, i: nat) {
    z in s.zones && i <= s.zones[z].uindex && i !in s.zones[z].freechunk
  }

  // -------------------------------------------------------------- operations

  /** A chunk out of a zone that has one: the never-used area first, then the list. */
  function TakeChunk(z: Zone): (Zone, nat) {
    if z.uindex + 1 != z.nmax then (z.(nfree := z.nfree - 1, uindex := z.uindex + 1), z.uindex + 1)
    else if z.freechunk != [] then (z.(nfree := z.nfree - 1, freechunk := z.freechunk[1..]), z.freechunk[0])
    else (z, 0)
  }

  function FreshZone(zi: nat, size: nat, Z: nat): Zone
    requires size > 0
  {
    Zone(zi, size, Nmax(size, Z), Nmax(size, Z) - 1, 0, [])
  }

  /** The zone path of rt_malloc; `page` is what the page allocator would give. */
  function Alloc(s: Slab, n: nat, page: Option<Id>): (Slab, Option<(Id, nat)>)
    requires |s.arr| == NZONES && 0 <= Zoneindex(n).0 < NZONES && Zoneindex(n).1 > 0
    requires forall z :: z in s.arr[Zoneindex(n).0] ==> z in s.zones
  {
    var (zi, size) := Zoneindex(n);
    var l := s.arr[zi];
    if l != [] then
      var (z, i) := TakeChunk(s.zones[l[0]]);
      (s.(zones := s.zones[l[0] := z], arr := if z.nfree == 0 then s.arr[zi := l[1..]] else s.arr), Some((l[0], i)))
    else if s.idle != [] then
      (s.(zones := s.zones[s.idle[0] := FreshZone(zi, size, s.Z)], arr := s.arr[zi := [s.idle[0]]],
            idle := s.idle[1..]),
       Some((s.idle[0], 0)))
    else if page.Some? then
      (s.(zones := s.zones[page.value := FreshZone(zi, size, s.Z)], arr := s.arr[zi := [page.value]]),
          Some((page.value, 0)))
    else (s, None)
  }

  /** A chunk back into its zone, and the zone back into its list if it had none left. */
  function GiveBack(s: Slab, z: Id, i: nat): Slab
    requires z in s.zones && s.zones[z].cls < |s.arr|
  {
    var b := s.zones[z];
    s.(zones := s.zones[z := b.(freechunk := [i] + b.freechunk, nfree := b.nfree + 1)],
       arr := if b.nfree == 0 then s.arr[b.cls := [z] + s.arr[b.cls]] else s.arr)
  }

  /** An empty zone leaves its list when others of its class have chunks; past the
      threshold it goes to the page allocator. */
  function Retire(s: Slab, z: Id): (Slab, Option<Id>)
    requires z in s.zones && s.zones[z].cls < |s.arr|
  {
    var c := s.zones[z].cls;
    if s.zones[z].nfree == s.zones[z].nmax && s.arr[c] != [z] then
      var g := s.(zones := s.zones - {z}, arr := s.arr[c := Without(s.arr[c], z)]);
      if |s.idle| + 1 > THRESH then (g, Some(z)) else (g.(idle := [z] + s.idle), None)
    else (s, None)
  }

  /** The zone path of rt_free: the new state, and the zone released, if any. */
  function Free(s: Slab, z: Id, i: nat): (Slab, Option<Id>)
    requires z in s.zones && s.zones[z].cls < |s.arr|
  {
    Retire(GiveBack(s, z, i), z)
  }

  // ------------------------------------------------------------ one zone's chunks

  /** The free-chunk branch is only taken with a chunk on the list. */
  lemma TakeChunkIs(b: Zone)
    requires ZoneOk(b) && b.nfree > 0
    ensures b.uindex + 1 == b.nmax ==> b.freechunk != []
    ensures var (g, i) := TakeChunk(b);
            && ZoneOk(g) && g.nfree == b.nfree - 1 && g.cls == b.cls && g.chunkSize == b.chunkSize &&
              g.nmax == b.nmax && i < b.nmax
            && (b.uindex < i || i in b.freechunk)
            && forall j :: (j <= g.uindex && j !in g.freechunk) <==> (j <= b.uindex && j !in b.freechunk) || j == i
  {
    if b.uindex + 1 == b.nmax {
      assert b.freechunk == [b.freechunk[0]] + b.freechunk[1..] && b.freechunk[0] in b.freechunk;
      forall i | i in b.freechunk[1..] ensures i in b.freechunk && i != b.freechunk[0] {}
    }
  }

  lemma FreshZoneOk(zi: nat, size: nat, Z: nat)
    requires ZoneSize(Z) && zi < NZONES && size == ChunkSize(zi) && 0 < size <= Limit(Z)
    ensures ZoneOk(FreshZone(zi, size, Z)) && LaidOut(FreshZone(zi, size, Z), Z) && FreshZone(zi, size, Z).nfree > 0
  {
    NmaxIs(size, Z);
  }

  /** A zone is empty exactly when no chunk of it is live. */
  lemma NoneLiveIff(b: Zone)
    requires ZoneOk(b)
    ensures b.nfree == b.nmax <==> forall i: nat :: i <= b.uindex ==> i in b.freechunk
  {
    Pigeons(b.freechunk, b.uindex + 1);
  }

  /** Distinct numbers below n are n exactly when they are all of them. */
  lemma {:induction false} Pigeons(f: seq<nat>, n: nat)
    requires Distinct(f) && forall i :: i in f ==> i < n
    ensures |f| <= n && (|f| == n <==> forall i: nat :: i < n ==> i in f)
    decreases n
  {
    assert f == [] || f[0] in f;
    if n > 0 {
      var w := Without(f, n - 1);
      WithoutMembers(f, n - 1);
      Pigeons(w, n - 1);
      if forall i: nat :: i < n ==> i in f {
        forall i: nat | i < n - 1 ensures i in w { assert i in f; }
        assert n - 1 in f;
      }
      if |f| == n {
        forall i: nat | i < n ensures i in f { assert i < n - 1 ==> i in w; }
      }
    }
  }

  // -------------------------------------------------------- what rt_malloc keeps

  /** A chunk from a zone already listed. */
  lemma AllocListed(s: Slab, zi: nat)
    requires Inv(s) && zi < NZONES && s.arr[zi] != []
    ensures var z := s.arr[zi][0];
            && z in s.zones && s.zones[z].nfree > 0 && s.zones[z].cls == zi
            && var (b, i) := TakeChunk(s.zones[z]);
               Inv(s.(zones := s.zones[z := b], arr := if b.nfree == 0 then s.arr[zi := s.arr[zi][1..]] else s.arr))
  {
    var l := s.arr[zi];
    var z := l[0];
    assert ListOk(s, zi) && z in l;
    TakeChunkIs(s.zones[z]);
    var (b, i) := TakeChunk(s.zones[z]);
    var g := s.(zones := s.zones[z := b], arr := if b.nfree == 0 then s.arr[zi := l[1..]] else s.arr);
    assert l == [z] + l[1..];
    forall k | 0 <= k < NZONES ensures ListOk(g, k) { assert ListOk(s, k); }
  }

  /** A fresh zone, the only one of its class with chunks. */
  lemma AllocFresh(s: Slab, zi: nat, size: nat, z: Id, idle: seq<Id>)
    requires Inv(s) && ZoneSize(s.Z) && zi < NZONES && s.arr[zi] == [] && size == ChunkSize(zi) &&
             0 < size <= Limit(s.Z)
    requires z !in s.zones && Distinct(idle) && |idle| <= THRESH && forall x :: x in idle ==> x in s.idle && x != z
    ensures Inv(s.(zones := s.zones[z := FreshZone(zi, size, s.Z)], arr := s.arr[zi := [z]], idle := idle))
  {
    var g := s.(zones := s.zones[z := FreshZone(zi, size, s.Z)], arr := s.arr[zi := [z]], idle := idle);
    FreshZoneOk(zi, size, s.Z);
    forall k | 0 <= k < NZONES ensures ListOk(g, k) { assert ListOk(s, k); }
  }

  /** The lists of a sound state name zones in use. */
  lemma ListsKnown(s: Slab, n: nat)
    requires Inv(s) && ZoneSize(s.Z) && 0 < n < Limit(s.Z)
    ensures 0 <= Zoneindex(n).0 < NZONES && Zoneindex(n).1 > 0
    ensures forall z :: z in s.arr[Zoneindex(n).0] ==> z in s.zones
  {
    SizeWithinLimit(n, s.Z);
    assert ListOk(s, Zoneindex(n).0);
  }

  /** rt_malloc keeps the invariant, and hands out a chunk that was not live, of a
      class that holds the request; nothing else becomes or ceases to be live. */
  lemma AllocGives(s: Slab, n: nat, page: Option<Id>)
    requires Inv(s) && AllLaidOut(s) && 0 < n < Limit(s.Z) &&
             (page.Some? ==> page.value !in s.zones && page.value !in s.idle)
    ensures 0 <= Zoneindex(n).0 < NZONES && Zoneindex(n).1 > 0
    ensures forall z :: z in s.arr[Zoneindex(n).0] ==> z in s.zones
    ensures var (g, r) := Alloc(s, n, page);
            && Inv(g) && AllLaidOut(g) && (r.None? ==> g == s && page.None?)
            && (r.Some? ==>
                  Live(g, r.value.0, r.value.1) && !Live(s, r.value.0, r.value.1) && n <= g.zones[r.value.0].chunkSize)
  {
    ListsKnown(s, n);
    ZoneindexIs(n);
    SizeWithinLimit(n, s.Z);
    var (zi, size) := Zoneindex(n);
    if s.arr[zi] != [] {
      AllocListed(s, zi);
      TakeChunkIs(s.zones[s.arr[zi][0]]);
    } else if s.idle != [] {
      assert s.idle == [s.idle[0]] + s.idle[1..] && s.idle[0] in s.idle;
      AllocFresh(s, zi, size, s.idle[0], s.idle[1..]);
      FreshZoneOk(zi, size, s.Z);
    } else if page.Some? {
      AllocFresh(s, zi, size, page.value, s.idle);
      FreshZoneOk(zi, size, s.Z);
    }
  }

  lemma AllocOthers(s: Slab, n: nat, page: Option<Id>, z: Id, i: nat)
    requires Inv(s) && AllLaidOut(s) && 0 < n < Limit(s.Z) &&
             (page.Some? ==> page.value !in s.zones && page.value !in s.idle)
    ensures 0 <= Zoneindex(n).0 < NZONES && Zoneindex(n).1 > 0
    ensures forall z :: z in s.arr[Zoneindex(n).0] ==> z in s.zones
    ensures var (g, r) := Alloc(s, n, page);
            Live(g, z, i) <==> Live(s, z, i) || r == Some((z, i))
  {
    ListsKnown(s, n);
    SizeWithinLimit(n, s.Z);
    var zi := Zoneindex(n).0;
    if s.arr[zi] != [] {
      AllocListed(s, zi);
      TakeChunkIs(s.zones[s.arr[zi][0]]);
    } else if s.idle != [] {
      assert s.idle[0] in s.idle;
    }
  }

  /** Where a chunk comes from: the first zone of the class that has one, its area never
      used before its list; else the zone released last, anew; else new pages. */
  lemma AllocChooses(s: Slab, n: nat, page: Option<Id>)
    requires Inv(s) && AllLaidOut(s) && 0 < n < Limit(s.Z)
    ensures 0 <= Zoneindex(n).0 < NZONES && Zoneindex(n).1 > 0
    ensures forall z :: z in s.arr[Zoneindex(n).0] ==> z in s.zones
    ensures var (g, r) := Alloc(s, n, page);
            var zi, l := Zoneindex(n).0, s.arr[Zoneindex(n).0];
            && (l != [] ==>
                  && g.idle == s.idle && l[0] in s.zones
                  && var b := s.zones[l[0]];
                     && (b.uindex + 1 < b.nmax ==> r == Some((l[0], b.uindex + 1)))
                     && (b.uindex + 1 >= b.nmax ==> b.freechunk != [] && r == Some((l[0], b.freechunk[0])))
                     && g.arr[zi] == (if b.nfree == 1 then l[1..] else l))
            && (l == [] && s.idle != [] ==>
                  r == Some((s.idle[0], 0)) && g.idle == s.idle[1..] && g.arr[zi] == [s.idle[0]])
            && (l == [] && s.idle == [] && page.Some? ==>
                  r == Some((page.value, 0)) && g.idle == [] && g.arr[zi] == [page.value])
            && (forall i :: 0 <= i < NZONES && i != zi ==> g.arr[i] == s.arr[i])
  {
    ListsKnown(s, n);
    SizeWithinLimit(n, s.Z);
    if s.arr[Zoneindex(n).0] != [] {
      AllocListed(s, Zoneindex(n).0);
      TakeChunkIs(s.zones[s.arr[Zoneindex(n).0][0]]);
      assert ZoneOk(s.zones[s.arr[Zoneindex(n).0][0]]);
    }
  }

  // ---------------------------------------------------------- what rt_free keeps

  lemma GiveBackKeeps(s: Slab, z: Id, i: nat)
    requires Inv(s) && Live(s, z, i)
    ensures s.zones[z].cls < NZONES && Inv(GiveBack(s, z, i))
    ensures z in GiveBack(s, z, i).arr[s.zones[z].cls]
  {
    var b := s.zones[z];
    assert ZoneOk(b) && ListOk(s, b.cls);
    var g := GiveBack(s, z, i);
    assert ([i] + b.freechunk)[1..] == b.freechunk && ([z] + s.arr[b.cls])[1..] == s.arr[b.cls];
    forall k | 0 <= k < NZONES ensures ListOk(g, k) { assert ListOk(s, k); }
  }

  lemma RetireKeeps(s: Slab, z: Id)
    requires Inv(s) && z in s.zones
    ensures s.zones[z].cls < NZONES && Inv(Retire(s, z).0)
    ensures Retire(s, z).1.Some? ==>
              Retire(s, z).1 == Some(z) && z !in Retire(s, z).0.zones && z !in Retire(s, z).0.idle
  {
    var c := s.zones[z].cls;
    assert ZoneOk(s.zones[z]) && ListOk(s, c);
    var g := Retire(s, z).0;
    WithoutMembers(s.arr[c], z);
    assert ([z] + s.idle)[1..] == s.idle;
    forall k | 0 <= k < NZONES ensures ListOk(g, k) { assert ListOk(s, k); assert ListOk(s, c); }
  }

  /** rt_free of a live chunk keeps the invariant and takes just that chunk back;
      a zone leaves its class only when none of its chunks is live. */
  lemma FreeTakesBack(s: Slab, z: Id, i: nat)
    requires Inv(s) && Live(s, z, i)
    ensures s.zones[z].cls < NZONES && Inv(Free(s, z, i).0)
    ensures forall y: Id, j: nat :: Live(Free(s, z, i).0, y, j) <==> Live(s, y, j) && (y, j) != (z, i)
    ensures AllLaidOut(s) ==> AllLaidOut(Free(s, z, i).0)
  {
    var g := GiveBack(s, z, i);
    GiveBackKeeps(s, z, i);
    RetireKeeps(g, z);
    NoneLiveIff(g.zones[z]);
    forall y: Id, j: nat ensures Live(Free(s, z, i).0, y, j) <==> Live(s, y, j) && (y, j) != (z, i) {
      GivenBackLive(s, z, i, y, j);
    }
  }

  /** A free leaves the zone in use unless that was its last chunk and another zone of the
      class has chunks left; then the zone is kept for reuse, or its pages go back if
      enough zones are kept already. */
  lemma FreeRetires(s: Slab, z: Id, i: nat)
    requires Inv(s) && Live(s, z, i)
    ensures s.zones[z].cls < |s.arr|
    ensures var (g, released) := Free(s, z, i);
            var empty := s.zones[z].nfree + 1 == s.zones[z].nmax;
            var others := exists y :: y in s.arr[s.zones[z].cls] && y != z;
            if !(empty && others) then z in g.zones && g.idle == s.idle && released == None
            else
              && z !in g.zones && z !in g.arr[s.zones[z].cls]
              && released == (if |s.idle| < THRESH then None else Some(z))
              && g.idle == (if |s.idle| < THRESH then [z] + s.idle else s.idle)
  {
    var c := s.zones[z].cls;
    GiveBackKeeps(s, z, i);
    var l := GiveBack(s, z, i).arr[c];
    assert ListOk(s, c) && ZoneOk(s.zones[z]);
    assert ListOk(GiveBack(s, z, i), c);
    OnlyMember(l, z);
    assert forall y :: y != z ==> (y in l <==> y in s.arr[c]);
    WithoutMembers(l, z);
  }

  lemma OnlyMember(l: seq<Id>, z: Id)
    requires z in l && Distinct(l)
    ensures l != [z] <==> exists y :: y in l && y != z
  {
    if l != [z] {
      assert l == [l[0]] + l[1..];
      if l[0] == z { assert l[1] in l[1..] && l[1] in l && l[1] != z; } else { assert l[0] in l; }
    }
  }

  lemma GivenBackLive(s: Slab, z: Id, i: nat, y: Id, j: nat)
    requires Inv(s) && Live(s, z, i)
    ensures s.zones[z].cls < NZONES
    ensures Live(GiveBack(s, z, i), y, j) <==> Live(s, y, j) && (y, j) != (z, i)
  {
    assert ZoneOk(s.zones[z]);
  }

  // --------------------------------------------------------------- whole runs

  datatype Op = OpAlloc(n: nat, page: Option<Id>) | OpFree(z: Id, i: nat)

  /** A small request, served by pages nobody has; or a chunk in use. */
  ghost predicate Legal(s: Slab, op: Op) {
    match op
    case OpAlloc(n, page) => 0 < n < Limit(s.Z) && (page.Some? ==> page.value !in s.zones && page.value !in s.idle)
    case OpFree(z, i) => Live(s, z, i)
  }

  ghost function Step(s: Slab, op: Op): Slab
    requires Inv(s) && AllLaidOut(s) && Legal(s, op)
    ensures Inv(Step(s, op)) && AllLaidOut(Step(s, op))
  {
    match op
    case OpAlloc(n, page) => AllocGives(s, n, page); Alloc(s, n, page).0
    case OpFree(z, i) => FreeTakesBack(s, z, i); Free(s, z, i).0
  }

  ghost predicate Reaches(s: Slab, ops: seq<Op>, g: Slab)
    decreases ops
  {
    if ops == [] then s == g
    else Inv(s) && AllLaidOut(s) && Legal(s, ops[0]) && Reaches(Step(s, ops[0]), ops[1..], g)
  }

  function Initial(Z: nat): Slab {
    Slab(Z, map[], seq(NZONES, _ => []), [])
  }

  /** In every run from the start, counters, lists and layout stay right. */
  lemma {:induction false} RunKeepsInv(s: Slab, ops: seq<Op>, g: Slab)
    requires Inv(s) && AllLaidOut(s) && Reaches(s, ops, g)
    ensures Inv(g) && AllLaidOut(g)
    decreases ops
  {
    if ops != [] { RunKeepsInv(Step(s, ops[0]), ops[1..], g); }
  }

  lemma InitialInv(Z: nat)
    requires ZoneSize(Z)
    ensures Inv(Initial(Z)) && AllLaidOut(Initial(Z)) && forall z, i: nat :: !Live(Initial(Z), z, i)
  {
  }

  // ------------------------------------------------------------ where chunks are

  /** The offset of chunk i in its zone. */
  function ChunkOff(b: Zone, i: nat): nat
    requires b.chunkSize > 0
  {
    BaseOff(b.chunkSize) + i * b.chunkSize
  }

  /** Chunks lie behind the header, inside the zone and apart from each other. */
  lemma ChunksApart(b: Zone, Z: nat, i: nat, j: nat)
    requires ZoneSize(Z) && LaidOut(b, Z) && i < j < b.nmax
    ensures HEADER <= ChunkOff(b, i) && ChunkOff(b, i) + b.chunkSize <= ChunkOff(b, j) &&
            ChunkOff(b, j) + b.chunkSize <= Z
  {
    BaseOffIs(b.chunkSize);
    NmaxIs(b.chunkSize, Z);
    ArrayApart(BaseOff(b.chunkSize), b.chunkSize, b.nmax, Z, i, j);
  }

  lemma ArrayApart(off: nat, size: nat, n: nat, Z: nat, i: nat, j: nat)
    requires off + n * size <= Z && i < j < n
    ensures off + i * size + size <= off + j * size && off + j * size + size <= Z
  {
    Spread(i, j, size);
    Spread(j, n, size);
  }

  lemma Spread(i: nat, j: nat, size: nat)
    requires i < j
    ensures i * size + size <= j * size
  {
    MulAtLeast(j - i, size);
    Distribute(j, i, size);
  }

  /** A chunk of a power-of-two size starts at a multiple of it. */
  lemma ChunkAligned(b: Zone, i: nat)
    requires b.chunkSize > 0 && PowerOfTwo(b.chunkSize)
    ensures ChunkOff(b, i) % b.chunkSize == 0
  {
    var k := RoundUpIs(HEADER, b.chunkSize);
    assert ChunkOff(b, i) == (k + i) * b.chunkSize;
    Quotient(k + i, b.chunkSize);
  }
}
