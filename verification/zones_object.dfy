/** zone_array, the zone headers and zone_free, updated in place. */
module SlabZoneObject {
  import opened Options
  import opened IpcList
  import opened SlabZoneSpec

  class SlabZones {
    const zoneSize: nat
    const zoneArray: array<seq<Id>>
    var zones: map<Id, Zone>
    var zoneFree: seq<Id>

    ghost function Abs(): Slab
      reads this, zoneArray
    {
      Slab(zoneSize, zones, zoneArray[..], zoneFree)
    }

    ghost predicate Valid()
      reads this, zoneArray
    {
      Inv(Abs()) && AllLaidOut(Abs())
    }

    constructor (zoneSize: nat)
      requires ZoneSize(zoneSize)
      ensures Valid() && fresh(zoneArray) && Abs() == Initial(zoneSize)
    {
      this.zoneSize, zones, zoneFree := zoneSize, map[], [];
      zoneArray := new seq<Id>[NZONES](_ => []);
      new;
      assert zoneArray[..] == Initial(zoneSize).arr;
      InitialInv(zoneSize);
    }

    /** A chunk of the first zone of class zi. */
    method TakeFirst(zi: nat) returns (r: (Id, nat))
      requires Inv(Abs()) && zi < NZONES && zoneArray[zi] != []
      modifies this`zones, zoneArray
      ensures old(zoneArray[zi])[0] in old(zones)
      ensures var l := old(zoneArray[zi]);
              var (b, i) := TakeChunk(old(zones)[l[0]]);
              r == (l[0], i) && Abs() == old(Abs()).(zones := old(zones)[l[0] := b],
                                                    arr := if b.nfree == 0 then old(zoneArray[..])[zi := l[1..]]
                                                      else old(zoneArray[..]))
    {
      var z := zoneArray[zi][0];
      assert ListOk(Abs(), zi);
      TakeChunkIs(zones[z]);
      var b := zones[z];
      b := b.(nfree := b.nfree - 1);
      if b.nfree == 0 { zoneArray[zi] := zoneArray[zi][1..]; }
      if b.uindex + 1 != b.nmax {
        b := b.(uindex := b.uindex + 1);
        r := (z, b.uindex);
      } else {
        r := (z, b.freechunk[0]);
        b := b.(freechunk := b.freechunk[1..]);
      }
      zones := zones[z := b];
      assert zoneArray[..] == if b.nfree == 0 then old(zoneArray[..])[zi := old(zoneArray[zi])[1..]]
             else old(zoneArray[..]);
    }

    /** Set up zone z for class zi and hand out its first chunk. */
    method Open(z: Id, zi: nat, size: nat)
      requires zi < zoneArray.Length && size > 0 && zoneArray[zi] == []
      modifies this`zones, zoneArray
      ensures Abs() == old(Abs()).(zones := old(zones)[z := FreshZone(zi, size, zoneSize)],
                arr := old(zoneArray[..])[zi := [z]])
    {
      var nmax := (zoneSize - BaseOff(size)) / size;
      zones := zones[z := Zone(zi, size, nmax, nmax - 1, 0, [])];
      zoneArray[zi] := [z] + zoneArray[zi];
      assert zoneArray[zi] == [z];
      assert zoneArray[..] == old(zoneArray[..])[zi := [z]];
    }

    /** The zone path of rt_malloc; `page` is what the page allocator would give. */
    method Malloc(n: nat, page: Option<Id>) returns (r: Option<(Id, nat)>)
      requires Valid() && Legal(Abs(), OpAlloc(n, page))
      modifies this, zoneArray
      ensures Valid() && Abs() == Step(old(Abs()), OpAlloc(n, page))
      ensures r.None? ==> Abs() == old(Abs()) && page.None?
      ensures r.Some? ==> Live(Abs(), r.value.0, r.value.1) && !Live(old(Abs()), r.value.0, r.value.1)
    {
      AllocGives(Abs(), n, page);
      r := MallocStep(n, page);
    }

    method MallocStep(n: nat, page: Option<Id>) returns (r: Option<(Id, nat)>)
      requires Valid() && Legal(Abs(), OpAlloc(n, page))
      requires 0 <= Zoneindex(n).0 < NZONES && Zoneindex(n).1 > 0
      requires forall z :: z in Abs().arr[Zoneindex(n).0] ==> z in zones
      modifies this, zoneArray
      ensures Abs() == Alloc(old(Abs()), n, page).0 && r == Alloc(old(Abs()), n, page).1
    {
      var (zi, size) := Zoneindex(n);
      if zoneArray[zi] != [] {
        var c := TakeFirst(zi);
        return Some(c);
      }
      if zoneFree != [] {
        var z := zoneFree[0];
        zoneFree := zoneFree[1..];
        Open(z, zi, size);
        return Some((z, 0));
      }
      if page == None { return None; }
      Open(page.value, zi, size);
      return Some((page.value, 0));
    }

    /** Put chunk i of zone z back. */
    method PutBack(z: Id, i: nat)
      requires Inv(Abs()) && Live(Abs(), z, i)
      modifies this`zones, zoneArray
      ensures old(zones)[z].cls < NZONES && Abs() == GiveBack(old(Abs()), z, i)
    {
      assert ZoneOk(zones[z]);
      var b := zones[z];
      zones := zones[z := b.(freechunk := [i] + b.freechunk, nfree := b.nfree + 1)];
      if b.nfree == 0 { zoneArray[b.cls] := [z] + zoneArray[b.cls]; }
      assert zoneArray[..] == if b.nfree == 0 then old(zoneArray[..])[b.cls := [z] + old(zoneArray[b.cls])]
             else old(zoneArray[..]);
    }

    /** Move an empty zone to zone_free, or release it. */
    method RetireZone(z: Id) returns (released: Option<Id>)
      requires z in zones && zones[z].cls < zoneArray.Length
      modifies this`zones, this`zoneFree, zoneArray
      ensures Abs() == Retire(old(Abs()), z).0 && released == Retire(old(Abs()), z).1
    {
      var c := zones[z].cls;
      if zones[z].nfree != zones[z].nmax || zoneArray[c] == [z] { return None; }
      zoneArray[c] := Without(zoneArray[c], z);
      assert zoneArray[..] == old(zoneArray[..])[c := Without(old(zoneArray[c]), z)];
      zones := zones - {z};
      zoneFree := [z] + zoneFree;
      if |zoneFree| > THRESH {
        zoneFree := zoneFree[1..];
        return Some(z);
      }
      return None;
    }

    /** The zone path of rt_free, with the zone given back to the page allocator, if any. */
    method FreeChunk(z: Id, i: nat) returns (released: Option<Id>)
      requires Valid() && Live(Abs(), z, i)
      modifies this`zones, this`zoneFree, zoneArray
      ensures Valid() && Abs() == Step(old(Abs()), OpFree(z, i))
      ensures released.Some? ==> released == Some(z) && z !in zones && z !in zoneFree
    {
      FreeTakesBack(Abs(), z, i);
      GiveBackKeeps(Abs(), z, i);
      RetireKeeps(GiveBack(Abs(), z, i), z);
      PutBack(z, i);
      released := RetireZone(z);
    }
  }
}
