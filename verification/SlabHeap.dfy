/** The slab allocator of slab.c: zones of equal chunks on top of the page list. */
module SlabHeap {
  import opened Lists
  import opened SlabPages
  import opened SlabZones
  import opened SlabModel
  import opened SlabPageList
  import opened Memory

  const RELEASE_THRESHOLD := 2          // ZONE_RELEASE_THRESH

  /** The zone size rt_slab_init chooses for a heap of limSize bytes. */
  method ZoneSizeFor(limSize: nat) returns (zoneSize: nat)
    ensures IsZoneSize(zoneSize)
    ensures zoneSize < 131072 ==> 2 * zoneSize >= limSize / 1024
    ensures zoneSize > 32768 ==> zoneSize < limSize / 1024
  {
    zoneSize := 32768;
    while zoneSize < 131072 && 2 * zoneSize < limSize / 1024
      invariant IsZoneSize(zoneSize) && (zoneSize > 32768 ==> zoneSize < limSize / 1024)
      decreases 131072 - zoneSize
    {
      zoneSize := 2 * zoneSize;
    }
  }

  /** The pages of the page table: one 4-byte entry for every page. */
  function TablePages(npages: nat): nat {
    RoundUp(npages * 4, PAGE_SIZE) / PAGE_SIZE
  }

  lemma TableFits(npages: nat)
    requires npages > 0
    ensures 0 < TablePages(npages) <= npages
  {
    RoundUpBounds(npages * 4, PAGE_SIZE);
  }

  lemma TableBytes(npages: nat)
    ensures 4 * npages <= 4096 * TablePages(npages) < 4 * npages + 4096
  {
    RoundUpBounds(npages * 4, PAGE_SIZE);
  }

  /** The page table takes the first pages of the heap. */
  lemma TableTaken(npages: nat)
    requires npages > 0
    ensures TablePages(npages) > 0
    ensures forall p: nat {:trigger Free(Take([Run(0, npages)], TablePages(npages)).rest, p)} ::
              Free(Take([Run(0, npages)], TablePages(npages)).rest, p) <==> TablePages(npages) <= p < npages
  {
    TableFits(npages);
    hide TablePages;
    var rs, n := [Run(0, npages)], TablePages(npages);
    assert rs[1..] == [];
    TakeConserves(rs, n, 0, npages);
    assert Take(rs, n).first == Some(0);
    assert forall q: nat :: Free(rs, q) <==> q < npages;
  }

  lemma EmptyModel()
    ensures ListsOk(map[], seq(NZONES, i => []), []) && InUse(map[], map[]) == 0
  {
    assert SmallBytes(map[]) == map[] && LargeBytes(map[]) == map[];
  }

  lemma NoOwners(usage: seq<Usage>, rs: Runs, cnt: nat)
    ensures PagesOk(map[], map[], usage, rs, cnt)
  {
  }

  class Slab {
    const pages: PageList
    const usage: array<Usage>           // memusage
    const data: array<int>              // the bytes of live blocks
    const zoneSize: nat
    const cnt: nat                      // zone_page_cnt
    var zones: Zones                    // the headers, by first page
    var zoneArray: seq<seq<nat>>        // zone_array
    var zoneFree: seq<nat>              // zone_free
    var zoneFreeCnt: nat
    var used: int
    var max: int
    ghost var large: Larges

    ghost predicate Shaped()
      reads pages
    {
      && IsZoneSize(zoneSize) && zoneSize == cnt * PAGE_SIZE && cnt > 0
      && usage.Length == pages.total && pages.Shaped()
      && data.Length == pages.total * PAGE_SIZE && data != pages.next && data != pages.count
    }

    ghost predicate ZoneState()
      reads this`zones, this`zoneArray, this`zoneFree, this`zoneFreeCnt
    {
      ZonesOk(zones, zoneSize) && ListsOk(zones, zoneArray, zoneFree) && zoneFreeCnt == |zoneFree|
    }

    ghost predicate PageState()
      reads this`zones, this`large, pages, pages.next, pages.count, usage
    {
      && Shaped() && pages.Valid()
      && PagesOk(zones, large, usage[..], pages.runs, cnt)
    }

    ghost predicate Counted()
      reads this`zones, this`large, this`used, this`max
    {
      used == InUse(zones, large) && used <= max
    }

    ghost predicate Valid()
      reads this, pages, pages.next, pages.count, usage
    {
      PageState() && ZoneState() && Counted()
    }

    /** rt_slab_init on a heap of npages pages; the first of them hold the page table. */
    constructor (npages: nat)
      requires npages > 0
      ensures Valid() && zones == map[] && large == map[] && used == 0 && max == 0
      ensures fresh(pages) && fresh(pages.next) && fresh(pages.count) && fresh(usage) && fresh(data)
      ensures forall p: nat {:trigger Free(pages.runs, p)} :: Free(pages.runs, p) <==> TablePages(npages) <= p < npages
      // the table has a word of 4 bytes for every page
      ensures 4 * npages <= 4096 * TablePages(npages) < 4 * npages + 4096 && pages.total == npages
    {
      hide Valid, Take, Sorted, PagesOk, ListsOk, InUse, TablePages, RoundUp;
      TableTaken(npages);
      var p := new PageList(npages);
      var size := ZoneSizeFor(npages * PAGE_SIZE);
      var table := p.Alloc(TablePages(npages));
      pages := p;
      zoneSize, cnt := size, size / PAGE_SIZE;
      usage := new Usage[npages](i => Usage(Unused, 0));
      data := new int[npages * PAGE_SIZE];
      zones, zoneArray, zoneFree, zoneFreeCnt := map[], seq(NZONES, i => []), [], 0;
      used, max := 0, 0;
      large := map[];
      new;
      FirstValid();
      TableBytes(npages);
    }

    lemma FirstValid()
      requires Shaped() && pages.Valid() && zones == map[] && large == map[] && used == max == 0
      requires zoneArray == seq(NZONES, i => []) && zoneFree == [] && zoneFreeCnt == 0
      ensures Valid()
    {
      EmptyModel();
      NoOwners(usage[..], pages.runs, cnt);
    }

    /** used and max after a change by delta. */
    method Account(delta: int)
      modifies this`used, this`max
      ensures used == old(used) + delta && max == if used > old(max) then used else old(max)
    {
      used := used + delta;
      if used > max {
        max := used;
      }
    }

    /** n pages from the page list, which nobody owned. */
    method TakePages(n: nat) returns (r: Option<nat>)
      requires pages.Valid() && n > 0
      modifies pages`head, pages`runs, pages.next, pages.count
      ensures pages.Valid()
      ensures r.None? ==> pages.runs == old(pages.runs) && forall a: nat {:trigger AllFree(pages.runs, a, n)} ::
                !AllFree(pages.runs, a, n)
      ensures r.Some? ==> Took(old(pages.runs), pages.runs, r.value, n) && r.value + n <= pages.total
    {
      TakeConserves(pages.runs, n, 0, pages.total);
      TakeComplete(pages.runs, n, 0, pages.total);
      r := pages.Alloc(n);
    }

    /** A large request goes to the page list. */
    method AllocLarge(size: nat) returns (r: Option<nat>)
      requires Valid() && size > 0
      modifies this`used, this`max, this`large, pages`head, pages`runs, pages.next, pages.count, usage
      ensures Valid()
      ensures var n := RoundUp(size, PAGE_SIZE) / PAGE_SIZE;
              && (r.None? ==>
                    && large == old(large) && used == old(used)
                    && NoPages(old(pages.runs), n))
              && (r.Some? ==> && Added(zones, old(large), zones, large, r.value, n * PAGE_SIZE)
                              && NewLarge(old(large), large, r.value, n) && used == old(used) + n * PAGE_SIZE)
              && max == if used > old(max) then used else old(max)
    {
      hide PagesOk, ListsOk, ZonesOk, InUse, Took, RoundUp, Added;
      var n := RoundUp(size, PAGE_SIZE) / PAGE_SIZE;
      ghost var lg := large;
      SomePages(size);
      ghost var rs, us := pages.runs, usage[..];
      var a := TakePages(n);
      if a.None? {
        return None;
      }
      LargeTaken(zones, large, us, rs, pages.runs, cnt, a.value, n);
      InUseLarge(zones, large, a.value, n);
      usage[a.value] := Usage(Large, n);
      assert usage[..] == us[a.value := Usage(Large, n)];
      LargeAdded(zones, large, usage[..], pages.runs, cnt, zoneSize, a.value, n);
      large := large[a.value := n];
      Account(n * PAGE_SIZE);
      LargeIsNew(lg, us, rs, pages.runs, a.value, n);
      r := Some(a.value * PAGE_SIZE);
    }

    /** Pages that were free belong to no large block. */
    lemma LargeIsNew(lg: Larges, us: seq<Usage>, rs: Runs, rs': Runs, l: nat, n: nat)
      requires PagesOk(zones, lg, us, rs, cnt) && Took(rs, rs', l, n) && n > 0
      ensures NewLarge(lg, lg[l := n], l * PAGE_SIZE, n)
    {
      assert l * PAGE_SIZE / PAGE_SIZE == l;
      assert In(l, l, n);
      if l in lg {
        assert OwnedByLarge(lg, l, l);
      }
    }

    /** A chunk from the zone at the head of its list. */
    method AllocFromZone(c: Class) returns (r: nat)
      requires Valid() && c.index < NZONES && c.size == ChunkSize(c.index) && |zoneArray| == NZONES
      requires zoneArray[c.index] != []
      modifies this`used, this`max, this`zones, this`zoneArray
      ensures Valid() && Added(old(zones), large, zones, large, r, c.size) && zones.Keys == old(zones).Keys
      ensures used == old(used) + c.size
      ensures max == if used > old(max) then used else old(max)
    {
      hide PagesOk, ListsOk, ZonesOk, InUse, Live, IsLive, Added, Address;
      ghost var zs := zones;
      TakeReady(c);
      var z := zoneArray[c.index][0];
      var zone := zones[z];
      zone := zone.(nfree := zone.nfree - 1);
      if zone.nfree == 0 {
        zoneArray := zoneArray[c.index := zoneArray[c.index][1..]];
      }
      if zone.uindex + 1 != zone.nmax {
        zone := zone.(uindex := zone.uindex + 1);
        r := Address(z, zone, zone.uindex);
        SameAddress(z, zs[z], zone, zone.uindex);
      } else {
        r := zone.free[0];
        zone := zone.(free := zone.free[1..]);
      }
      zones := zones[z := zone];
      Account(zone.chunk);
    }

    /** What a chunk taken from the head of a list comes to. */
    lemma TakeReady(c: Class)
      requires Valid() && c.index < NZONES && c.size == ChunkSize(c.index) && |zoneArray| == NZONES
      requires zoneArray[c.index] != []
      ensures zoneArray[c.index][0] in zones
      ensures var z := zoneArray[c.index][0];
              var zone := zones[z];
              && zone.nfree > 0 && zone.chunk == c.size && (zone.uindex + 1 == zone.nmax ==> zone.free != [])
              && var zones' := zones[z := TakeChunk(zone)];
                 && ListsOk(zones', if zone.nfree == 1 then zoneArray[c.index := zoneArray[c.index][1..]]
                                    else zoneArray, zoneFree)
                 && PagesOk(zones', large, usage[..], pages.runs, cnt) && ZonesOk(zones', zoneSize)
                 && InUse(zones', large) == InUse(zones, large) + c.size
                 && Added(zones, large, zones', large, TakenChunk(z, zone), c.size)
    {
      hide PagesOk, InUse, Live, IsLive, Added, ZoneOk, ChunkSize, TakeChunk, TakenChunk;
      var z := zoneArray[c.index][0];
      assert z in zoneArray[c.index];
      TakeChunkOk(z, zones[z], zoneSize);
      TakeChunkFields(zones[z]);
      var zone := TakeChunk(zones[z]);
      HeadServes(zones, zoneArray, zoneFree, c.index, zone);
      HeaderChanged(zones, large, usage[..], pages.runs, cnt, z, zone);
      InUseZone(zones, large, z, zone);
      OneChunkMore(zones[z]);
      ZonesStay(zones, zoneSize, z, zone);
      ChunkAdded(zones, large, usage[..], pages.runs, cnt, zoneSize, z, zone, TakenChunk(z, zones[z]));
    }

    /** The table entries of a zone's pages. */
    method Mark(z: nat, kind: Kind)
      requires z + cnt <= usage.Length
      modifies usage
      ensures Marked(old(usage[..]), usage[..], z, cnt, kind)
    {
      ghost var us := usage[..];
      for off := 0 to cnt
        invariant forall p: nat {:trigger usage[p]} :: p < usage.Length ==>
          usage[p] == if In(p, z, off) then Usage(kind, if kind == Small then p - z else 0) else us[p]
      {
        usage[z + off] := Usage(kind, if kind == Small then off else 0);
      }
    }

    /** The pages of a new zone: a parked zone if there is one, else from the page list. */
    method AllocZone(ghost zone: Zone) returns (r: Option<nat>)
      requires Valid() && zone.index < NZONES && zone.nfree > 0
      modifies this`zoneFree, this`zoneFreeCnt, pages`head, pages`runs, pages.next, pages.count, usage
      ensures Shaped() && pages.Valid() && |zoneArray| == NZONES
      ensures r.None? ==> Valid() && usage[..] == old(usage[..]) && old(zoneFree) == [] && zoneFree == []
                          && forall a: nat {:trigger AllFree(old(pages.runs), a, cnt)} ::
                               !AllFree(old(pages.runs), a, cnt)
      ensures r.Some? ==> var z := r.value;
                && (z in zones ==> Live(z, zones[z]) == {} && zones[z].nfree == zones[z].nmax)
                && PagesOk(zones[z := zone], large, usage[..], pages.runs, cnt)
                && ListsOk(zones[z := zone], zoneArray[zone.index := [z] + zoneArray[zone.index]], zoneFree)
                && zoneFreeCnt == |zoneFree|
    {
      assert |zoneArray| == NZONES;
      hide PagesOk, InUse, Live, Took, ListsOk;
      ghost var rs, us := pages.runs, usage[..];
      if zoneFree != [] {
        var z := zoneFree[0];
        ParkedHead(zones, zoneArray, zoneFree, zoneSize);
        ZoneEnters(zones, zoneArray, zoneFree, z, zone);
        HeaderChanged(zones, large, us, rs, cnt, z, zone);
        zoneFree := zoneFree[1..];
        zoneFreeCnt := zoneFreeCnt - 1;
        return Some(z);
      }
      r := TakePages(cnt);
      if r.Some? {
        Mark(r.value, Small);
        ZoneTaken(zones, large, us, usage[..], rs, pages.runs, cnt, r.value, zone);
        ZoneEnters(zones, zoneArray, zoneFree, r.value, zone);
      }
    }

    /** A chunk from a new zone. */
    method AllocFromNewZone(c: Class) returns (r: Option<nat>)
      requires Valid() && c.index < NZONES && c.size == ChunkSize(c.index)
      requires c.size > 0 && ZONE_HEADER <= Offset(c.size) && Offset(c.size) + 2 * c.size <= zoneSize
      modifies this, pages`head, pages`runs, pages.next, pages.count, usage
      ensures Valid() && large == old(large)
      ensures r.None? ==> zones == old(zones) && used == old(used) && old(zoneFree) == []
                          && forall a: nat {:trigger AllFree(old(pages.runs), a, cnt)} ::
                               !AllFree(old(pages.runs), a, cnt)
      ensures r.Some? ==> Added(old(zones), large, zones, large, r.value, c.size) && used == old(used) + c.size
      ensures max == if used > old(max) then used else old(max)
    {
      hide PagesOk, ListsOk, ZonesOk, InUse, Live, IsLive, Added, Offset, NewZone, Address;
      var zone := NewZone(zoneSize, c);
      ghost var zs := zones;
      NewZoneIs(zoneSize, c);
      var z := AllocZone(zone);
      if z.None? {
        return None;
      }
      NewZoneAdded(zs, large, usage[..], pages.runs, cnt, zoneSize, z.value, c);
      zones := zones[z.value := zone];
      zoneArray := zoneArray[c.index := [z.value] + zoneArray[c.index]];
      Account(zone.chunk);
      r := Some(Address(z.value, zone, 0));
    }

    /** rt_slab_alloc */
    method Alloc(size: nat) returns (r: Option<nat>)
      requires Valid()
      modifies this, pages`head, pages`runs, pages.next, pages.count, usage
      ensures Valid()
      ensures size == 0 ==> r.None?
      ensures size > 0 ==> AllocOutcome(zoneSize, size, old(zones), old(large), old(pages.runs), zones, large, r,
                                        used - old(used))
      ensures r.None? ==> zones == old(zones) && large == old(large) && used == old(used)
      ensures r.None? && size > 0 ==> NoPages(old(pages.runs), PagesFor(size))
      ensures r.Some? ==> Added(old(zones), old(large), zones, large, r.value, Granted(size)) && size <= Granted(size)
      ensures max == if used > old(max) then used else old(max)
    {
      hide *;
      ArrayLength();
      if size == 0 {
        return None;
      }
      if size >= ZoneLimit(zoneSize) {
        r := AllocPages(size);
      } else {
        r := AllocSmall(size);
      }
    }

    /** A request that no zone serves. */
    method AllocPages(size: nat) returns (r: Option<nat>)
      requires Valid() && size > 0 && size >= ZoneLimit(zoneSize) && IsZoneSize(zoneSize)
      modifies this`used, this`max, this`large, pages`head, pages`runs, pages.next, pages.count, usage
      ensures Valid()
      ensures r.None? ==> large == old(large) && used == old(used) && NoPages(old(pages.runs), PagesFor(size))
      ensures r.Some? ==> Added(zones, old(large), zones, large, r.value, Granted(size)) && size <= Granted(size)
      ensures max == if used > old(max) then used else old(max)
      ensures AllocOutcome(zoneSize, size, zones, old(large), old(pages.runs), zones, large, r, used - old(used))
    {
      SizesFor(size);
      hide Valid, Added, RoundUp, NoPages, ZoneLimit, NewLarge, AllocOutcome;
      ghost var lg, rs, was := large, pages.runs, used;
      r := AllocLarge(size);
      LargeOutcome(zoneSize, size, zones, lg, rs, large, r, used - was);
    }

    /** A chunk from the class of the request. */
    method AllocSmall(size: nat) returns (r: Option<nat>)
      requires Valid() && 0 < size < ZoneLimit(zoneSize)
      modifies this, pages`head, pages`runs, pages.next, pages.count, usage
      ensures Valid() && large == old(large)
      ensures r.None? ==> zones == old(zones) && used == old(used) && NoPages(old(pages.runs), PagesFor(size))
      ensures r.Some? ==> Added(old(zones), large, zones, large, r.value, Granted(size)) && size <= Granted(size)
      ensures AllocOutcome(zoneSize, size, old(zones), large, old(pages.runs), zones, large, r, used - old(used))
      ensures max == if used > old(max) then used else old(max)
    {
      SizesFor(size);
      hide Valid, Added, ZoneIndex, ChunkSize, Offset, AllocOutcome, PagesFor, Granted, RoundUp;
      ArrayLength();
      ghost var zs, rs, was := zones, pages.runs, used;
      var c := ZoneIndex(size);
      ClassRoom(zoneSize, size);
      IndexGivesSize(size);
      if zoneArray[c.index] != [] {
        var a := AllocFromZone(c);
        r := Some(a);
      } else {
        r := AllocFromNewZone(c);
      }
      SmallOutcome(zoneSize, size, zs, large, rs, zones, r, used - was);
    }

    lemma ArrayLength()
      requires Valid()
      ensures |zoneArray| == NZONES && IsZoneSize(zoneSize) && used <= max && zoneSize / PAGE_SIZE == cnt
    {
    }

    /** The bytes a request for size bytes is given. */
    function Granted(size: nat): nat
    {
      if size >= ZoneLimit(zoneSize) then RoundUp(size, PAGE_SIZE) / PAGE_SIZE * PAGE_SIZE else ZoneIndex(size).size
    }

    lemma SizesFor(size: nat)
      ensures size <= RoundUp(size, PAGE_SIZE) / PAGE_SIZE * PAGE_SIZE
      ensures if size >= ZoneLimit(zoneSize)
              then PagesFor(size) == RoundUp(size, PAGE_SIZE) / PAGE_SIZE && Granted(size) == PagesFor(size) * PAGE_SIZE
              else PagesFor(size) == cnt && Granted(size) == ZoneIndex(size).size
    {
      hide ZoneIndex, ZoneLimit;
      RoundUpBounds(size, PAGE_SIZE);
    }

    /** The pages a request may have to take from the page list. */
    function PagesFor(size: nat): nat
    {
      if size >= ZoneLimit(zoneSize) then RoundUp(size, PAGE_SIZE) / PAGE_SIZE else cnt
    }

    // -------------------------------------------------------------- rt_slab_free

    /** n pages from a on, which nobody owns any more, go back to the page list. */
    method GivePages(a: nat, n: nat)
      requires pages.Valid() && n > 0 && a + n <= pages.total && NoneFree(pages.runs, a, n)
      modifies pages`head, pages`runs, pages.next, pages.count
      ensures pages.Valid() && Gave(old(pages.runs), pages.runs, a, n)
    {
      ghost var rs := pages.runs;
      pages.Give(a, n);
      forall p: nat {:trigger Free(pages.runs, p)} ensures Free(pages.runs, p) <==> Free(rs, p) || In(p, a, n) {
        GivePage(rs, a, n, p);
      }
    }

    /** The large block at page l is freed. */
    method FreeLarge(l: nat)
      requires Valid() && l in large
      modifies this`used, this`large, pages`head, pages`runs, pages.next, pages.count, usage
      ensures Valid() && large == old(large) - {l} && used == old(used) - old(large)[l] * PAGE_SIZE
      ensures Removed(zones, old(large), zones, large, l * PAGE_SIZE)
    {
      hide PagesOk, ListsOk, ZonesOk, InUse, Gave, Removed, NoneFree;
      LargeReady(l);
      ghost var rs, us, lg := pages.runs, usage[..], large;
      var size := usage[l].size;
      usage[l] := Usage(Large, 0);
      assert usage[..] == us[l := Usage(Large, 0)];
      used := used - size * PAGE_SIZE;
      GivePages(l, size);
      LargeGiven(zones, lg, us, rs, pages.runs, cnt, l);
      large := large - {l};
    }

    /** What freeing a large block relies on. */
    lemma LargeReady(l: nat)
      requires Valid() && l in large
      ensures l < usage.Length && usage[l] == Usage(Large, large[l]) && large[l] > 0 && l + large[l] <= pages.total
      ensures NoneFree(pages.runs, l, large[l])
      ensures InUse(zones, large - {l}) == InUse(zones, large) - large[l] * PAGE_SIZE
      ensures Removed(zones, large, zones, large - {l}, l * PAGE_SIZE)
    {
      InUseLargeGone(zones, large, l);
      LargeRemoved(zones, large, usage[..], pages.runs, cnt, zoneSize, l);
      assert usage[..][l] == usage[l];
      forall p: nat {:trigger Free(pages.runs, p)} | In(p, l, large[l]) ensures !Free(pages.runs, p) {
        assert OwnedByLarge(large, l, p);
      }
    }

    /** The chunk at a of zone z is freed. */
    method FreeChunk(z: nat, a: nat)
      requires Valid() && LiveSmall(zones, z, a)
      modifies this, pages`head, pages`runs, pages.next, pages.count, usage
      ensures Valid() && Removed(old(zones), large, zones, large, a) && large == old(large)
      ensures used == old(used) - old(zones)[z].chunk
      ensures max == old(max)
      // with its last live chunk a zone is parked, or given up when two are parked, unless it is alone in its class
      ensures z in old(zones) && old(zones)[z].index < |old(zoneArray)|
      ensures var x := old(zones)[z];
              var list := old(zoneArray)[x.index];
              if x.nfree + 1 != x.nmax || (if x.nfree == 0 then list == [] else list == [z]) then
                zones.Keys == old(zones).Keys && zoneFree == old(zoneFree) && pages.runs == old(pages.runs)
              else if |old(zoneFree)| < 2 then
                zones.Keys == old(zones).Keys && zoneFree == [z] + old(zoneFree) && pages.runs == old(pages.runs)
              else
                && zones.Keys == old(zones).Keys - {z} && zoneFree == old(zoneFree)
                && Gave(old(pages.runs), pages.runs, z, cnt)
    {
      hide PagesOk, ListsOk, ZonesOk, InUse, Removed, Live, LiveSmall, Gave;
      ghost var zs := zones;
      ReturnChunk(z, a);
      var zone := zones[z];
      if zone.nfree == zone.nmax && zoneArray[zone.index] != [z] {
        Park(z, zs, a);
      }
    }

    /** The chunk goes on the free list of its zone, and the zone on its list. */
    method ReturnChunk(z: nat, a: nat)
      requires Valid() && LiveSmall(zones, z, a)
      modifies this`used, this`zones, this`zoneArray
      ensures Valid() && Removed(old(zones), large, zones, large, a)
      ensures used == old(used) - old(zones)[z].chunk
      ensures z in zones && zones[z].index < NZONES == |zoneArray| && z in zoneArray[zones[z].index]
      ensures z in old(zones) && zones.Keys == old(zones).Keys
      ensures var x := old(zones)[z];
              && zones[z].index == x.index && zones[z].nfree == x.nfree + 1 && zones[z].nmax == x.nmax
              && |old(zoneArray)| == NZONES
              && zoneArray[x.index] == (if x.nfree == 0 then [z] else []) + old(zoneArray)[x.index]
    {
      hide PagesOk, ListsOk, ZonesOk, InUse, Removed, Live, LiveSmall;
      PutReady(z, a);
      var zone := zones[z];
      zone := zone.(free := [a] + zone.free);
      used := used - zone.chunk;
      if zone.nfree == 0 {
        zoneArray := zoneArray[zone.index := [z] + zoneArray[zone.index]];
      }
      zone := zone.(nfree := zone.nfree + 1);
      zones := zones[z := zone];
    }

    /** What freeing a chunk relies on. */
    lemma PutReady(z: nat, a: nat)
      requires Valid() && LiveSmall(zones, z, a)
      ensures z in zones && zones[z].index < NZONES == |zoneArray|
      ensures var i := zones[z].index;
              var zones' := zones[z := PutChunk(zones[z], a)];
              var za' := if zones[z].nfree == 0 then zoneArray[i := [z] + zoneArray[i]] else zoneArray;
              && ListsOk(zones', za', zoneFree) && z in za'[i]
              && PagesOk(zones', large, usage[..], pages.runs, cnt) && ZonesOk(zones', zoneSize)
              && InUse(zones', large) == InUse(zones, large) - zones[z].chunk
              && Removed(zones, large, zones', large, a)
      ensures zones[z].chunk >= 0
    {
      hide PagesOk, InUse, Removed, ZoneOk, ChunkSize;
      var zone := PutChunk(zones[z], a);
      NotParked(zones, zoneArray, zoneFree, zoneSize, z, a);
      PutChunkOk(z, zones[z], zoneSize, a);
      ChunkReturns(zones, zoneArray, zoneFree, z, zone);
      HeaderChanged(zones, large, usage[..], pages.runs, cnt, z, zone);
      InUseZone(zones, large, z, zone);
      OneChunkLess(zones[z], a);
      ZonesStay(zones, zoneSize, z, zone);
      ChunkRemoved(zones, large, usage[..], pages.runs, cnt, zoneSize, z, zone, a);
    }

    /** A zone without live chunks is parked, and when two are parked already its pages go back. */
    method Park(z: nat, ghost zs: Zones, ghost a: nat)
      requires Valid() && z in zones && zones[z].index < NZONES == |zoneArray| && z in zoneArray[zones[z].index]
      requires zones[z].nfree == zones[z].nmax && Removed(zs, large, zones, large, a)
      modifies this`zones, this`zoneArray, this`zoneFree, this`zoneFreeCnt
      modifies pages`head, pages`runs, pages.next, pages.count, usage
      ensures Valid() && Removed(zs, large, zones, large, a)
      ensures |old(zoneFree)| < 2 ==> zones == old(zones) && zoneFree == [z] + old(zoneFree)
                                      && pages.runs == old(pages.runs)
      ensures |old(zoneFree)| >= 2 ==> zones == old(zones) - {z} && zoneFree == old(zoneFree)
                                       && Gave(old(pages.runs), pages.runs, z, cnt)
    {
      hide PagesOk, ListsOk, ZonesOk, ParkedOk, InUse, Removed, Live, NoneFree, Gave, LiveSmall;
      ParkReady(z, zs, a);
      zoneArray := zoneArray[zones[z].index := Remove(zoneArray[zones[z].index], z)];
      zoneFree := [z] + zoneFree;
      zoneFreeCnt := zoneFreeCnt + 1;
      if zoneFreeCnt > RELEASE_THRESHOLD {
        Release(z);
      }
    }

    /** The zone parked last gives its pages back. */
    method Release(ghost z: nat)
      requires PageState() && Counted() && zoneFree != [] && zoneFree[0] == z && zoneFreeCnt == |zoneFree|
      requires z in zones && z + cnt <= pages.total && NoneFree(pages.runs, z, cnt)
      requires ZonesOk(zones - {z}, zoneSize) && InUse(zones - {z}, large) == InUse(zones, large)
      requires ListsOk(zones - {z}, zoneArray, zoneFree[1..])
      modifies this`zones, this`zoneFree, this`zoneFreeCnt, pages`head, pages`runs, pages.next, pages.count, usage
      ensures Valid() && zones == old(zones) - {z} && zoneFree == old(zoneFree)[1..]
      ensures Gave(old(pages.runs), pages.runs, z, cnt)
    {
      hide PagesOk, ListsOk, ZonesOk, InUse, NoneFree, Gave;
      ghost var rs, us, zs := pages.runs, usage[..], zones;
      var y := zoneFree[0];
      zoneFree := zoneFree[1..];
      zoneFreeCnt := zoneFreeCnt - 1;
      Mark(y, Unused);
      GivePages(y, cnt);
      ZoneGiven(zs, large, us, usage[..], rs, pages.runs, cnt, y);
      zones := zones - {y};
    }

    /** What parking a zone relies on. */
    lemma ParkReady(z: nat, zs: Zones, a: nat)
      requires Valid() && z in zones && zones[z].index < NZONES == |zoneArray| && z in zoneArray[zones[z].index]
      requires zones[z].nfree == zones[z].nmax && Removed(zs, large, zones, large, a)
      ensures |zoneFree| <= 2 && z + cnt <= pages.total && NoneFree(pages.runs, z, cnt)
      ensures var za' := zoneArray[zones[z].index := Remove(zoneArray[zones[z].index], z)];
              var parked' := [z] + zoneFree;
              && (|parked'| <= 2 ==> ListsOk(zones, za', parked'))
              && (|parked'| == 3 ==> ListsOk(zones - {z}, za', parked'[1..]))
      ensures ZonesOk(zones - {z}, zoneSize) && InUse(zones - {z}, large) == InUse(zones, large)
      ensures Removed(zs, large, zones - {z}, large, a)
    {
      hide InUse, Removed, ZoneOk, ChunkSize, Live;
      LiveCount(z, zones[z], zoneSize);
      ZoneParks(zones, zoneArray, zoneFree, z);
      if |zoneFree| == 2 {
        ZoneLeaves(zones, zoneArray[zones[z].index := Remove(zoneArray[zones[z].index], z)], [z] + zoneFree);
      }
      InUseZoneGone(zones, large, z);
      EmptyZoneGone(zs, large, zones, large, z, a);
      forall p: nat {:trigger Free(pages.runs, p)} | In(p, z, cnt) ensures !Free(pages.runs, p) {
        assert OwnedByZone(zones, cnt, z, p);
      }
    }

    /** rt_slab_free of the live block of m bytes at a */
    method FreeLive(a: nat, ghost m: nat)
      requires Valid() && IsLive(zones, large, a, m)
      modifies this, pages`head, pages`runs, pages.next, pages.count, usage
      ensures Valid() && max == old(max) && used == old(used) - m
      ensures Removed(old(zones), old(large), zones, large, a)
    {
      hide PageState, ZoneState, Counted, PagesOk, ListsOk, ZonesOk, InUse, Removed, Live, LiveSmall, IsLive;
      var page := a / PAGE_SIZE;
      Lookup(a, m);
      if usage[page].kind == Large {
        FreeLarge(page);
      } else {
        FreeChunk(page - usage[page].size, a);
      }
    }

    /** rt_slab_free, which ignores the null pointer */
    method FreeBlock(ptr: Option<nat>, ghost m: nat)
      requires Valid() && (ptr.Some? ==> IsLive(zones, large, ptr.value, m))
      modifies this, pages`head, pages`runs, pages.next, pages.count, usage
      ensures Valid() && max == old(max)
      ensures ptr.None? ==> zones == old(zones) && large == old(large) && used == old(used)
      ensures ptr.Some? ==> Removed(old(zones), old(large), zones, large, ptr.value) && used == old(used) - m
    {
      hide *;
      if ptr.Some? {
        FreeLive(ptr.value, m);
      }
    }

    /** The bytes rt_slab_realloc asks rt_slab_alloc for: a chunk's new size is rounded first. */
    function Asked(ptr: Option<nat>, size: nat): nat
      reads usage
    {
      if ptr.Some? && ptr.value / PAGE_SIZE < usage.Length && usage[ptr.value / PAGE_SIZE].kind != Large
         && 0 < size < ZONE_LIMIT then ZoneIndex(size).size else size
    }

    /** rt_slab_realloc: the same chunk when the class stays, else a new block that gets the words of the old one. */
    method Realloc(ptr: Option<nat>, size: nat, ghost m: nat) returns (r: Option<nat>, ghost zs: Zones,
                   ghost lg: Larges)
      requires Valid() && (ptr.Some? ==> IsLive(zones, large, ptr.value, m))
      modifies this, pages`head, pages`runs, pages.next, pages.count, usage, data
      ensures Valid()
      ensures ptr.None? && r.Some? ==>
                Added(old(zones), old(large), zones, large, r.value, Granted(size)) && size <= Granted(size)
      ensures ptr.Some? && size == 0 ==> r.None? && Removed(old(zones), old(large), zones, large, ptr.value)
      ensures r.None? && size > 0 ==> zones == old(zones) && large == old(large) && used == old(used)
      ensures r.None? && size > 0 ==> NoPages(old(pages.runs), PagesFor(old(Asked(ptr, size))))
      ensures ptr.Some? && r.Some? && r != ptr ==>
                && Moved(old(zones), old(large), zs, lg, zones, large, ptr.value, r.value,
                         Granted(old(Asked(ptr, size))), size)
                && BytesMoved(old(zones), old(large), old(data[..]), data[..], ptr.value, r.value,
                              Shorter(old(Asked(ptr, size)), m))
      // in bytes: as many of them as there were and as are asked for are in the new block
      ensures ptr.Some? && r.Some? && r != ptr ==>
                FirstBytes(old(data[..]), data[..], ptr.value, r.value, if m < size then m else size)
      ensures ptr.Some? && r == ptr ==> ChunkFits(size, m)
      ensures r.None? || ptr.None? || r == ptr ==> data[..] == old(data[..])
      ensures ptr.Some? && r == ptr ==> zones == old(zones) && large == old(large) && used == old(used) && size <= m
      // the peak: the new block and the old one are both in use while the bytes are copied
      ensures var both := used + if ptr.Some? then m else 0;
              max == if r.Some? && r != ptr && both > old(max) then both else old(max)
    {
      hide Valid, NoPages, Removed, Added, IsLive, BytesMoved, Moved, Granted, PagesFor, Asked;
      BytesApart();
      zs, lg := zones, large;
      if ptr.None? {
        AskedPlainly(size);
        r := Alloc(size);
      } else if size == 0 {
        FreeLive(ptr.value, m);
        r := None;
      } else {
        r, zs, lg := ReallocLive(ptr.value, size, m);
      }
    }

    /** A first allocation asks for what the caller wants. */
    lemma AskedPlainly(size: nat)
      ensures Asked(None, size) == size
    {
    }

    /** The block stays when its class does, else it moves. */
    method ReallocLive(a: nat, size: nat, ghost m: nat) returns (r: Option<nat>, ghost zs: Zones, ghost lg: Larges)
      requires Valid() && IsLive(zones, large, a, m) && size > 0
      modifies this, pages`head, pages`runs, pages.next, pages.count, usage, data
      ensures Valid()
      ensures r.None? || r == Some(a) ==> zones == old(zones) && large == old(large) && used == old(used)
                                          && data[..] == old(data[..])
      ensures r.None? ==> NoPages(old(pages.runs), PagesFor(old(Asked(Some(a), size))))
      ensures r == Some(a) ==> size <= m && ChunkFits(size, m)
      ensures r.Some? && r != Some(a) ==>
                FirstBytes(old(data[..]), data[..], a, r.value, if m < size then m else size)
      ensures r.Some? && r != Some(a) ==>
                && Moved(old(zones), old(large), zs, lg, zones, large, a, r.value, Granted(old(Asked(Some(a), size))),
                         size)
                && BytesMoved(old(zones), old(large), old(data[..]), data[..], a, r.value,
                              Shorter(old(Asked(Some(a), size)), m))
      ensures max == if r.Some? && r != Some(a) && used + m > old(max) then used + m else old(max)
    {
      hide Valid, NoPages, Removed, Added, IsLive, LiveSmall, BytesMoved, Granted, PagesFor, ZoneIndex;
      BytesApart();
      zs, lg := zones, large;
      var page := a / PAGE_SIZE;
      Lookup(a, m);
      var want, osize := size, usage[page].size * PAGE_SIZE;
      if usage[page].kind != Large {
        var z := page - usage[page].size;
        osize := zones[z].chunk;
        if size < ZONE_LIMIT {
          RoundedFits(size);
          ChunkWaste(size);
          want := ZoneIndex(size).size;
        }
        if zones[z].chunk == want {
          return Some(a), zs, lg;
        }
      }
      r, zs, lg := MoveBlock(a, osize, want);
      KeepsEnough(old(zones), old(large), old(data[..]), data[..], a, r, want, osize, size);
    }

    /** A new block for the live one of osize bytes at a: its bytes move there and it is freed. */
    method MoveBlock(a: nat, osize: nat, want: nat) returns (r: Option<nat>, ghost zs: Zones, ghost lg: Larges)
      requires Valid() && IsLive(zones, large, a, osize) && want > 0
      modifies this, pages`head, pages`runs, pages.next, pages.count, usage, data
      ensures Valid()
      ensures r.None? ==>
                && zones == old(zones) && large == old(large) && used == old(used) && data[..] == old(data[..])
                && NoPages(old(pages.runs), PagesFor(want))
      ensures r.Some? ==>
                r.value != a && Moved(old(zones), old(large), zs, lg, zones, large, a, r.value, Granted(want), want)
      ensures r.Some? ==> BytesMoved(old(zones), old(large), old(data[..]), data[..], a, r.value, Shorter(want, osize))
      ensures max == if r.Some? && used + osize > old(max) then used + osize else old(max)
    {
      BytesApart();
      hide Valid, NoPages, Removed, Added, IsLive, CopiedTo;
      r := Alloc(want);
      zs, lg := zones, large;
      if r.Some? {
        OthersStay(old(zones), old(large), zones, large, r.value, Granted(want), a, osize);
        MoveBytes(a, osize, r.value, Granted(want), Shorter(want, osize), old(zones), old(large));
        FreeLive(a, osize);
      }
    }

    /** rt_memcpy of count bytes from the live block at a to the one at b, which is none of the blocks lived before. */
    method MoveBytes(a: nat, ghost m: nat, b: nat, ghost n: nat, count: nat, ghost zs: Zones, ghost lg: Larges)
      requires Valid() && Added(zs, lg, zones, large, b, n) && IsLive(zs, lg, a, m) && count <= m && count <= n
      modifies data
      ensures Valid() && BytesMoved(zs, lg, old(data[..]), data[..], a, b, count)
    {
      BlocksApart(a, m, b, n, zs, lg);
      assert data != pages.next && data != pages.count;
      hide Valid, Added, IsLive;
      ghost var d := data[..];
      CopyWords(data, b, a, count);
      BytesStay(zs, lg, d, data[..], a, b, count, n);
    }

    lemma BytesApart()
      requires Valid()
      ensures data != pages.next && data != pages.count && used <= max
    {
    }

    /** The new block lies within the heap and apart from all that lived before. */
    lemma BlocksApart(a: nat, m: nat, b: nat, n: nat, zs: Zones, lg: Larges)
      requires Valid() && Added(zs, lg, zones, large, b, n) && IsLive(zs, lg, a, m)
      ensures b + n <= data.Length && a + m <= data.Length && (a + m <= b || b + n <= a)
      ensures forall x: nat, k: nat {:trigger IsLive(zs, lg, x, k)} ::
                IsLive(zs, lg, x, k) ==> x + k <= data.Length && (x + k <= b || b + n <= x)
    {
      hide PagesOk, ZonesOk, ListsOk, IsLive, InUse;
      assert IsLive(zones, large, b, n);
      LiveEnds(zones, large, usage[..], pages.runs, cnt, zoneSize, b, n);
      forall x: nat, k: nat | IsLive(zs, lg, x, k) ensures x + k <= data.Length && (x + k <= b || b + n <= x) {
        assert IsLive(zones, large, x, k) && x != b;
        LiveEnds(zones, large, usage[..], pages.runs, cnt, zoneSize, x, k);
        LiveApart(zones, large, usage[..], pages.runs, cnt, zoneSize, x, k, b, n);
      }
    }

    /** The page table tells large blocks from chunks and leads to their owner. */
    lemma Lookup(a: nat, m: nat)
      requires Valid() && IsLive(zones, large, a, m)
      ensures var p := a / PAGE_SIZE;
              && p < usage.Length
              && (usage[p].kind == Large ==>
                    p in large && a == p * PAGE_SIZE && m == large[p] * PAGE_SIZE == usage[p].size * PAGE_SIZE)
              && (usage[p].kind != Large ==>
                    usage[p].size <= p && p - usage[p].size in zones && LiveSmall(zones, p - usage[p].size, a)
                    && m == zones[p - usage[p].size].chunk)
    {
      hide PagesOk, ZonesOk, ListsOk, Live, InUse;
      var p := a / PAGE_SIZE;
      if z: nat :| LiveSmall(zones, z, a) && m == zones[z].chunk {
        LookupZone(zones, large, usage[..], pages.runs, cnt, zoneSize, z, a);
        assert usage[..][p] == usage[p];
      } else {
        var l: nat :| l in large && a == l * PAGE_SIZE && m == large[l] * PAGE_SIZE;
        LookupLarge(zones, large, usage[..], pages.runs, cnt, l);
        assert usage[..][l] == usage[l];
      }
    }
  }

  /** count bytes at b are what the count bytes at a were, and nothing else has changed. */
  ghost predicate CopiedTo(d: seq<int>, d': seq<int>, a: nat, b: nat, count: nat) {
    && |d'| == |d| && a + count <= |d| && b + count <= |d|
    && d'[b..b + count] == d[a..a + count]
    && forall k {:trigger d'[k]} :: 0 <= k < |d| && !(b <= k < b + count) ==> d'[k] == d[k]
  }

  /** The block at a gave way to one of n bytes at b, by way of the state (zs, lg) in which both were live. */
  ghost predicate Moved(zones: Zones, large: Larges, zs: Zones, lg: Larges, zones': Zones, large': Larges,
                        a: nat, b: nat, n: nat, size: nat)
  {
    size <= n && Added(zones, large, zs, lg, b, n) && Removed(zs, lg, zones', large', a)
  }

  /** count bytes went from a to b, and no block that was live before has changed. */
  ghost predicate BytesMoved(zones: Zones, large: Larges, d: seq<int>, d': seq<int>, a: nat, b: nat, count: nat) {
    && CopiedTo(d, d', a, b, count)
    && forall x: nat, k: nat {:trigger IsLive(zones, large, x, k)} ::
         IsLive(zones, large, x, k) ==> x + k <= |d| && d'[x..x + k] == d[x..x + k]
  }

  /** The first count bytes at a, at least, are at b now. */
  ghost predicate FirstBytes(d: seq<int>, d': seq<int>, a: nat, b: nat, count: nat) {
    exists n: nat :: n >= count && CopiedTo(d, d', a, b, n)
  }

  lemma BytesStay(zs: Zones, lg: Larges, d: seq<int>, d': seq<int>, a: nat, b: nat, count: nat, n: nat)
    requires CopiedTo(d, d', a, b, count) && count <= n
    requires forall x: nat, k: nat {:trigger IsLive(zs, lg, x, k)} ::
               IsLive(zs, lg, x, k) ==> x + k <= |d| && (x + k <= b || b + n <= x)
    ensures BytesMoved(zs, lg, d, d', a, b, count)
  {
    hide IsLive;
  }

  // ---------------------------------------------------------------- in bytes

  /** n pages of their own, a large block that was not there. */
  ghost predicate NewLarge(large: Larges, large': Larges, a: nat, n: nat) {
    var l := a / PAGE_SIZE; a == l * PAGE_SIZE && l !in large && large' == large[l := n]
  }

  /** A request served by whole pages of 4096 bytes, none of them in vain. */
  ghost predicate LargeServed(large: Larges, large': Larges, a: nat, size: nat, grown: int) {
    exists n: nat :: NewLarge(large, large', a, n) && grown == 4096 * n && size <= grown < size + 4096
  }

  /** A chunk of n bytes for a request: less than 8 bytes too many, or at most an eighth of it. */
  ghost predicate ChunkFits(size: nat, n: int) {
    size <= n && (n - size < 8 || 8 * (n - size) <= size)
  }

  /** No whole pages for so many bytes lie side by side. */
  ghost predicate NoPagesFor(rs: Runs, size: nat) {
    exists n: nat :: size <= 4096 * n < size + 4096 && NoPages(rs, n)
  }

  lemma LimitIs(zoneSize: nat, size: nat)
    requires IsZoneSize(zoneSize)
    ensures size >= ZoneLimit(zoneSize) <==> (4 * size >= zoneSize || size >= 16384)
    ensures size < ZoneLimit(zoneSize) ==> size < ZONE_LIMIT
  {
  }

  lemma ChunkWaste(size: nat)
    requires 0 < size < ZONE_LIMIT
    ensures ChunkFits(size, ZoneIndex(size).size)
  {
    ZoneIndexFits(size);
    hide ZoneIndex;
  }

  lemma PagesOf(size: nat)
    ensures size <= 4096 * (RoundUp(size, PAGE_SIZE) / PAGE_SIZE) < size + 4096
  {
    RoundUpBounds(size, PAGE_SIZE);
  }

  /**
   * What an allocation does: a quarter of a zone, or 16 KB, and more comes in whole pages of its own; less comes as a
   * chunk of a zone. It fails only for lack of the pages.
   */
  ghost predicate AllocOutcome(zoneSize: nat, size: nat, zones: Zones, large: Larges, rs: Runs, zones': Zones,
                               large': Larges, r: Option<nat>, grown: int)
  {
    if 4 * size >= zoneSize || size >= 16384 then
      && zones' == zones
      && if r.Some? then LargeServed(large, large', r.value, size, grown) else NoPagesFor(rs, size)
    else
      && large' == large
      && if r.Some? then ChunkFits(size, grown) && grown >= 0 && Added(zones, large, zones', large, r.value, grown)
         else NoPages(rs, zoneSize / 4096)
  }

  lemma LargeOutcome(zoneSize: nat, size: nat, zones: Zones, large: Larges, rs: Runs, large': Larges, r: Option<nat>,
                     grown: int)
    requires IsZoneSize(zoneSize) && size >= ZoneLimit(zoneSize)
    requires var n := RoundUp(size, PAGE_SIZE) / PAGE_SIZE;
             if r.Some? then NewLarge(large, large', r.value, n) && grown == n * PAGE_SIZE else NoPages(rs, n)
    ensures AllocOutcome(zoneSize, size, zones, large, rs, zones, large', r, grown)
  {
    LimitIs(zoneSize, size);
    PagesOf(size);
    hide RoundUp, NewLarge, NoPages, ZoneLimit;
  }

  lemma SmallOutcome(zoneSize: nat, size: nat, zones: Zones, large: Larges, rs: Runs, zones': Zones, r: Option<nat>,
                     grown: int)
    requires IsZoneSize(zoneSize) && 0 < size < ZoneLimit(zoneSize)
    requires if r.Some? then grown == ZoneIndex(size).size && Added(zones, large, zones', large, r.value, grown)
             else NoPages(rs, zoneSize / PAGE_SIZE)
    ensures AllocOutcome(zoneSize, size, zones, large, rs, zones', large, r, grown)
  {
    LimitIs(zoneSize, size);
    ChunkWaste(size);
    hide ZoneIndex, NoPages, Added, ZoneLimit;
  }

  lemma KeepsEnough(zones: Zones, large: Larges, d: seq<int>, d': seq<int>, a: nat, r: Option<nat>, want: nat,
                    osize: nat, size: nat)
    requires r.Some? ==> BytesMoved(zones, large, d, d', a, r.value, Shorter(want, osize)) && size <= want
    ensures r.Some? ==> FirstBytes(d, d', a, r.value, if osize < size then osize else size)
  {
    hide CopiedTo, IsLive;
  }

  function Shorter(a: nat, b: nat): nat {
    if a < b then a else b
  }

  /** No n free pages lie side by side. */
  ghost predicate NoPages(rs: Runs, n: nat) {
    forall a: nat {:trigger AllFree(rs, a, n)} :: !AllFree(rs, a, n)
  }

  lemma RoundedFits(size: nat)
    requires 0 < size < ZONE_LIMIT
    ensures size <= ZoneIndex(size).size
  {
    ZoneIndexFits(size);
  }

  lemma OthersStay(zones: Zones, large: Larges, zones': Zones, large': Larges, a: nat, n: nat, x: nat, m: nat)
    requires Added(zones, large, zones', large', a, n) && IsLive(zones, large, x, m)
    ensures IsLive(zones', large', x, m) && x != a
  {
    hide IsLive;
  }

  lemma SomePages(size: nat)
    requires size > 0
    ensures RoundUp(size, PAGE_SIZE) / PAGE_SIZE > 0
  {
    RoundUpBounds(size, PAGE_SIZE);
  }

  lemma LookupLarge(zones: Zones, large: Larges, usage: seq<Usage>, rs: Runs, cnt: nat, l: nat)
    requires PagesOk(zones, large, usage, rs, cnt) && l in large
    ensures l + large[l] <= |usage| && large[l] > 0 && usage[l] == Usage(Large, large[l])
  {
  }

  lemma OneChunkLess(zone: Zone, a: nat)
    ensures ZoneBytes(PutChunk(zone, a)) == ZoneBytes(zone) - zone.chunk
  {
  }

  /** A zone with a live chunk is not parked. */
  lemma NotParked(zones: Zones, za: seq<seq<nat>>, parked: seq<nat>, zoneSize: nat, z: nat, a: nat)
    requires ListsOk(zones, za, parked) && ZonesOk(zones, zoneSize) && LiveSmall(zones, z, a)
    ensures z !in parked && zones[z].index < NZONES
  {
    LiveCount(z, zones[z], zoneSize);
  }

  lemma NewZoneIs(zoneSize: nat, c: Class)
    requires c.size > 0 && Offset(c.size) + 2 * c.size <= zoneSize
    ensures var zone := NewZone(zoneSize, c);
                zone.chunk == c.size && zone.index == c.index
                && zone.nfree + 1 == zone.nmax && zone.nfree > 0
  {
    AtLeastTwo(zoneSize - Offset(c.size), c.size);
  }

  /** What a new zone with its first chunk handed out comes to. */
  lemma NewZoneAdded(zones: Zones, large: Larges, usage: seq<Usage>, rs: Runs, cnt: nat, zoneSize: nat, z: nat,
                     c: Class)
    requires c.size > 0 && ZONE_HEADER <= Offset(c.size) && Offset(c.size) + 2 * c.size <= zoneSize
    requires ZonesOk(zones, zoneSize) && zoneSize == cnt * PAGE_SIZE && c.index < NZONES && c.size == ChunkSize(c.index)
    requires PagesOk(zones[z := NewZone(zoneSize, c)], large, usage, rs, cnt)
    requires z in zones ==> Live(z, zones[z]) == {} && zones[z].nfree == zones[z].nmax
    ensures var zone := NewZone(zoneSize, c);
            && ZonesOk(zones[z := zone], zoneSize)
            && InUse(zones[z := zone], large) == InUse(zones, large) + c.size
            && Added(zones, large, zones[z := zone], large, Address(z, zone, 0), c.size)
  {
    hide PagesOk, InUse, Live, IsLive, Added, Offset, ChunkSize;
    var zone := NewZone(zoneSize, c);
    NewZoneIs(zoneSize, c);
    NewZoneOk(z, zoneSize, c);
    InUseZone(zones, large, z, zone);
    ZonesStay(zones, zoneSize, z, zone);
    ChunkAdded(zones, large, usage, rs, cnt, zoneSize, z, zone, Address(z, zone, 0));
    hide NewZone;
    assert ZoneBytes(zone) == c.size;
    assert z in zones ==> ZoneBytes(zones[z]) == 0;
  }

  /** The invariant of the zones when one header changes or a zone is added. */
  lemma ZonesStay(zones: Zones, zoneSize: nat, z: nat, zone: Zone)
    requires ZonesOk(zones, zoneSize) && ZoneOk(z, zone, zoneSize) && zone.index < NZONES
    requires zone.chunk == ChunkSize(zone.index)
    ensures ZonesOk(zones[z := zone], zoneSize)
  {
    hide ZoneOk, ChunkSize;
  }

  lemma SameAddress(z: nat, zone: Zone, zone': Zone, s: nat)
    requires zone'.off == zone.off && zone'.chunk == zone.chunk
    ensures Address(z, zone', s) == Address(z, zone, s)
  {
  }

  lemma TakeChunkFields(zone: Zone)
    requires zone.nfree > 0 && (zone.uindex + 1 == zone.nmax ==> zone.free != [])
    ensures var zone' := TakeChunk(zone);
            zone'.index == zone.index && zone'.chunk == zone.chunk && zone'.off == zone.off
            && zone'.nfree == zone.nfree - 1
  {
  }

  lemma OneChunkMore(zone: Zone)
    requires zone.nfree > 0 && (zone.uindex + 1 == zone.nmax ==> zone.free != [])
    ensures ZoneBytes(TakeChunk(zone)) == ZoneBytes(zone) + zone.chunk
  {
  }

  lemma ParkedHead(zones: Zones, za: seq<seq<nat>>, parked: seq<nat>, zoneSize: nat)
    requires ListsOk(zones, za, parked) && ZonesOk(zones, zoneSize) && parked != []
    ensures var z := parked[0];
            z in zones && Live(z, zones[z]) == {} && zones[z].nfree == zones[z].nmax
  {
    assert parked[0] in parked;
    LiveCount(parked[0], zones[parked[0]], zoneSize);
  }
}
