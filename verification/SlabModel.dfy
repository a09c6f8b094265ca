/** The two levels of slab.c together, on values: who owns a page, which zones are on which list, what is in use. */
module SlabModel {
  import opened Lists
  import opened SlabPages
  import opened SlabZones

  datatype Kind = Unused | Small | Large

  /** struct rt_slab_memusage: for a page of a zone its offset from the first page, for a large block its pages. */
  datatype Usage = Usage(kind: Kind, size: nat)

  type Zones = map<nat, Zone>
  type Larges = map<nat, nat>

  predicate OwnedByZone(zones: Zones, cnt: nat, z: nat, p: nat) {
    z in zones && In(p, z, cnt)
  }

  predicate OwnedByLarge(large: Larges, l: nat, p: nat) {
    l in large && In(p, l, large[l])
  }

  /** No page has two owners, an owned page is not free, and the table of pages leads to the owner. */
  ghost predicate PagesOk(zones: Zones, large: Larges, usage: seq<Usage>, rs: Runs, cnt: nat) {
    && (forall z: nat {:trigger z in zones} :: z in zones ==> z + cnt <= |usage|)
    && (forall l: nat {:trigger l in large} :: l in large ==>
          0 < large[l] && l + large[l] <= |usage| && usage[l] == Usage(Large, large[l]))
    && (forall z: nat, p: nat {:trigger OwnedByZone(zones, cnt, z, p)} :: OwnedByZone(zones, cnt, z, p) ==>
          p < |usage| && usage[p] == Usage(Small, p - z) && !Free(rs, p))
    && (forall l: nat, p: nat {:trigger OwnedByLarge(large, l, p)} :: OwnedByLarge(large, l, p) ==> !Free(rs, p))
    && (forall z: nat, l: nat, p: nat {:trigger OwnedByZone(zones, cnt, z, p), OwnedByLarge(large, l, p)} ::
          !(OwnedByZone(zones, cnt, z, p) && OwnedByLarge(large, l, p)))
    && (forall l: nat, m: nat, p: nat {:trigger OwnedByLarge(large, l, p), OwnedByLarge(large, m, p)} ::
          OwnedByLarge(large, l, p) && OwnedByLarge(large, m, p) ==> l == m)
  }

  /** Which zones a request can be served from, and which are parked. */
  ghost predicate ListsOk(zones: Zones, za: seq<seq<nat>>, parked: seq<nat>) {
    && |za| == NZONES && NoDuplicates(parked) && |parked| <= 2
    && (forall i {:trigger za[i]} :: 0 <= i < NZONES ==> NoDuplicates(za[i]))
    && (forall i, z: nat {:trigger z in za[i]} :: 0 <= i < NZONES ==>
          (z in za[i] <==> z in zones && zones[z].index == i && zones[z].nfree > 0 && z !in parked))
    && (forall z: nat {:trigger z in parked} :: z in parked ==> z in zones && zones[z].nfree == zones[z].nmax)
  }

  ghost predicate ZonesOk(zones: Zones, zoneSize: nat) {
    forall z: nat {:trigger z in zones} :: z in zones ==>
      ZoneOk(z, zones[z], zoneSize) && zones[z].index < NZONES && zones[z].chunk == ChunkSize(zones[z].index)
  }

  /** A live block of size bytes at address a. */
  ghost predicate LiveSmall(zones: Zones, z: nat, a: nat) {
    z in zones && a in Live(z, zones[z])
  }

  ghost predicate IsLive(zones: Zones, large: Larges, a: nat, size: nat) {
    || (exists z: nat :: LiveSmall(zones, z, a) && size == zones[z].chunk)
    || (exists l: nat :: l in large && a == l * PAGE_SIZE && size == large[l] * PAGE_SIZE)
  }

  /** Exactly one live block, of n bytes at a, has come. */
  ghost predicate Added(zones: Zones, large: Larges, zones': Zones, large': Larges, a: nat, n: nat) {
    && (forall m: nat {:trigger IsLive(zones, large, a, m)} :: !IsLive(zones, large, a, m))
    && forall x: nat, m: nat {:trigger IsLive(zones', large', x, m)} ::
         IsLive(zones', large', x, m) <==> IsLive(zones, large, x, m) || (x == a && m == n)
  }

  /** Exactly the live block at a has gone. */
  ghost predicate Removed(zones: Zones, large: Larges, zones': Zones, large': Larges, a: nat) {
    forall x: nat, m: nat {:trigger IsLive(zones', large', x, m)} ::
      IsLive(zones', large', x, m) <==> IsLive(zones, large, x, m) && x != a
  }

  /** A chunk of zone z is live in the new header only. */
  lemma ChunkAdded(zones: Zones, large: Larges, usage: seq<Usage>, rs: Runs, cnt: nat, zoneSize: nat, z: nat,
                   zone: Zone, a: nat)
    requires PagesOk(zones[z := zone], large, usage, rs, cnt) && ZonesOk(zones, zoneSize)
    requires ZonesOk(zones[z := zone], zoneSize) && zoneSize == cnt * PAGE_SIZE
    requires var before := if z in zones then Live(z, zones[z]) else {};
             a !in before && Live(z, zone) == before + {a} && (before != {} ==> zone.chunk == zones[z].chunk)
    ensures Added(zones, large, zones[z := zone], large, a, zone.chunk)
  {
    var zones' := zones[z := zone];
    hide Live, ZoneOk;
    assert LiveSmall(zones', z, a);
    forall x: nat, y: nat ensures LiveSmall(zones', y, x) <==> LiveSmall(zones, y, x) || (y == z && x == a) {
    }
    forall x: nat, m: nat ensures IsLive(zones', large, x, m) <==>
      IsLive(zones, large, x, m) || (x == a && m == zone.chunk) {
      if y: nat :| LiveSmall(zones', y, x) && m == zones'[y].chunk {
        assert (y == z && x == a) || (LiveSmall(zones, y, x) && m == zones[y].chunk);
      }
      if y: nat :| LiveSmall(zones, y, x) && m == zones[y].chunk {
        assert LiveSmall(zones', y, x) && m == zones'[y].chunk;
      }
    }
    forall m: nat ensures !IsLive(zones, large, a, m) {
      NotTwice(zones', large, usage, rs, cnt, zoneSize, z, a);
    }
  }

  lemma ChunkRemoved(zones: Zones, large: Larges, usage: seq<Usage>, rs: Runs, cnt: nat, zoneSize: nat, z: nat,
                     zone: Zone, a: nat)
    requires PagesOk(zones, large, usage, rs, cnt) && ZonesOk(zones, zoneSize) && zoneSize == cnt * PAGE_SIZE
    requires LiveSmall(zones, z, a) && Live(z, zone) == Live(z, zones[z]) - {a} && zone.chunk == zones[z].chunk
    ensures Removed(zones, large, zones[z := zone], large, a)
  {
    var zones' := zones[z := zone];
    NotTwice(zones, large, usage, rs, cnt, zoneSize, z, a);
    hide Live, ZoneOk, PagesOk;
    forall x: nat, y: nat ensures LiveSmall(zones', y, x) <==> LiveSmall(zones, y, x) && x != a {
      if y == z {
        assert zones'[y] == zone;
        assert x in Live(z, zone) <==> x in Live(z, zones[z]) && x != a;
      } else {
        assert LiveSmall(zones, y, a) ==> y == z;
      }
    }
    forall x: nat, m: nat ensures IsLive(zones', large, x, m) <==> IsLive(zones, large, x, m) && x != a {
      if y: nat :| LiveSmall(zones', y, x) && m == zones'[y].chunk {
        assert LiveSmall(zones, y, x) && m == zones[y].chunk;
      }
      if y: nat :| LiveSmall(zones, y, x) && m == zones[y].chunk && x != a {
        assert LiveSmall(zones', y, x) && m == zones'[y].chunk;
      }
    }
  }

  /** A zone without live chunks can be dropped. */
  lemma EmptyZoneGone(zones: Zones, large: Larges, zones': Zones, large': Larges, z: nat, a: nat)
    requires Removed(zones, large, zones', large', a) && z in zones' && Live(z, zones'[z]) == {}
    ensures Removed(zones, large, zones' - {z}, large', a)
  {
    hide Live, Removed;
    forall x: nat, m: nat ensures IsLive(zones' - {z}, large', x, m) <==> IsLive(zones', large', x, m) {
      if y: nat :| LiveSmall(zones', y, x) && m == zones'[y].chunk {
        assert LiveSmall(zones' - {z}, y, x) && m == (zones' - {z})[y].chunk;
      }
      if y: nat :| LiveSmall(zones' - {z}, y, x) && m == (zones' - {z})[y].chunk {
        assert LiveSmall(zones', y, x);
      }
    }
    RemovedSame(zones, large, zones', large', zones' - {z}, large', a);
  }

  lemma RemovedSame(zones: Zones, large: Larges, zones': Zones, large': Larges, zones'': Zones, large'': Larges, a: nat)
    requires Removed(zones, large, zones', large', a)
    requires forall x: nat, m: nat :: IsLive(zones'', large'', x, m) <==> IsLive(zones', large', x, m)
    ensures Removed(zones, large, zones'', large'', a)
  {
    hide IsLive;
  }

  lemma LargeAdded(zones: Zones, large: Larges, usage: seq<Usage>, rs: Runs, cnt: nat, zoneSize: nat, l: nat, n: nat)
    requires l !in large && PagesOk(zones, large[l := n], usage, rs, cnt) && ZonesOk(zones, zoneSize)
    requires zoneSize == cnt * PAGE_SIZE
    ensures Added(zones, large, zones, large[l := n], l * PAGE_SIZE, n * PAGE_SIZE)
  {
    var a := l * PAGE_SIZE;
    forall m: nat ensures !IsLive(zones, large, a, m) {
      if z: nat :| LiveSmall(zones, z, a) && m == zones[z].chunk {
        NotTwice(zones, large[l := n], usage, rs, cnt, zoneSize, z, a);
      }
    }
    hide PagesOk, ZonesOk;
    forall x: nat, m: nat ensures IsLive(zones, large[l := n], x, m) <==>
      IsLive(zones, large, x, m) || (x == a && m == n * PAGE_SIZE) {
      if x == a && m == n * PAGE_SIZE {
        assert l in large[l := n];
      }
      if k: nat :| k in large && x == k * PAGE_SIZE && m == large[k] * PAGE_SIZE {
        assert k in large[l := n];
      }
    }
  }

  lemma LargeRemoved(zones: Zones, large: Larges, usage: seq<Usage>, rs: Runs, cnt: nat, zoneSize: nat, l: nat)
    requires l in large && PagesOk(zones, large, usage, rs, cnt) && ZonesOk(zones, zoneSize)
    requires zoneSize == cnt * PAGE_SIZE
    ensures Removed(zones, large, zones, large - {l}, l * PAGE_SIZE)
  {
    var a := l * PAGE_SIZE;
    forall x: nat, z: nat | LiveSmall(zones, z, x) ensures x != a {
      NotTwice(zones, large, usage, rs, cnt, zoneSize, z, x);
    }
    hide PagesOk, ZonesOk;
    forall x: nat, m: nat ensures IsLive(zones, large - {l}, x, m) <==> IsLive(zones, large, x, m) && x != a {
      if k: nat :| k in large && x == k * PAGE_SIZE && m == large[k] * PAGE_SIZE && k != l {
        assert k in large - {l};
      }
    }
  }

  /** The address of a live chunk is that of no other live block. */
  lemma NotTwice(zones: Zones, large: Larges, usage: seq<Usage>, rs: Runs, cnt: nat, zoneSize: nat, z: nat, a: nat)
    requires PagesOk(zones, large, usage, rs, cnt) && ZonesOk(zones, zoneSize) && zoneSize == cnt * PAGE_SIZE
    requires LiveSmall(zones, z, a)
    ensures forall y: nat :: LiveSmall(zones, y, a) ==> y == z
    ensures forall l: nat :: l in large ==> a != l * PAGE_SIZE
  {
    LookupZone(zones, large, usage, rs, cnt, zoneSize, z, a);
    forall y: nat | LiveSmall(zones, y, a) ensures y == z {
      LookupZone(zones, large, usage, rs, cnt, zoneSize, y, a);
    }
    forall l: nat | l in large ensures a != l * PAGE_SIZE {
    }
  }

  // ---------------------------------------------------------------- the descriptor lookup of rt_slab_free

  /** The page of a live chunk is a page of its zone, and its entry in the table leads to the zone. */
  lemma LookupZone(zones: Zones, large: Larges, usage: seq<Usage>, rs: Runs, cnt: nat, zoneSize: nat, z: nat, a: nat)
    requires PagesOk(zones, large, usage, rs, cnt) && ZonesOk(zones, zoneSize) && zoneSize == cnt * PAGE_SIZE
    requires LiveSmall(zones, z, a)
    ensures var p := a / PAGE_SIZE; z <= p < |usage| && usage[p] == Usage(Small, p - z)
  {
    LiveWithin(z, zones[z], zoneSize, a);
    var p := a / PAGE_SIZE;
    assert z * PAGE_SIZE <= a < (z + cnt) * PAGE_SIZE;
    assert OwnedByZone(zones, cnt, z, p);
  }

  /** Two different live blocks do not overlap. */
  lemma LiveApart(zones: Zones, large: Larges, usage: seq<Usage>, rs: Runs, cnt: nat, zoneSize: nat, a: nat, m: nat,
                  b: nat, n: nat)
    requires PagesOk(zones, large, usage, rs, cnt) && ZonesOk(zones, zoneSize) && zoneSize == cnt * PAGE_SIZE
    requires IsLive(zones, large, a, m) && IsLive(zones, large, b, n) && a != b
    ensures a + m <= b || b + n <= a
  {
    if a + m > b && b + n > a {
      var x := if a < b then b else a;
      var s, o := Owner(zones, large, usage, rs, cnt, zoneSize, a, m, x);
      var t, u := Owner(zones, large, usage, rs, cnt, zoneSize, b, n, x);
      var p := x / PAGE_SIZE;
      SameOwner(zones, large, usage, rs, cnt, s, o, t, u, p);
      if s {
        LiveWithin(o, zones[o], zoneSize, a);
      }
    }
  }

  predicate Owns(zones: Zones, large: Larges, cnt: nat, small: bool, o: nat, p: nat) {
    if small then OwnedByZone(zones, cnt, o, p) else OwnedByLarge(large, o, p)
  }

  lemma SameOwner(zones: Zones, large: Larges, usage: seq<Usage>, rs: Runs, cnt: nat, s: bool, o: nat, t: bool,
                  u: nat, p: nat)
    requires PagesOk(zones, large, usage, rs, cnt)
    requires Owns(zones, large, cnt, s, o, p) && Owns(zones, large, cnt, t, u, p)
    ensures s == t && o == u
  {
  }

  /** The owner of any byte of a live block. */
  lemma Owner(zones: Zones, large: Larges, usage: seq<Usage>, rs: Runs, cnt: nat, zoneSize: nat, a: nat, m: nat, x: nat)
    returns (small: bool, o: nat)
    requires PagesOk(zones, large, usage, rs, cnt) && ZonesOk(zones, zoneSize) && zoneSize == cnt * PAGE_SIZE
    requires IsLive(zones, large, a, m) && a <= x < a + m
    ensures Owns(zones, large, cnt, small, o, x / PAGE_SIZE)
    ensures if small then LiveSmall(zones, o, a) && m == zones[o].chunk
            else o in large && a == o * PAGE_SIZE && m == large[o] * PAGE_SIZE
  {
    if z: nat :| LiveSmall(zones, z, a) && m == zones[z].chunk {
      LiveWithin(z, zones[z], zoneSize, a);
      assert z * PAGE_SIZE <= x < (z + cnt) * PAGE_SIZE;
      small, o := true, z;
    } else {
      var l: nat :| l in large && a == l * PAGE_SIZE && m == large[l] * PAGE_SIZE;
      assert l * PAGE_SIZE <= x < (l + large[l]) * PAGE_SIZE;
      small, o := false, l;
    }
  }

  /**
   * What the allocator keeps in the heap itself lies apart from every live block: zone headers, the links in recycled
   * chunks, and the run descriptors in free pages.
   */
  lemma LiveClear(zones: Zones, large: Larges, usage: seq<Usage>, rs: Runs, cnt: nat, zoneSize: nat, a: nat, m: nat)
    requires PagesOk(zones, large, usage, rs, cnt) && ZonesOk(zones, zoneSize) && zoneSize == cnt * PAGE_SIZE
    requires IsLive(zones, large, a, m)
    ensures a + m <= |usage| * PAGE_SIZE
    ensures forall z: nat {:trigger z in zones} :: z in zones ==>
              z * PAGE_SIZE + ZONE_HEADER <= a || a + m <= z * PAGE_SIZE
    ensures forall z: nat, c: nat {:trigger c in zones[z].free} :: z in zones && c in zones[z].free ==>
              c + zones[z].chunk <= a || a + m <= c
    ensures forall p: nat {:trigger Free(rs, p)} :: Free(rs, p) ==>
              p * PAGE_SIZE + PAGE_SIZE <= a || a + m <= p * PAGE_SIZE
  {
    LiveEnds(zones, large, usage, rs, cnt, zoneSize, a, m);
    forall z: nat | z in zones ensures z * PAGE_SIZE + ZONE_HEADER <= a || a + m <= z * PAGE_SIZE {
      ZoneClear(zones, large, usage, rs, cnt, zoneSize, a, m, z, z * PAGE_SIZE, ZONE_HEADER);
    }
    forall z: nat, c: nat | z in zones && c in zones[z].free ensures c + zones[z].chunk <= a || a + m <= c {
      ZoneClear(zones, large, usage, rs, cnt, zoneSize, a, m, z, c, zones[z].chunk);
    }
    forall p: nat | Free(rs, p) ensures p * PAGE_SIZE + PAGE_SIZE <= a || a + m <= p * PAGE_SIZE {
      if p * PAGE_SIZE + PAGE_SIZE > a && a + m > p * PAGE_SIZE {
        var x := if a < p * PAGE_SIZE then p * PAGE_SIZE else a;
        assert x / PAGE_SIZE == p;
        var s, o := Owner(zones, large, usage, rs, cnt, zoneSize, a, m, x);
      }
    }
  }

  lemma LiveEnds(zones: Zones, large: Larges, usage: seq<Usage>, rs: Runs, cnt: nat, zoneSize: nat, a: nat, m: nat)
    requires PagesOk(zones, large, usage, rs, cnt) && ZonesOk(zones, zoneSize) && zoneSize == cnt * PAGE_SIZE
    requires IsLive(zones, large, a, m)
    ensures 0 < m && a + m <= |usage| * PAGE_SIZE
  {
    if z: nat :| LiveSmall(zones, z, a) && m == zones[z].chunk {
      LiveWithin(z, zones[z], zoneSize, a);
    }
  }

  /** The header or a recycled chunk of zone z, n bytes at c, lies apart from the live block of m bytes at a. */
  lemma ZoneClear(zones: Zones, large: Larges, usage: seq<Usage>, rs: Runs, cnt: nat, zoneSize: nat, a: nat, m: nat,
                  z: nat, c: nat, n: nat)
    requires PagesOk(zones, large, usage, rs, cnt) && ZonesOk(zones, zoneSize) && zoneSize == cnt * PAGE_SIZE
    requires IsLive(zones, large, a, m) && z in zones
    requires (c == z * PAGE_SIZE && n == ZONE_HEADER) || (c in zones[z].free && n == zones[z].chunk)
    ensures c + n <= a || a + m <= c
  {
    if c + n > a && a + m > c {
      var x := if a < c then c else a;
      var s, o := Owner(zones, large, usage, rs, cnt, zoneSize, a, m, x);
      ZoneByte(z, zones[z], zoneSize, c, n);
      assert z * PAGE_SIZE <= x < (z + cnt) * PAGE_SIZE;
      assert OwnedByZone(zones, cnt, z, x / PAGE_SIZE);
      SameOwner(zones, large, usage, rs, cnt, s, o, true, z, x / PAGE_SIZE);
      LiveWithin(z, zones[z], zoneSize, a);
      if c in zones[z].free && n == zones[z].chunk {
        RecycledApart(z, zones[z], zoneSize, a, c);
      }
    }
  }

  lemma ZoneByte(z: nat, zone: Zone, zoneSize: nat, c: nat, n: nat)
    requires ZoneOk(z, zone, zoneSize)
    requires (c == z * PAGE_SIZE && n == ZONE_HEADER) || (c in zone.free && n == zone.chunk)
    ensures z * PAGE_SIZE <= c && c + n <= z * PAGE_SIZE + zoneSize
  {
    if c in zone.free && n == zone.chunk {
      hide Times;
      assert c in Elements(zone.free);
      var t := SlotOf(z, zone, zone.uindex + 1, c);
      AddressAscends(z, zone, t, zone.nmax);
    }
  }

  // ---------------------------------------------------------------- pages change hands

  ghost predicate Took(rs: Runs, rs': Runs, a: nat, n: nat) {
    && (forall p: nat {:trigger Free(rs', p)} :: Free(rs', p) <==> Free(rs, p) && !In(p, a, n))
    && forall p: nat {:trigger In(p, a, n)} :: In(p, a, n) ==> Free(rs, p)
  }

  ghost predicate Gave(rs: Runs, rs': Runs, a: nat, n: nat) {
    forall p: nat {:trigger Free(rs', p)} :: Free(rs', p) <==> Free(rs, p) || In(p, a, n)
  }

  lemma LargeTaken(zones: Zones, large: Larges, usage: seq<Usage>, rs: Runs, rs': Runs, cnt: nat, a: nat, n: nat)
    requires PagesOk(zones, large, usage, rs, cnt) && Took(rs, rs', a, n) && n > 0 && a + n <= |usage|
    ensures a !in large && PagesOk(zones, large[a := n], usage[a := Usage(Large, n)], rs', cnt)
  {
    var large', usage' := large[a := n], usage[a := Usage(Large, n)];
    assert In(a, a, n) && Free(rs, a);
    assert a in large ==> OwnedByLarge(large, a, a);
    forall l: nat, p: nat | OwnedByLarge(large', l, p) ensures l != a ==> OwnedByLarge(large, l, p) && !In(p, a, n) {
      assert l != a ==> OwnedByLarge(large, l, p);
    }
    forall l: nat | l in large ensures usage'[l] == usage[l] {
      assert OwnedByLarge(large, l, l);
    }
  }

  lemma LargeGiven(zones: Zones, large: Larges, usage: seq<Usage>, rs: Runs, rs': Runs, cnt: nat, l: nat)
    requires PagesOk(zones, large, usage, rs, cnt) && l in large && Gave(rs, rs', l, large[l]) && l < |usage|
    ensures PagesOk(zones, large - {l}, usage[l := Usage(Large, 0)], rs', cnt)
  {
    var large', usage' := large - {l}, usage[l := Usage(Large, 0)];
    assert OwnedByLarge(large, l, l);
    forall m: nat, p: nat | OwnedByLarge(large', m, p) ensures OwnedByLarge(large, m, p) && !In(p, l, large[l]) {
      assert OwnedByLarge(large, m, p);
      assert In(p, l, large[l]) ==> OwnedByLarge(large, l, p);
    }
    forall z: nat, p: nat | OwnedByZone(zones, cnt, z, p) ensures p != l && !In(p, l, large[l]) {
      assert In(p, l, large[l]) ==> OwnedByLarge(large, l, p);
    }
  }

  /** The entries of a zone's pages in the table. */
  ghost predicate Marked(usage: seq<Usage>, usage': seq<Usage>, z: nat, cnt: nat, kind: Kind) {
    && |usage'| == |usage| && z + cnt <= |usage|
    && forall p: nat {:trigger usage'[p]} :: p < |usage| ==>
         usage'[p] == if In(p, z, cnt) then Usage(kind, if kind == Small then p - z else 0) else usage[p]
  }

  lemma ZoneTaken(zones: Zones, large: Larges, usage: seq<Usage>, usage': seq<Usage>, rs: Runs, rs': Runs, cnt: nat,
                  z: nat, zone: Zone)
    requires PagesOk(zones, large, usage, rs, cnt) && Took(rs, rs', z, cnt) && cnt > 0
    requires Marked(usage, usage', z, cnt, Small)
    ensures z !in zones && PagesOk(zones[z := zone], large, usage', rs', cnt)
  {
    var zones' := zones[z := zone];
    assert In(z, z, cnt) && Free(rs, z);
    assert z in zones ==> OwnedByZone(zones, cnt, z, z);
    forall y: nat, p: nat | OwnedByZone(zones', cnt, y, p)
      ensures y != z ==> OwnedByZone(zones, cnt, y, p) && !In(p, z, cnt)
    {
      assert y != z ==> OwnedByZone(zones, cnt, y, p);
    }
    forall l: nat | l in large ensures usage'[l] == usage[l] {
      assert OwnedByLarge(large, l, l);
    }
  }

  lemma ZoneGiven(zones: Zones, large: Larges, usage: seq<Usage>, usage': seq<Usage>, rs: Runs, rs': Runs, cnt: nat,
                  z: nat)
    requires PagesOk(zones, large, usage, rs, cnt) && z in zones && Gave(rs, rs', z, cnt)
    requires Marked(usage, usage', z, cnt, Unused)
    ensures PagesOk(zones - {z}, large, usage', rs', cnt)
  {
    var zones' := zones - {z};
    forall y: nat, p: nat | OwnedByZone(zones', cnt, y, p) ensures OwnedByZone(zones, cnt, y, p) && !In(p, z, cnt) {
      assert OwnedByZone(zones, cnt, y, p);
      assert In(p, z, cnt) ==> OwnedByZone(zones, cnt, z, p);
    }
    forall l: nat, p: nat | OwnedByLarge(large, l, p) ensures !In(p, z, cnt) {
      assert In(p, z, cnt) ==> OwnedByZone(zones, cnt, z, p);
    }
    forall l: nat | l in large ensures usage'[l] == usage[l] {
      assert OwnedByLarge(large, l, l);
    }
  }

  /** Only the headers change. */
  lemma HeaderChanged(zones: Zones, large: Larges, usage: seq<Usage>, rs: Runs, cnt: nat, z: nat, zone: Zone)
    requires PagesOk(zones, large, usage, rs, cnt) && z in zones
    ensures PagesOk(zones[z := zone], large, usage, rs, cnt)
  {
    var zones' := zones[z := zone];
    assert forall y: nat, p: nat {:trigger OwnedByZone(zones', cnt, y, p)} ::
             OwnedByZone(zones', cnt, y, p) == OwnedByZone(zones, cnt, y, p);
  }

  // ---------------------------------------------------------------- bytes in use

  /** Bytes handed out from a zone. */
  function ZoneBytes(zone: Zone): int {
    (zone.nmax - zone.nfree) * zone.chunk
  }

  ghost function SomeKey(w: map<nat, int>): (x: nat)
    requires |w| > 0
    ensures x in w
  {
    var x :| x in w; x
  }

  /** The sum of the values of a map. */
  ghost function Total(w: map<nat, int>): int
    decreases |w|
  {
    if |w| == 0 then 0
    else
      Smaller(w, SomeKey(w));
      w[SomeKey(w)] + Total(w - {SomeKey(w)})
  }

  lemma Smaller(w: map<nat, int>, x: nat)
    requires x in w
    ensures |w - {x}| == |w| - 1
  {
    assert w == (w - {x})[x := w[x]];
  }

  /** The order of summation does not matter. */
  lemma {:induction false} TotalSplit(w: map<nat, int>, x: nat)
    requires x in w
    ensures Total(w) == w[x] + Total(w - {x})
    decreases |w|
  {
    Smaller(w, x);
    var y := SomeKey(w);
    Smaller(w, y);
    if y != x {
      hide SomeKey;
      TotalSplit(w - {y}, x);
      TotalSplit(w - {x}, y);
      assert w - {y} - {x} == w - {x} - {y};
    }
  }

  lemma TotalSet(w: map<nat, int>, x: nat, v: int)
    ensures Total(w[x := v]) == Total(w) + v - if x in w then w[x] else 0
  {
    hide Total;
    TotalSplit(w[x := v], x);
    assert w[x := v] - {x} == w - {x};
    if x in w {
      TotalSplit(w, x);
    } else {
      assert w - {x} == w;
    }
  }

  function SmallBytes(zones: Zones): map<nat, int> {
    map z: nat | z in zones :: ZoneBytes(zones[z])
  }

  function LargeBytes(large: Larges): map<nat, int> {
    map l: nat | l in large :: large[l] * PAGE_SIZE
  }

  /** The bytes of all live blocks. */
  ghost function InUse(zones: Zones, large: Larges): int {
    Total(SmallBytes(zones)) + Total(LargeBytes(large))
  }

  lemma BytesSet(zones: Zones, large: Larges, x: nat, zone: Zone, n: nat)
    ensures SmallBytes(zones[x := zone]) == SmallBytes(zones)[x := ZoneBytes(zone)]
    ensures SmallBytes(zones - {x}) == SmallBytes(zones) - {x}
    ensures LargeBytes(large[x := n]) == LargeBytes(large)[x := n * PAGE_SIZE]
    ensures LargeBytes(large - {x}) == LargeBytes(large) - {x}
  {
  }

  lemma InUseZone(zones: Zones, large: Larges, z: nat, zone: Zone)
    ensures InUse(zones[z := zone], large)
              == InUse(zones, large) + ZoneBytes(zone) - if z in zones then ZoneBytes(zones[z]) else 0
  {
    hide Total;
    BytesSet(zones, large, z, zone, 0);
    TotalSet(SmallBytes(zones), z, ZoneBytes(zone));
  }

  lemma InUseZoneGone(zones: Zones, large: Larges, z: nat)
    requires z in zones
    ensures InUse(zones - {z}, large) == InUse(zones, large) - ZoneBytes(zones[z])
  {
    hide Total;
    BytesSet(zones, large, z, zones[z], 0);
    TotalSplit(SmallBytes(zones), z);
  }

  lemma InUseLarge(zones: Zones, large: Larges, l: nat, n: nat)
    requires l !in large
    ensures InUse(zones, large[l := n]) == InUse(zones, large) + n * PAGE_SIZE
  {
    hide Total;
    BytesSet(zones, large, l, Zone(0, 0, 0, 0, 0, 0, []), n);
    TotalSet(LargeBytes(large), l, n * PAGE_SIZE);
  }

  lemma InUseLargeGone(zones: Zones, large: Larges, l: nat)
    requires l in large
    ensures InUse(zones, large - {l}) == InUse(zones, large) - large[l] * PAGE_SIZE
  {
    hide Total;
    BytesSet(zones, large, l, Zone(0, 0, 0, 0, 0, 0, []), 0);
    TotalSplit(LargeBytes(large), l);
  }

  // ---------------------------------------------------------------- the lists of zones

  /** A zone on its list changes its counters; it leaves the list, at the head, when nothing is left in it. */
  lemma HeadServes(zones: Zones, za: seq<seq<nat>>, parked: seq<nat>, i: nat, zone: Zone)
    requires ListsOk(zones, za, parked) && i < NZONES && za[i] != []
    requires zone.index == i
    ensures var z := za[i][0];
            z in zones && ListsOk(zones[z := zone], if zone.nfree == 0 then za[i := za[i][1..]] else za, parked)
  {
    var z := za[i][0];
    assert z in za[i];
    var rest := za[i][1..];
    assert z !in rest && forall x :: x in za[i] <==> x == z || x in rest;
    assert NoDuplicates(rest);
  }

  /** A zone that is new, or was parked last, heads its list. */
  lemma ZoneEnters(zones: Zones, za: seq<seq<nat>>, parked: seq<nat>, z: nat, zone: Zone)
    requires ListsOk(zones, za, parked) && zone.index < NZONES && zone.nfree > 0
    requires z !in zones || (parked != [] && z == parked[0])
    ensures ListsOk(zones[z := zone], za[zone.index := [z] + za[zone.index]], if z in zones then parked[1..]
                                                                              else parked)
  {
    var parked' := if z in zones then parked[1..] else parked;
    assert z in zones ==> z in parked;
    assert z !in parked' && forall x :: x in parked' <==> x in parked && x != z;
    assert forall i :: 0 <= i < NZONES ==> z !in za[i];
    var l := [z] + za[zone.index];
    assert forall x :: x in l <==> x == z || x in za[zone.index];
    assert NoDuplicates(l);
  }

  /** A chunk comes back: the zone is on its list now, at the front if it was full. */
  lemma ChunkReturns(zones: Zones, za: seq<seq<nat>>, parked: seq<nat>, z: nat, zone: Zone)
    requires ListsOk(zones, za, parked) && z in zones && z !in parked && zones[z].index < NZONES
    requires zone.index == zones[z].index && zone.nfree == zones[z].nfree + 1
    ensures var i := zone.index;
            var za' := if zones[z].nfree == 0 then za[i := [z] + za[i]] else za;
            ListsOk(zones[z := zone], za', parked) && z in za'[i]
  {
    var i := zone.index;
    assert z in za[i] <==> zones[z].nfree > 0;
    var l := [z] + za[i];
    assert forall x :: x in l <==> x == z || x in za[i];
  }

  /** A zone without live chunks is parked. */
  ghost predicate ParkedOk(zones: Zones, za: seq<seq<nat>>, parked: seq<nat>) {
    && |za| == NZONES && NoDuplicates(parked) && |parked| <= 3
    && (forall i {:trigger za[i]} :: 0 <= i < NZONES ==> NoDuplicates(za[i]))
    && (forall i, z: nat {:trigger z in za[i]} :: 0 <= i < NZONES ==>
          (z in za[i] <==> z in zones && zones[z].index == i && zones[z].nfree > 0 && z !in parked))
    && (forall z: nat {:trigger z in parked} :: z in parked ==> z in zones && zones[z].nfree == zones[z].nmax)
  }

  lemma ZoneParks(zones: Zones, za: seq<seq<nat>>, parked: seq<nat>, z: nat)
    requires ListsOk(zones, za, parked) && z in zones && zones[z].index < NZONES && z in za[zones[z].index]
    requires zones[z].nfree == zones[z].nmax
    ensures ParkedOk(zones, za[zones[z].index := Remove(za[zones[z].index], z)], [z] + parked)
  {
    var i := zones[z].index;
    RemoveDistinct(za[i], z);
    assert z !in parked;
    var l := [z] + parked;
    assert forall x :: x in l <==> x == z || x in parked;
  }

  /** One parked zone too many: the one parked last is given up. */
  lemma ZoneLeaves(zones: Zones, za: seq<seq<nat>>, parked: seq<nat>)
    requires ParkedOk(zones, za, parked) && |parked| == 3
    ensures ListsOk(zones - {parked[0]}, za, parked[1..])
  {
    var z := parked[0];
    assert z in parked;
    var rest := parked[1..];
    assert z !in rest && forall x :: x in parked <==> x == z || x in rest;
  }
}
