/** Zones of slab.c, on values: chunk sizes, the chunks of one zone, and the bytes in use. */
module SlabZones {
  import opened Lists

  const PAGE_SIZE: nat := 4096
  const ZONE_LIMIT: nat := 16384
  const NZONES: nat := 72
  const ZONE_HEADER: nat := 36        // sizeof(struct rt_slab_zone)

  function RoundUp(n: nat, k: nat): (r: nat)
    requires k > 0
  {
    (n + k - 1) / k * k
  }

  /** The class of a request: zoneindex returns the index and stores the chunk size. */
  datatype Class = Class(index: nat, size: nat)

  function ZoneIndex(n: nat): Class
    requires n < ZONE_LIMIT
  {
    if n < 128 then Class(if n == 0 then 0 else RoundUp(n, 8) / 8 - 1, RoundUp(n, 8))
    else if n < 256 then Class(RoundUp(n, 16) / 16 + 7, RoundUp(n, 16))
    else if n < 512 then Class(RoundUp(n, 32) / 32 + 15, RoundUp(n, 32))
    else if n < 1024 then Class(RoundUp(n, 64) / 64 + 23, RoundUp(n, 64))
    else if n < 2048 then Class(RoundUp(n, 128) / 128 + 31, RoundUp(n, 128))
    else if n < 4096 then Class(RoundUp(n, 256) / 256 + 39, RoundUp(n, 256))
    else if n < 8192 then Class(RoundUp(n, 512) / 512 + 47, RoundUp(n, 512))
    else Class(RoundUp(n, 1024) / 1024 + 55, RoundUp(n, 1024))
  }

  /** The step of the class a request falls into, and where its indices start. */
  function Step(n: nat): (k: nat)
    ensures k in {8, 16, 32, 64, 128, 256, 512, 1024}
  {
    if n < 128 then 8 else if n < 256 then 16 else if n < 512 then 32 else if n < 1024 then 64
    else if n < 2048 then 128 else if n < 4096 then 256 else if n < 8192 then 512 else 1024
  }

  function Base(k: nat): int {
    if k == 8 then -1 else if k == 16 then 7 else if k == 32 then 15 else if k == 64 then 23
    else if k == 128 then 31 else if k == 256 then 39 else if k == 512 then 47 else 55
  }

  lemma RoundUpIs(n: nat, k: nat) returns (q: nat)
    requires k in {8, 16, 32, 64, 128, 256, 512, 1024}
    ensures RoundUp(n, k) == q * k && RoundUp(n, k) / k == q && n <= q * k < n + k
  {
    q := (n + k - 1) / k;
    if k == 8 { assert q * 8 / 8 == q; } else if k == 16 { assert q * 16 / 16 == q; }
    else if k == 32 { assert q * 32 / 32 == q; } else if k == 64 { assert q * 64 / 64 == q; }
    else if k == 128 { assert q * 128 / 128 == q; } else if k == 256 { assert q * 256 / 256 == q; }
    else if k == 512 { assert q * 512 / 512 == q; } else { assert q * 1024 / 1024 == q; }
  }

  /** A request as a multiple of its step. */
  lemma ClassIs(n: nat) returns (q: nat)
    requires 0 < n < ZONE_LIMIT
    ensures 0 < q <= 16 && (n >= 128 ==> 8 <= q) && n <= q * Step(n) < n + Step(n)
    ensures ZoneIndex(n) == Class(q + Base(Step(n)), q * Step(n))
  {
    hide RoundUp;
    q := RoundUpIs(n, Step(n));
    ClassBounds(n, q);
  }

  /** Within its range a request takes 8 to 16 steps, or 1 to 16 in the first. */
  lemma ClassBounds(n: nat, q: nat)
    requires 0 < n < ZONE_LIMIT && n <= q * Step(n) < n + Step(n)
    ensures 0 < q <= 16 && (n >= 128 ==> 8 <= q)
  {
    if n < 128 {
      assert n <= q * 8 < n + 8;
    } else if n < 256 {
      assert n <= q * 16 < n + 16;
    } else if n < 512 {
      assert n <= q * 32 < n + 32;
    } else if n < 1024 {
      assert n <= q * 64 < n + 64;
    } else if n < 2048 {
      assert n <= q * 128 < n + 128;
    } else if n < 4096 {
      assert n <= q * 256 < n + 256;
    } else if n < 8192 {
      assert n <= q * 512 < n + 512;
    } else {
      assert n <= q * 1024 < n + 1024;
    }
  }

  /** A chunk holds the request, wastes less than an eighth of it or 8 bytes, and its index is in range. */
  lemma ZoneIndexFits(n: nat)
    requires 0 < n < ZONE_LIMIT
    ensures var c := ZoneIndex(n);
            && c.index < NZONES && n <= c.size <= ZONE_LIMIT
            && (c.size - n < 8 || (c.size - n) * 8 <= n)
  {
    var q := ClassIs(n);
    hide ZoneIndex;
  }

  /** The chunk size of an index. */
  function ChunkSize(i: nat): nat {
    if i < 16 then 8 * (i + 1)
    else if i < 24 then 16 * (i - 7)
    else if i < 32 then 32 * (i - 15)
    else if i < 40 then 64 * (i - 23)
    else if i < 48 then 128 * (i - 31)
    else if i < 56 then 256 * (i - 39)
    else if i < 64 then 512 * (i - 47)
    else 1024 * (i - 55)
  }

  lemma IndexGivesSize(n: nat)
    requires 0 < n < ZONE_LIMIT
    ensures ZoneIndex(n).size == ChunkSize(ZoneIndex(n).index)
  {
    var q := ClassIs(n);
    hide ZoneIndex;
  }

  /** The class of a chunk size is that size again, so that rounding twice changes nothing. */
  lemma RoundingTwice(n: nat)
    requires 0 < n < ZONE_LIMIT
    ensures ZoneIndex(n).size < ZONE_LIMIT ==> ZoneIndex(ZoneIndex(n).size) == ZoneIndex(n)
    ensures ZoneIndex(n).size == ZONE_LIMIT ==> ZoneIndex(n).index == NZONES - 1
  {
    var q := ClassIs(n);
    var m := ZoneIndex(n).size;
    if m < ZONE_LIMIT {
      var r := ClassIs(m);
    }
    hide ZoneIndex;
  }

  /** Two requests get the same index exactly when they get the same chunk size. */
  lemma ZoneIndexNames(n: nat, m: nat)
    requires 0 < n < ZONE_LIMIT && 0 < m < ZONE_LIMIT
    ensures ZoneIndex(n).index == ZoneIndex(m).index <==> ZoneIndex(n).size == ZoneIndex(m).size
  {
    IndexGivesSize(n);
    IndexGivesSize(m);
    RoundingTwice(n);
    RoundingTwice(m);
    hide ZoneIndex, ChunkSize;
    ZoneIndexFits(n);
  }

  // ---------------------------------------------------------------- one zone

  /** The header of a zone; free is the list of recycled chunks, by address. */
  datatype Zone = Zone(nfree: nat, nmax: nat, uindex: nat, off: nat, chunk: nat, index: nat, free: seq<nat>)

  /** s * c */
  function Times(s: nat, c: nat): nat {
    if s == 0 then 0 else Times(s - 1, c) + c
  }

  lemma {:induction false} TimesIs(s: nat, c: nat)
    ensures Times(s, c) == s * c
  {
    if s > 0 {
      TimesIs(s - 1, c);
    }
  }

  /** Address of slot s in the zone that starts at page z. */
  function Address(z: nat, zone: Zone, s: nat): nat {
    z * PAGE_SIZE + zone.off + Times(s, zone.chunk)
  }

  lemma {:induction false} AddressAscends(z: nat, zone: Zone, s: nat, t: nat)
    requires s < t && zone.chunk > 0
    ensures Address(z, zone, s) + zone.chunk <= Address(z, zone, t)
  {
    if s < t - 1 {
      AddressAscends(z, zone, s, t - 1);
    }
  }

  /** The addresses of the first n slots. */
  function Slots(z: nat, zone: Zone, n: nat): set<nat> {
    if n == 0 then {} else Slots(z, zone, n - 1) + {Address(z, zone, n - 1)}
  }

  lemma {:induction false} SlotsAre(z: nat, zone: Zone, n: nat)
    requires zone.chunk > 0
    ensures |Slots(z, zone, n)| == n
    ensures forall a :: a in Slots(z, zone, n) ==> a + zone.chunk <= Address(z, zone, n)
  {
    if n > 0 {
      SlotsAre(z, zone, n - 1);
      AddressAscends(z, zone, n - 1, n);
      assert Address(z, zone, n - 1) !in Slots(z, zone, n - 1);
    }
  }

  lemma {:induction false} SlotOf(z: nat, zone: Zone, n: nat, a: nat) returns (s: nat)
    requires a in Slots(z, zone, n)
    ensures s < n && a == Address(z, zone, s)
  {
    if a == Address(z, zone, n - 1) {
      s := n - 1;
    } else {
      s := SlotOf(z, zone, n - 1, a);
    }
  }

  function Elements(l: seq<nat>): set<nat> {
    set x | x in l
  }

  lemma {:induction false} ElementsCount(l: seq<nat>)
    requires NoDuplicates(l)
    ensures |Elements(l)| == |l|
  {
    if l != [] {
      ElementsCount(l[1..]);
      assert l[0] !in l[1..];
      assert Elements(l) == {l[0]} + Elements(l[1..]);
    }
  }

  /** The chunks a caller holds: handed out at some time, and not on the free list. */
  function Live(z: nat, zone: Zone): set<nat> {
    Slots(z, zone, zone.uindex + 1) - Elements(zone.free)
  }

  /** Live, recycled and never-used chunks make up the zone. */
  ghost predicate ZoneOk(z: nat, zone: Zone, zoneSize: nat) {
    && 0 < zone.chunk && 2 <= zone.nmax && zone.uindex < zone.nmax
    && zone.off >= ZONE_HEADER && zone.off + Times(zone.nmax, zone.chunk) <= zoneSize
    && zone.nfree == zone.nmax - 1 - zone.uindex + |zone.free|
    && NoDuplicates(zone.free)
    && Elements(zone.free) <= Slots(z, zone, zone.uindex + 1)
  }

  /** The chunks not counted as free are the live ones. */
  lemma LiveCount(z: nat, zone: Zone, zoneSize: nat)
    requires ZoneOk(z, zone, zoneSize)
    ensures |Live(z, zone)| == zone.nmax - zone.nfree
    ensures zone.nfree == zone.nmax <==> Live(z, zone) == {}
  {
    SlotsAre(z, zone, zone.uindex + 1);
    ElementsCount(zone.free);
  }

  /** A live chunk lies inside its zone, behind the header, and apart from every other live chunk. */
  lemma LiveWithin(z: nat, zone: Zone, zoneSize: nat, a: nat)
    requires ZoneOk(z, zone, zoneSize) && a in Live(z, zone)
    ensures z * PAGE_SIZE + ZONE_HEADER <= a && a + zone.chunk <= z * PAGE_SIZE + zoneSize
    ensures forall b :: b in Live(z, zone) && b != a ==> a + zone.chunk <= b || b + zone.chunk <= a
  {
    hide Slots, Times;
    var s := SlotOf(z, zone, zone.uindex + 1, a);
    AddressAscends(z, zone, s, zone.nmax);
    forall b | b in Live(z, zone) && b != a ensures a + zone.chunk <= b || b + zone.chunk <= a {
      var t := SlotOf(z, zone, zone.uindex + 1, b);
      if s < t {
        AddressAscends(z, zone, s, t);
      } else {
        AddressAscends(z, zone, t, s);
      }
    }
  }

  /** A recycled chunk lies behind the header and apart from every live one. */
  lemma RecycledApart(z: nat, zone: Zone, zoneSize: nat, a: nat, c: nat)
    requires ZoneOk(z, zone, zoneSize) && a in Live(z, zone) && c in zone.free
    ensures z * PAGE_SIZE + ZONE_HEADER <= c && c + zone.chunk <= z * PAGE_SIZE + zoneSize
    ensures c + zone.chunk <= a || a + zone.chunk <= c
  {
    hide Times;
    assert c in Elements(zone.free);
    var s := SlotOf(z, zone, zone.uindex + 1, a);
    var t := SlotOf(z, zone, zone.uindex + 1, c);
    AddressAscends(z, zone, t, zone.nmax);
    if s < t {
      AddressAscends(z, zone, s, t);
    } else {
      AddressAscends(z, zone, t, s);
    }
  }

  /** rt_slab_alloc from an existing zone: never-used chunks first, then the free list. */
  function TakeChunk(zone: Zone): Zone
    requires zone.nfree > 0 && (zone.uindex + 1 == zone.nmax ==> zone.free != [])
  {
    if zone.uindex + 1 != zone.nmax then zone.(nfree := zone.nfree - 1, uindex := zone.uindex + 1)
    else zone.(nfree := zone.nfree - 1, free := zone.free[1..])
  }

  function TakenChunk(z: nat, zone: Zone): nat
    requires zone.nfree > 0 && (zone.uindex + 1 == zone.nmax ==> zone.free != [])
  {
    if zone.uindex + 1 != zone.nmax then Address(z, zone, zone.uindex + 1) else zone.free[0]
  }

  /** The chunk handed out was not live, and is now. */
  lemma TakeChunkOk(z: nat, zone: Zone, zoneSize: nat)
    requires ZoneOk(z, zone, zoneSize) && zone.nfree > 0
    ensures zone.uindex + 1 == zone.nmax ==> zone.free != []
    ensures ZoneOk(z, TakeChunk(zone), zoneSize)
    ensures TakenChunk(z, zone) !in Live(z, zone) && Live(z, TakeChunk(zone)) == Live(z, zone) + {TakenChunk(z, zone)}
  {
    if zone.uindex + 1 != zone.nmax {
      TakeFresh(z, zone, zoneSize);
    } else {
      TakeRecycled(z, zone, zoneSize);
    }
  }

  lemma TakeFresh(z: nat, zone: Zone, zoneSize: nat)
    requires ZoneOk(z, zone, zoneSize) && zone.nfree > 0 && zone.uindex + 1 != zone.nmax
    ensures ZoneOk(z, TakeChunk(zone), zoneSize)
    ensures TakenChunk(z, zone) !in Live(z, zone) && Live(z, TakeChunk(zone)) == Live(z, zone) + {TakenChunk(z, zone)}
  {
    var zone' := TakeChunk(zone);
    var n := zone.uindex + 1;
    SameSlots(z, zone, zone', n);
    SlotsAre(z, zone, n);
    SlotsNext(z, zone', n);
    assert Address(z, zone', n) == Address(z, zone, n);
    hide Slots, Address, Times;
    assert TakenChunk(z, zone) !in Slots(z, zone, n);
    assert TakenChunk(z, zone) !in Elements(zone.free);
  }

  lemma SlotsNext(z: nat, zone: Zone, n: nat)
    ensures Slots(z, zone, n + 1) == Slots(z, zone, n) + {Address(z, zone, n)}
  {
  }

  lemma TakeRecycled(z: nat, zone: Zone, zoneSize: nat)
    requires ZoneOk(z, zone, zoneSize) && zone.nfree > 0 && zone.uindex + 1 == zone.nmax
    ensures zone.free != [] && ZoneOk(z, TakeChunk(zone), zoneSize)
    ensures TakenChunk(z, zone) !in Live(z, zone) && Live(z, TakeChunk(zone)) == Live(z, zone) + {TakenChunk(z, zone)}
  {
    SameSlots(z, zone, TakeChunk(zone), zone.uindex + 1);
    hide Slots, Times;
    var a := zone.free[0];
    assert a in Elements(zone.free);
    assert a !in zone.free[1..];
    assert Elements(zone.free) == {a} + Elements(zone.free[1..]);
  }

  lemma {:induction false} SameSlots(z: nat, zone: Zone, zone': Zone, n: nat)
    requires zone'.off == zone.off && zone'.chunk == zone.chunk
    ensures Slots(z, zone', n) == Slots(z, zone, n)
  {
    if n > 0 {
      SameSlots(z, zone, zone', n - 1);
    }
  }

  /** rt_slab_free: the chunk goes to the front of the free list. */
  function PutChunk(zone: Zone, a: nat): Zone {
    zone.(nfree := zone.nfree + 1, free := [a] + zone.free)
  }

  /** The chunk given back is live no longer. */
  lemma PutChunkOk(z: nat, zone: Zone, zoneSize: nat, a: nat)
    requires ZoneOk(z, zone, zoneSize) && a in Live(z, zone)
    ensures ZoneOk(z, PutChunk(zone, a), zoneSize) && PutChunk(zone, a).nfree <= zone.nmax
    ensures Live(z, PutChunk(zone, a)) == Live(z, zone) - {a}
  {
    hide Slots, Times;
    var zone' := PutChunk(zone, a);
    SameSlots(z, zone, zone', zone.uindex + 1);
    assert Elements(zone'.free) == {a} + Elements(zone.free);
    assert a !in zone.free;
    LiveCount(z, zone, zoneSize);
    assert |Live(z, zone)| > 0;
  }

  predicate PowerOfTwo(n: nat) {
    n == 1 || (n > 0 && n % 2 == 0 && PowerOfTwo(n / 2))
  }

  /** Where the chunks of a new zone start. */
  function Offset(size: nat): nat
    requires size > 0
  {
    if PowerOfTwo(size) then RoundUp(ZONE_HEADER, size) else RoundUp(ZONE_HEADER, 8)
  }

  /** A new zone with its first chunk handed out. */
  function NewZone(zoneSize: nat, c: Class): Zone
    requires c.size > 0 && Offset(c.size) + 2 * c.size <= zoneSize
  {
    var nmax := (zoneSize - Offset(c.size)) / c.size;
    assert nmax >= 2 by { AtLeastTwo(zoneSize - Offset(c.size), c.size); }
    Zone(nmax - 1, nmax, 0, Offset(c.size), c.size, c.index, [])
  }

  /** A new zone has as many chunks as fit behind its header of 36 bytes, and all but the first are free. */
  lemma ZoneFilled(zoneSize: nat, c: Class)
    requires c.size > 0 && Offset(c.size) + 2 * c.size <= zoneSize
    ensures var zone := NewZone(zoneSize, c);
            && zone.off + zone.nmax * c.size <= zoneSize < zone.off + zone.nmax * c.size + c.size
            && zone.nfree == zone.nmax - 1 && zone.uindex == 0 && zone.free == []
            && 36 <= zone.off < 36 + if PowerOfTwo(c.size) then c.size else 8
  {
    var room := zoneSize - Offset(c.size);
    var q, r := room / c.size, room % c.size;
    assert room == q * c.size + r;
    RoundUpBounds(ZONE_HEADER, c.size);
    RoundUpBounds(ZONE_HEADER, 8);
  }

  lemma AtLeastTwo(room: nat, size: nat)
    requires size > 0 && 2 * size <= room
    ensures room / size >= 2 && room / size * size <= room
  {
    var q, r := room / size, room % size;
    assert room == q * size + r;
    assert q == 0 ==> q * size == 0;
    assert q == 1 ==> q * size == size;
  }

  lemma NewZoneOk(z: nat, zoneSize: nat, c: Class)
    requires c.size > 0 && Offset(c.size) + 2 * c.size <= zoneSize && Offset(c.size) >= ZONE_HEADER
    ensures ZoneOk(z, NewZone(zoneSize, c), zoneSize)
    ensures Live(z, NewZone(zoneSize, c)) == {Address(z, NewZone(zoneSize, c), 0)}
  {
    AtLeastTwo(zoneSize - Offset(c.size), c.size);
    var zone := NewZone(zoneSize, c);
    TimesIs(zone.nmax, c.size);
    assert Slots(z, zone, 1) == Slots(z, zone, 0) + {Address(z, zone, 0)};
  }

  lemma RoundUpBounds(n: nat, k: nat)
    requires k > 0
    ensures n <= RoundUp(n, k) < n + k
  {
    var q, r := (n + k - 1) / k, (n + k - 1) % k;
    assert n + k - 1 == q * k + r;
  }

  /** zone_limit for a zone size of rt_slab_init */
  function ZoneLimit(zoneSize: nat): nat {
    if zoneSize / 4 > ZONE_LIMIT then ZONE_LIMIT else zoneSize / 4
  }

  predicate IsZoneSize(zoneSize: nat) {
    zoneSize in {32768, 65536, 131072}
  }

  /** Every zone has room for at least two chunks behind its header. */
  lemma ClassRoom(zoneSize: nat, n: nat)
    requires IsZoneSize(zoneSize) && 0 < n < ZoneLimit(zoneSize)
    ensures var c := ZoneIndex(n);
            && n <= c.size && 0 < c.size && c.index < NZONES
            && ZONE_HEADER <= Offset(c.size) && Offset(c.size) + 2 * c.size <= zoneSize
  {
    ZoneIndexFits(n);
    var q := ClassIs(n);
    hide ZoneIndex, RoundUp, PowerOfTwo;
    RoundUpBounds(ZONE_HEADER, ZoneIndex(n).size);
    RoundUpBounds(ZONE_HEADER, 8);
  }

  // ---------------------------------------------------------------- alignment

  ghost predicate Multiple(x: nat, k: nat) {
    exists q: nat {:trigger Times(q, k)} :: x == Times(q, k)
  }

  lemma {:induction false} TimesAdd(a: nat, b: nat, k: nat)
    ensures Times(a + b, k) == Times(a, k) + Times(b, k)
  {
    if b > 0 {
      TimesAdd(a, b - 1, k);
    }
  }

  lemma MultipleAdd(x: nat, y: nat, k: nat)
    requires Multiple(x, k) && Multiple(y, k)
    ensures Multiple(x + y, k)
  {
    var a: nat :| x == Times(a, k);
    var b: nat :| y == Times(b, k);
    TimesAdd(a, b, k);
    assert x + y == Times(a + b, k);
  }

  lemma {:induction false} TimesMultiple(s: nat, x: nat, k: nat)
    requires Multiple(x, k)
    ensures Multiple(Times(s, x), k)
  {
    if s == 0 {
      assert Times(0, x) == Times(0, k);
    } else {
      TimesMultiple(s - 1, x, k);
      MultipleAdd(Times(s - 1, x), x, k);
    }
  }

  lemma {:induction false} TimesTwice(q: nat, k: nat)
    ensures Times(q, 2 * k) == 2 * Times(q, k)
  {
    if q > 0 {
      TimesTwice(q - 1, k);
    }
  }

  /** A smaller power of two divides a larger one. */
  lemma {:induction false} PowersDivide(k: nat, n: nat)
    requires PowerOfTwo(k) && PowerOfTwo(n) && k <= n
    ensures Multiple(n, k)
  {
    if k == 1 {
      TimesIs(n, 1);
      assert n == Times(n, 1);
    } else {
      PowersDivide(k / 2, n / 2);
      var q: nat :| n / 2 == Times(q, k / 2);
      TimesTwice(q, k / 2);
      assert n == Times(q, k);
    }
  }

  lemma OffsetAligned(k: nat)
    requires PowerOfTwo(k)
    ensures Multiple(Offset(k), k)
  {
    var q := (ZONE_HEADER + k - 1) / k;
    TimesIs(q, k);
  }

  lemma PagesAligned(k: nat)
    requires PowerOfTwo(k) && k <= PAGE_SIZE
    ensures Multiple(PAGE_SIZE, k)
  {
    assert PowerOfTwo(64) && PowerOfTwo(128) && PowerOfTwo(256) && PowerOfTwo(512) && PowerOfTwo(1024)
           && PowerOfTwo(2048);
    PowersDivide(k, PAGE_SIZE);
  }

  /** Chunks of a power-of-two size up to the page size are aligned to it. */
  lemma ChunkAligned(z: nat, zone: Zone, s: nat)
    requires PowerOfTwo(zone.chunk) && zone.chunk <= PAGE_SIZE && zone.off == Offset(zone.chunk)
    ensures Multiple(Address(z, zone, s), zone.chunk)
  {
    var k := zone.chunk;
    PagesAligned(k);
    OffsetAligned(k);
    TimesIs(z, PAGE_SIZE);
    assert Multiple(k, k) by {
      assert k == Times(1, k);
    }
    hide PowerOfTwo, Times, Multiple, Offset;
    TimesMultiple(z, PAGE_SIZE, k);
    TimesMultiple(s, k, k);
    MultipleAdd(z * PAGE_SIZE, zone.off, k);
    MultipleAdd(z * PAGE_SIZE + zone.off, Times(s, k), k);
  }
}
