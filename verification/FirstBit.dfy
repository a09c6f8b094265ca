/** Bits of the ready bitmaps, and __rt_ffs of kservice.c. */
module FirstBit {

  predicate BitOf(x: bv32, k: bv8)
    requires k < 32
  {
    (x >> k) & 1 == 1
  }

  predicate BitOf8(x: bv8, k: bv8)
    requires k < 8
  {
    (x >> k) & 1 == 1
  }

  // ---------------------------------------------------------------- setting and clearing one bit

  lemma AfterOr32(x: bv32, k: bv8, j: bv8)
    requires k < 32 && j < 32
    ensures BitOf(x | (1 << k), j) <==> j == k || BitOf(x, j)
  {
  }

  lemma AfterOr8(x: bv8, k: bv8, j: bv8)
    requires k < 8 && j < 8
    ensures BitOf8(x | (1 << k), j) <==> j == k || BitOf8(x, j)
    ensures x | (1 << k) != 0
  {
  }

  lemma AfterAndNot8(x: bv8, k: bv8, j: bv8)
    requires k < 8 && j < 8
    ensures BitOf8(x & !(1 << k), j) <==> j != k && BitOf8(x, j)
    ensures x == 0 ==> x & !(1 << k) == 0
  {
  }

  // ---------------------------------------------------------------- __rt_ffs

  /** r is the number of the lowest set bit, counted from 1, and 0 when there is none. */
  predicate IsFirst(x: bv32, r: bv8) {
    if x == 0 then r == 0
    else 1 <= r <= 32 && BitOf(x, r - 1) && x & ((1 << (r - 1)) - 1) == 0
  }

  lemma NoneBelow(x: bv32, r: bv8, j: bv8)
    requires x != 0 && IsFirst(x, r)
    ensures 1 <= r <= 32 && BitOf(x, r - 1) && (j < r - 1 ==> !BitOf(x, j))
  {
  }

  /** One line of __lowest_bit_bitmap; only the first entry differs from line to line. */
  function Line(first: bv8): (r: seq<bv8>)
    ensures |r| == 16
  {
    [first, 0, 1, 0, 2, 0, 1, 0, 3, 0, 1, 0, 2, 0, 1, 0]
  }

  function Lines(firsts: seq<bv8>): (r: seq<bv8>)
    ensures |r| == 16 * |firsts|
  {
    if firsts == [] then [] else Line(firsts[0]) + Lines(firsts[1..])
  }

  /** The first entry of every line. */
  function Firsts(): (r: seq<bv8>)
    ensures |r| == 16
  {
    [0, 4, 5, 4, 6, 4, 5, 4, 7, 4, 5, 4, 6, 4, 5, 4]
  }

  /** An entry of __lowest_bit_bitmap. */
  function LowestBit(b: bv32): bv8
    requires b < 256
  {
    Lines(Firsts())[b as nat]
  }

  lemma {:induction false} LineAt(firsts: seq<bv8>, i: nat, j: nat)
    requires i < |firsts| && j < 16
    ensures 16 * i + j < |Lines(firsts)| && Lines(firsts)[16 * i + j] == Line(firsts[i])[j]
  {
    hide Line;
    assert Lines(firsts) == Line(firsts[0]) + Lines(firsts[1..]);
    if i > 0 {
      LineAt(firsts[1..], i - 1, j);
    }
  }

  /** The lowest set bit of a half byte that is not zero. */
  function Lowest4(x: bv32): bv8 {
    if x & 1 != 0 then 0 else if x & 2 != 0 then 1 else if x & 4 != 0 then 2 else 3
  }

  /** The lowest set bit of a byte that is not zero. */
  function Lowest8(b: bv32): bv8 {
    if b & 15 != 0 then Lowest4(b & 15) else 4 + Lowest4(b >> 4)
  }

  lemma LineEntry(first: bv8, lo: bv32)
    requires lo < 16
    ensures 0 <= lo as int < 16 && Line(first)[lo as nat] == if lo == 0 then first else Lowest4(lo)
  {
  }

  lemma FirstsEntry(hi: bv32)
    requires hi < 16
    ensures 0 <= hi as int < 16 && Firsts()[hi as nat] == if hi == 0 then 0 else 4 + Lowest4(hi)
  {
  }

  lemma Halves(b: bv32)
    requires b < 256
    ensures b >> 4 < 16 && b & 15 < 16 && b as int == 16 * ((b >> 4) as int) + (b & 15) as int
    ensures b != 0 && b & 15 == 0 ==> b >> 4 != 0
  {
  }

  /** What the 256 entries of the table are for. */
  lemma LowestBitIs(b: bv32)
    requires b != 0 && b < 256
    ensures LowestBit(b) == Lowest8(b)
  {
    var hi, lo := b >> 4, b & 15;
    Halves(b);
    FirstsEntry(hi);
    hide Firsts, Line, Lines, Lowest4, Lowest8;
    LineEntry(Firsts()[hi as nat], lo);
    EntryIs(b as nat, hi as nat, lo as nat, b);
  }

  /** The two halves of an index, as numbers h and l and as bits of b, select the same entry. */
  lemma EntryIs(n: nat, h: nat, l: nat, b: bv32)
    requires h < 16 && l < 16 && n == 16 * h + l && (b & 15 == 0 ==> b >> 4 != 0)
    requires Firsts()[h] == if b >> 4 == 0 then 0 else 4 + Lowest4(b >> 4)
    requires Line(Firsts()[h])[l] == if b & 15 == 0 then Firsts()[h] else Lowest4(b & 15)
    ensures n < |Lines(Firsts())| && Lines(Firsts())[n] == Lowest8(b)
  {
    hide Firsts, Line, Lines, Lowest4;
    LineAt(Firsts(), h, l);
  }

  /** __rt_ffs by table, one byte after the other. */
  function Ffs(x: bv32): bv8 {
    if x == 0 then 0
    else if x & 0xff != 0 then LowestBit(x & 0xff) + 1
    else if x & 0xff00 != 0 then LowestBit((x & 0xff00) >> 8) + 9
    else if x & 0xff0000 != 0 then LowestBit((x & 0xff0000) >> 16) + 17
    else LowestBit((x & 0xff000000) >> 24) + 25
  }

  /** The first byte that is not zero decides. */
  lemma FirstInByte0(x: bv32)
    requires x & 0xff != 0
    ensures IsFirst(x, Lowest8(x & 0xff) + 1)
  {
  }

  lemma FirstInByte1(x: bv32)
    requires x & 0xff == 0 && x & 0xff00 != 0
    ensures IsFirst(x, Lowest8((x & 0xff00) >> 8) + 9)
  {
  }

  lemma FirstInByte2(x: bv32)
    requires x & 0xff == 0 && x & 0xff00 == 0 && x & 0xff0000 != 0
    ensures IsFirst(x, Lowest8((x & 0xff0000) >> 16) + 17)
  {
  }

  lemma FirstInByte3(x: bv32)
    requires x & 0xff == 0 && x & 0xff00 == 0 && x & 0xff0000 == 0 && x != 0
    ensures (x & 0xff000000) >> 24 < 256 && (x & 0xff000000) >> 24 != 0
    ensures IsFirst(x, Lowest8((x & 0xff000000) >> 24) + 25)
  {
  }

  lemma FfsByte0(x: bv32)
    requires x & 0xff != 0
    ensures IsFirst(x, Ffs(x))
  {
    FirstInByte0(x);
    hide LowestBit, Lowest8, IsFirst;
    LowestBitIs(x & 0xff);
    assert Ffs(x) == Lowest8(x & 0xff) + 1;
  }

  lemma FfsByte1(x: bv32)
    requires x & 0xff == 0 && x & 0xff00 != 0
    ensures IsFirst(x, Ffs(x))
  {
    FirstInByte1(x);
    hide LowestBit, Lowest8, IsFirst;
    LowestBitIs((x & 0xff00) >> 8);
    assert Ffs(x) == Lowest8((x & 0xff00) >> 8) + 9;
  }

  lemma FfsByte2(x: bv32)
    requires x & 0xff == 0 && x & 0xff00 == 0 && x & 0xff0000 != 0
    ensures IsFirst(x, Ffs(x))
  {
    FirstInByte2(x);
    hide LowestBit, Lowest8, IsFirst;
    LowestBitIs((x & 0xff0000) >> 16);
    assert Ffs(x) == Lowest8((x & 0xff0000) >> 16) + 17;
  }

  lemma FfsByte3(x: bv32)
    requires x & 0xff == 0 && x & 0xff00 == 0 && x & 0xff0000 == 0 && x != 0
    ensures IsFirst(x, Ffs(x))
  {
    FirstInByte3(x);
    hide LowestBit, Lowest8, IsFirst;
    LowestBitIs((x & 0xff000000) >> 24);
    assert Ffs(x) == Lowest8((x & 0xff000000) >> 24) + 25;
  }

  lemma FfsIsFirst(x: bv32)
    ensures IsFirst(x, Ffs(x))
  {
    hide Ffs;
    if x == 0 {
      FfsZero();
    } else if x & 0xff != 0 {
      FfsByte0(x);
    } else if x & 0xff00 != 0 {
      FfsByte1(x);
    } else if x & 0xff0000 != 0 {
      FfsByte2(x);
    } else {
      FfsByte3(x);
    }
  }

  lemma FfsZero()
    ensures Ffs(0) == 0
  {
  }

  // ---------------------------------------------------------------- the words of the ready queue

  datatype Word = Word(w: bv32)
  datatype Byte = Byte(b: bv8)

  const ZERO := Word(0)
  const ZERO8 := Byte(0)

  predicate Below32(k: Byte) { k.b < 32 }

  predicate Below8(k: Byte) { k.b < 8 }

  predicate Bit(x: Word, k: Byte)
    requires Below32(k)
  {
    BitOf(x.w, k.b)
  }

  predicate Bit8(x: Byte, k: Byte)
    requires Below8(k)
  {
    BitOf8(x.b, k.b)
  }

  /** 1 << k */
  function Mask(k: Byte): Word
    requires Below32(k)
  {
    Word(1 << k.b)
  }

  function Mask8(k: Byte): Byte
    requires Below8(k)
  {
    Byte(1 << k.b)
  }

  /** x |= m and x &= ~m */
  function Or(x: Word, m: Word): Word { Word(x.w | m.w) }

  function AndNot(x: Word, m: Word): Word { Word(x.w & !m.w) }

  function Or8(x: Byte, m: Byte): Byte { Byte(x.b | m.b) }

  function AndNot8(x: Byte, m: Byte): Byte { Byte(x.b & !m.b) }

  /** The group of eight priorities that p belongs to, and its place there. */
  function Group(p: Byte): (r: Byte)
    ensures Below32(r)
  {
    Byte(p.b >> 3)
  }

  function Slot(p: Byte): (r: Byte)
    ensures Below8(r)
  {
    Byte(p.b & 7)
  }

  /** (number << 3) + the number of the bit in its group. */
  function Joined(n: Byte, k: Byte): (p: Byte)
    requires Below32(n) && Below8(k)
    ensures Group(p) == n && Slot(p) == k
  {
    Byte((n.b << 3) + k.b)
  }

  /** A byte as an index. */
  function Ix(p: Byte): (i: nat)
    ensures i < 256 && (Below32(p) ==> i < 32)
  {
    p.b as nat
  }

  /** A number below 256 as a byte. */
  function AsByte(n: nat): (p: Byte)
    requires n < 256
    ensures Ix(p) == n
  {
    if n == 0 then Byte(0) else ByteAfter(AsByte(n - 1))
  }

  function ByteAfter(p: Byte): (r: Byte)
    requires Ix(p) < 255
    ensures Ix(r) == Ix(p) + 1
  {
    Byte(p.b + 1)
  }

  lemma SmallByte(p: Byte)
    requires Ix(p) < 32
    ensures Below32(p)
  {
    IxOrder(p, Byte(32));
  }

  lemma IxApart(p: Byte, q: Byte)
    ensures Ix(p) == Ix(q) <==> p == q
    ensures Ix(Group(p)) == Ix(Group(q)) <==> Group(p) == Group(q)
  {
  }

  lemma AfterOr(x: Word, k: Byte, j: Byte)
    requires Below32(k) && Below32(j)
    ensures Bit(Or(x, Mask(k)), j) <==> j == k || Bit(x, j)
  {
    AfterOr32(x.w, k.b, j.b);
    hide BitOf;
    assert Or(x, Mask(k)).w == x.w | (1 << k.b);
  }

  lemma AfterAndNot(x: Word, k: Byte, j: Byte)
    requires Below32(k) && Below32(j)
    ensures Bit(AndNot(x, Mask(k)), j) <==> j != k && Bit(x, j)
  {
    CutBit(x.w, k.b, j.b, x.w & !(1 << k.b));
    hide BitOf;
  }

  lemma CutBit(x: bv32, k: bv8, j: bv8, y: bv32)
    requires k < 32 && j < 32 && y == x & !(1 << k)
    ensures BitOf(y, j) <==> j != k && BitOf(x, j)
  {
  }

  lemma AfterOrByte(x: Byte, k: Byte, j: Byte)
    requires Below8(k) && Below8(j)
    ensures Bit8(Or8(x, Mask8(k)), j) <==> j == k || Bit8(x, j)
    ensures Or8(x, Mask8(k)) != ZERO8
  {
    AfterOr8(x.b, k.b, j.b);
  }

  lemma AfterAndNotByte(x: Byte, k: Byte, j: Byte)
    requires Below8(k) && Below8(j)
    ensures Bit8(AndNot8(x, Mask8(k)), j) <==> j != k && Bit8(x, j)
    ensures x == ZERO8 ==> AndNot8(x, Mask8(k)) == ZERO8
  {
    AfterAndNot8(x.b, k.b, j.b);
  }

  lemma GroupSlot(p: Byte, q: Byte)
    ensures Group(p) == Group(q) && Slot(p) == Slot(q) <==> p == q
    ensures p.b < q.b <==> Group(p).b < Group(q).b || (Group(p) == Group(q) && Slot(p).b < Slot(q).b)
  {
  }

  lemma IxOrder(p: Byte, q: Byte)
    ensures Ix(p) < Ix(q) <==> p.b < q.b
  {
  }

  /** The priority order is the order of groups, and within a group the order of slots. */
  lemma GroupOrder(p: Byte, q: Byte)
    ensures Ix(p) < Ix(q) <==> Ix(Group(p)) < Ix(Group(q)) || (Group(p) == Group(q) && Ix(Slot(p)) < Ix(Slot(q)))
  {
    GroupSlot(p, q);
    IxOrder(p, q);
    IxOrder(Group(p), Group(q));
    IxOrder(Slot(p), Slot(q));
    hide Group, Slot, Ix;
  }

  lemma ZeroBits(k: Byte)
    ensures Below32(k) ==> !Bit(ZERO, k)
    ensures Below8(k) ==> !Bit8(ZERO8, k)
  {
  }

  lemma FfsBits(x: bv32, j: bv8)
    requires x != 0
    ensures 1 <= Ffs(x) <= 32 && BitOf(x, Ffs(x) - 1) && (j < Ffs(x) - 1 ==> !BitOf(x, j))
  {
    FfsIsFirst(x);
    hide Ffs, IsFirst, BitOf;
    NoneBelow(x, Ffs(x), j);
  }

  lemma FirstBits(x: Word)
    requires x != ZERO
    ensures 1 <= Ffs(x.w) && Below32(Byte(Ffs(x.w) - 1)) && Bit(x, Byte(Ffs(x.w) - 1))
  {
    hide Ffs, BitOf;
    FfsBits(x.w, 0);
  }

  /** __rt_ffs(x) - 1: the number of the lowest set bit. */
  function First(x: Word): (r: Byte)
    requires x != ZERO
    ensures Below32(r) && Bit(x, r)
  {
    hide Ffs, BitOf;
    FirstBits(x);
    Byte(Ffs(x.w) - 1)
  }

  lemma FirstIs(x: Word, j: Byte)
    requires x != ZERO && Ix(j) < Ix(First(x))
    ensures Below32(j) && !Bit(x, j)
  {
    IxOrder(j, First(x));
    hide Ffs, BitOf, Ix;
    FfsBits(x.w, j.b);
  }

  /** A byte of the ready table as the argument of __rt_ffs. */
  function Widen(b: Byte): (r: Word)
    ensures r == ZERO <==> b == ZERO8
  {
    Word(b.b as bv32)
  }

  lemma WidenBit(b: Byte, k: Byte)
    requires Below32(k)
    ensures Bit(Widen(b), k) <==> Below8(k) && Bit8(b, k)
  {
  }

  function First8(b: Byte): (r: Byte)
    requires b != ZERO8
    ensures Below8(r) && Bit8(b, r)
  {
    WidenBit(b, First(Widen(b)));
    First(Widen(b))
  }

  lemma FirstIs8(b: Byte, j: Byte)
    requires b != ZERO8 && Below8(j) && Ix(j) < Ix(First8(b))
    ensures !Bit8(b, j)
  {
    hide Bit, Bit8, First, Widen, Ix;
    FirstIs(Widen(b), j);
    WidenBit(b, j);
  }
}
