/** Event sets of 32 bits, and what a receiver of events waits for, bit by bit. */
module EventBits {

  /** A 32-bit event set. */
  datatype Bits = Bits(w: bv32)

  /** One of the 32 places of a bit. */
  type Place = bv5

  const NONE := Bits(0)

  function And(x: Bits, y: Bits): Bits { Bits(x.w & y.w) }

  function Or(x: Bits, y: Bits): Bits { Bits(x.w | y.w) }

  function Minus(x: Bits, y: Bits): Bits { Bits(x.w & !y.w) }

  /** RT_EVENT_FLAG_AND, RT_EVENT_FLAG_OR, RT_EVENT_FLAG_CLEAR */
  datatype Flags = Flags(all: bool, any: bool, clear: bool)

  /** AND or OR was given. */
  predicate Able(flags: Flags) {
    flags.all || flags.any
  }

  /** The condition a receiver waits for; AND wins when both flags are given. */
  predicate Satisfied(s: Bits, want: Bits, flags: Flags) {
    if flags.all then And(want, s) == want else flags.any && And(want, s) != NONE
  }

  /** What a receive that finds its condition satisfied leaves of the event set. */
  function Left(s: Bits, want: Bits, flags: Flags): Bits {
    if flags.clear then Minus(s, want) else s
  }

  lemma AndCommutes(x: Bits, y: Bits)
    ensures And(x, y) == And(y, x)
  {
  }

  /** Taking only the bits that are there leaves the same. */
  lemma MinusSame(s: Bits, want: Bits)
    ensures Minus(s, And(want, s)) == Minus(s, want)
  {
  }

  /** Clearing bits satisfies nobody. */
  lemma StillUnsatisfied(s: Bits, c: Bits, want: Bits, flags: Flags)
    requires !Satisfied(s, want, flags)
    ensures !Satisfied(Minus(s, c), want, flags)
  {
  }

  // ---------------------------------------------------------------- bit by bit

  predicate Has(s: Bits, k: Place) {
    (s.w >> k) & 1 == 1
  }

  /** With AND every wanted bit is set, with OR at least one. */
  ghost predicate Meets(s: Bits, want: Bits, flags: Flags) {
    if flags.all then forall k: Place :: Has(want, k) ==> Has(s, k)
    else flags.any && exists k: Place :: Has(want, k) && Has(s, k)
  }

  /** The bits received: those wanted and set. */
  ghost predicate Receives(got: Bits, s: Bits, want: Bits) {
    forall k: Place :: Has(got, k) <==> Has(want, k) && Has(s, k)
  }

  /** The bits that stay set: all, or with clear all that were not wanted. */
  ghost predicate Leaves(s': Bits, s: Bits, want: Bits, flags: Flags) {
    forall k: Place :: Has(s', k) <==> Has(s, k) && !(flags.clear && Has(want, k))
  }

  /** The bits of either set. */
  ghost predicate JoinedBits(s': Bits, s: Bits, added: Bits) {
    forall k: Place :: Has(s', k) <==> Has(s, k) || Has(added, k)
  }

  lemma AndHas(x: Bits, y: Bits, k: Place)
    ensures Has(And(x, y), k) <==> Has(x, k) && Has(y, k)
  {
  }

  lemma OrHas(x: Bits, y: Bits, k: Place)
    ensures Has(Or(x, y), k) <==> Has(x, k) || Has(y, k)
  {
  }

  lemma MinusHas(x: Bits, y: Bits, k: Place)
    ensures Has(Minus(x, y), k) <==> Has(x, k) && !Has(y, k)
  {
  }

  lemma NoneHas(k: Place)
    ensures !Has(NONE, k)
  {
  }

  /** A set that is not empty has a bit. */
  lemma SomeBit(x: Bits)
    requires x != NONE
    ensures exists k: Place :: Has(x, k)
  {
    assert Has(x, 0) || Has(x, 1) || Has(x, 2) || Has(x, 3) || Has(x, 4) || Has(x, 5) || Has(x, 6) || Has(x, 7)
        || Has(x, 8) || Has(x, 9) || Has(x, 10) || Has(x, 11) || Has(x, 12) || Has(x, 13) || Has(x, 14) || Has(x, 15)
        || Has(x, 16) || Has(x, 17) || Has(x, 18) || Has(x, 19) || Has(x, 20) || Has(x, 21) || Has(x, 22) || Has(x, 23)
        || Has(x, 24) || Has(x, 25) || Has(x, 26) || Has(x, 27) || Has(x, 28) || Has(x, 29) || Has(x, 30) || Has(x, 31);
  }

  lemma AllOrRest(w: bv32, s: bv32)
    ensures w == (w & s) | (w & !s)
    ensures (w & s) & (w & !s) == 0
  {
  }

  lemma NothingLeft(w: bv32, s: bv32)
    requires w & s == w
    ensures w & !s == 0
  {
    assert w & !s == (w & s) & !s;
    assert (w & s) & !s == 0;
  }

  lemma NothingMissing(w: bv32, s: bv32)
    requires w & !s == 0
    ensures w & s == w
  {
    AllOrRest(w, s);
    assert (w & s) | 0 == w & s;
  }

  lemma NotAll(s: Bits, want: Bits)
    ensures And(want, s) == want <==> Minus(want, s) == NONE
  {
    hide And, Minus;
    if And(want, s) == want {
      AllThere(s, want);
    }
    if Minus(want, s) == NONE {
      NoneAway(s, want);
    }
  }

  lemma AllThere(s: Bits, want: Bits)
    requires And(want, s) == want
    ensures Minus(want, s) == NONE
  {
    NothingLeft(want.w, s.w);
  }

  lemma NoneAway(s: Bits, want: Bits)
    requires Minus(want, s) == NONE
    ensures And(want, s) == want
  {
    NothingMissing(want.w, s.w);
  }

  /** The tests on whole words are the tests on every bit. */
  lemma SatisfiedIs(s: Bits, want: Bits, flags: Flags)
    ensures Satisfied(s, want, flags) <==> Meets(s, want, flags)
  {
    NotAll(s, want);
    hide And, Minus, Has;
    forall k: Place ensures Has(Minus(want, s), k) <==> Has(want, k) && !Has(s, k) {
      MinusHas(want, s, k);
    }
    forall k: Place ensures Has(And(want, s), k) <==> Has(want, k) && Has(s, k) {
      AndHas(want, s, k);
    }
    forall k: Place ensures !Has(NONE, k) {
      NoneHas(k);
    }
    if Minus(want, s) != NONE {
      SomeBit(Minus(want, s));
    }
    if And(want, s) != NONE {
      SomeBit(And(want, s));
    }
  }

  /** Nobody's condition comes to hold when a receive takes its bits. */
  lemma StillUnmet(s: Bits, want: Bits, flags: Flags, other: Bits, others: Flags)
    requires !Meets(s, other, others)
    ensures !Meets(Left(s, want, flags), other, others)
  {
    SatisfiedIs(s, other, others);
    SatisfiedIs(Left(s, want, flags), other, others);
    if flags.clear {
      StillUnsatisfied(s, want, other, others);
    }
    hide Satisfied, Minus, Meets;
  }

  /** What a receive gets and leaves, bit by bit. */
  lemma ReceivedIs(s: Bits, want: Bits, flags: Flags)
    ensures Receives(And(s, want), s, want) && Receives(And(want, s), s, want)
    ensures Leaves(Left(s, want, flags), s, want, flags)
  {
    AndCommutes(s, want);
    hide And, Minus, Has;
    forall k: Place ensures Has(And(want, s), k) <==> Has(want, k) && Has(s, k) {
      AndHas(want, s, k);
    }
    forall k: Place ensures Has(Minus(s, want), k) <==> Has(s, k) && !Has(want, k) {
      MinusHas(s, want, k);
    }
  }

  lemma JoinedIs(s: Bits, added: Bits)
    ensures JoinedBits(Or(s, added), s, added)
  {
    hide Or, Has;
    forall k: Place ensures Has(Or(s, added), k) <==> Has(s, k) || Has(added, k) {
      OrHas(s, added, k);
    }
  }
}
