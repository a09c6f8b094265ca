/** Event sets of ipc.c: a send serves the sleeping receivers in queue order. */
module Events {
  import opened Lists
  import opened EventBits
  import Waiting

  type Tid = Waiting.Tid

  /** event_set and event_info of a thread, and whether it sleeps on the event. */
  datatype Receiver = Receiver(want: Bits, flags: Flags, asleep: bool)

  type Receivers = map<Tid, Receiver>

  /** One receiver after the other does a receive that does not wait: what is left of the event set. */
  function AfterAll(s: Bits, list: seq<Tid>, rs: Receivers): Bits
    requires forall k {:trigger list[k]} :: 0 <= k < |list| ==> list[k] in rs
    decreases |list|
  {
    if list == [] then s
    else
      var r := rs[list[0]];
      AfterAll(if Satisfied(s, r.want, r.flags) then Left(s, r.want, r.flags) else s, list[1..], rs)
  }

  /** The event set that receiver k of the list finds. */
  function Seen(s: Bits, list: seq<Tid>, rs: Receivers, k: nat): Bits
    requires k <= |list| && forall k {:trigger list[k]} :: 0 <= k < |list| ==> list[k] in rs
  {
    AfterAll(s, list[..k], rs)
  }

  predicate Served(s: Bits, list: seq<Tid>, rs: Receivers, k: nat)
    requires k < |list| && forall k {:trigger list[k]} :: 0 <= k < |list| ==> list[k] in rs
  {
    Satisfied(Seen(s, list, rs, k), rs[list[k]].want, rs[list[k]].flags)
  }

  /** The receivers in front of position k that were not served, in order. */
  function Unserved(s: Bits, list: seq<Tid>, rs: Receivers, k: nat): seq<Tid>
    requires k <= |list| && forall k {:trigger list[k]} :: 0 <= k < |list| ==> list[k] in rs
  {
    if k == 0 then [] else Unserved(s, list, rs, k - 1) + if Served(s, list, rs, k - 1) then [] else [list[k - 1]]
  }

  lemma {:induction false} AfterAllConcat(s: Bits, a: seq<Tid>, t: Tid, rs: Receivers)
    requires t in rs && forall k {:trigger a[k]} :: 0 <= k < |a| ==> a[k] in rs
    ensures forall k {:trigger (a + [t])[k]} :: 0 <= k < |a + [t]| ==> (a + [t])[k] in rs
    ensures var s' := AfterAll(s, a, rs);
            AfterAll(s, a + [t], rs)
            == if Satisfied(s', rs[t].want, rs[t].flags) then Left(s', rs[t].want, rs[t].flags) else s'
    decreases |a|
  {
    if a == [] {
      assert a + [t] == [t];
      assert [t][1..] == [];
    } else {
      var r := rs[a[0]];
      assert (a + [t])[1..] == a[1..] + [t];
      AfterAllConcat(if Satisfied(s, r.want, r.flags) then Left(s, r.want, r.flags) else s, a[1..], t, rs);
    }
  }

  lemma SeenNext(s: Bits, list: seq<Tid>, rs: Receivers, k: nat)
    requires k < |list| && forall k {:trigger list[k]} :: 0 <= k < |list| ==> list[k] in rs
    ensures var r := rs[list[k]];
            Seen(s, list, rs, k + 1) == if Served(s, list, rs, k) then Left(Seen(s, list, rs, k), r.want, r.flags)
                                        else Seen(s, list, rs, k)
  {
    assert list[..k + 1] == list[..k] + [list[k]];
    AfterAllConcat(s, list[..k], list[k], rs);
  }

  /** Who is passed over stays unsatisfied to the end: later receivers only clear bits. */
  lemma {:induction false} PassedOver(s: Bits, list: seq<Tid>, rs: Receivers, k: nat, n: nat)
    requires k < n <= |list| && forall k {:trigger list[k]} :: 0 <= k < |list| ==> list[k] in rs
    requires !Served(s, list, rs, k)
    ensures !Satisfied(Seen(s, list, rs, n), rs[list[k]].want, rs[list[k]].flags)
    decreases n
  {
    SeenNext(s, list, rs, n - 1);
    if n - 1 > k {
      PassedOver(s, list, rs, k, n - 1);
      StillUnsatisfied(Seen(s, list, rs, n - 1), rs[list[n - 1]].want, rs[list[k]].want, rs[list[k]].flags);
    }
  }

  /** What the receivers hold after a send: the served ones are awake with the bits they got. */
  function AfterSend(s: Bits, list: seq<Tid>, rs: Receivers, n: nat): (r: Receivers)
    requires n <= |list| && forall k {:trigger list[k]} :: 0 <= k < |list| ==> list[k] in rs
    ensures r.Keys == rs.Keys
  {
    if n == 0 then rs
    else
      var r := AfterSend(s, list, rs, n - 1);
      var t := list[n - 1];
      if Served(s, list, rs, n - 1)
      then r[t := rs[t].(want := And(Seen(s, list, rs, n - 1), rs[t].want), asleep := false)]
      else r
  }

  /** Receivers that are not among the first n of the list are as before. */
  lemma {:induction false} AfterSendOther(s: Bits, list: seq<Tid>, rs: Receivers, n: nat, t: Tid)
    requires n <= |list| && forall k {:trigger list[k]} :: 0 <= k < |list| ==> list[k] in rs
    requires t in rs && forall k :: 0 <= k < n ==> list[k] != t
    ensures AfterSend(s, list, rs, n)[t] == rs[t]
  {
    if n > 0 {
      AfterSendOther(s, list, rs, n - 1, t);
    }
  }

  lemma {:induction false} AfterSendAt(s: Bits, list: seq<Tid>, rs: Receivers, n: nat, k: nat)
    requires k < n <= |list| && NoDuplicates(list) && forall k {:trigger list[k]} :: 0 <= k < |list| ==> list[k] in rs
    ensures AfterSend(s, list, rs, n)[list[k]]
            == if Served(s, list, rs, k)
               then rs[list[k]].(want := And(Seen(s, list, rs, k), rs[list[k]].want), asleep := false)
               else rs[list[k]]
  {
    if k == n - 1 {
      AfterSendOther(s, list, rs, n - 1, list[k]);
    } else {
      AfterSendAt(s, list, rs, n - 1, k);
    }
  }

  lemma {:induction false} UnservedAre(s: Bits, list: seq<Tid>, rs: Receivers, n: nat)
    requires n <= |list| && NoDuplicates(list) && forall k {:trigger list[k]} :: 0 <= k < |list| ==> list[k] in rs
    ensures forall t: Tid :: t in Unserved(s, list, rs, n) <==>
              exists k :: 0 <= k < n && list[k] == t && !Served(s, list, rs, k)
    ensures NoDuplicates(Unserved(s, list, rs, n))
  {
    if n > 0 {
      UnservedAre(s, list, rs, n - 1);
      assert list[n - 1] !in Unserved(s, list, rs, n - 1);
    }
  }

  lemma Start(s: Bits, list: seq<Tid>, rs: Receivers)
    requires forall k {:trigger list[k]} :: 0 <= k < |list| ==> list[k] in rs
    ensures Seen(s, list, rs, 0) == s && Unserved(s, list, rs, 0) == [] && AfterSend(s, list, rs, 0) == rs
  {
    assert list[..0] == [];
  }

  lemma ServeNext(s: Bits, list: seq<Tid>, rs: Receivers, n: nat)
    requires n < |list| && NoDuplicates(list) && forall k {:trigger list[k]} :: 0 <= k < |list| ==> list[k] in rs
    ensures AfterSend(s, list, rs, n)[list[n]] == rs[list[n]]
    ensures var t, seen := list[n], Seen(s, list, rs, n);
            && (Served(s, list, rs, n) <==> Satisfied(seen, rs[t].want, rs[t].flags))
            && Seen(s, list, rs, n + 1)
                 == (if Served(s, list, rs, n) then Left(seen, rs[t].want, rs[t].flags) else seen)
            && Unserved(s, list, rs, n + 1) == Unserved(s, list, rs, n) + (if Served(s, list, rs, n) then [] else [t])
            && AfterSend(s, list, rs, n + 1) == (if Served(s, list, rs, n)
                 then AfterSend(s, list, rs, n)[t := rs[t].(want := And(seen, rs[t].want), asleep := false)]
                 else AfterSend(s, list, rs, n))
  {
    SeenNext(s, list, rs, n);
    AfterSendOther(s, list, rs, n, list[n]);
  }

  /** The first receiver that gave neither AND nor OR, at or behind position k; a send stops there. */
  function FirstUnable(list: seq<Tid>, rs: Receivers, k: nat): (n: nat)
    requires k <= |list| && forall k {:trigger list[k]} :: 0 <= k < |list| ==> list[k] in rs
    ensures k <= n <= |list| && forall i :: k <= i < n ==> Able(rs[list[i]].flags)
    ensures n < |list| ==> !Able(rs[list[n]].flags)
    decreases |list| - k
  {
    if k == |list| || !Able(rs[list[k]].flags) then k else FirstUnable(list, rs, k + 1)
  }

  /** After a send that came as far as n the list holds exactly the sleepers. */
  lemma SendKeeps(s: Bits, list: seq<Tid>, rs: Receivers, n: nat)
    requires NoDuplicates(list) && n <= |list| && forall k {:trigger list[k]} :: 0 <= k < |list| ==> list[k] in rs
    requires forall t: Tid {:trigger t in list} :: t in list <==> t in rs && rs[t].asleep
    ensures var rs', list' := AfterSend(s, list, rs, n), Unserved(s, list, rs, n) + list[n..];
            && NoDuplicates(list')
            && (forall t: Tid {:trigger t in list'} :: t in list' <==> t in rs' && rs'[t].asleep)
            && (forall t: Tid {:trigger rs'[t]} :: t in rs' && rs'[t].asleep ==> t in rs && rs'[t] == rs[t])
  {
    var rs', list' := AfterSend(s, list, rs, n), Unserved(s, list, rs, n) + list[n..];
    UnservedAre(s, list, rs, n);
    forall t: Tid ensures t in list' <==> t in rs' && rs'[t].asleep
                  ensures t in rs' && rs'[t].asleep ==> t in rs && rs'[t] == rs[t] {
      SendKeepsOne(s, list, rs, n, t);
    }
    forall i, j | 0 <= i < j < |list'| ensures list'[i] != list'[j] {
      if i < |Unserved(s, list, rs, n)| <= j {
        assert list'[i] in Unserved(s, list, rs, n) && list'[j] == list[n + j - |Unserved(s, list, rs, n)|];
      }
    }
  }

  lemma SendKeepsOne(s: Bits, list: seq<Tid>, rs: Receivers, n: nat, t: Tid)
    requires NoDuplicates(list) && n <= |list| && forall k {:trigger list[k]} :: 0 <= k < |list| ==> list[k] in rs
    requires forall t: Tid {:trigger t in list} :: t in list <==> t in rs && rs[t].asleep
    ensures var rs', list' := AfterSend(s, list, rs, n), Unserved(s, list, rs, n) + list[n..];
            && (t in list' <==> t in rs' && rs'[t].asleep)
            && (t in rs' && rs'[t].asleep ==> t in rs && rs'[t] == rs[t])
  {
    UnservedAre(s, list, rs, n);
    if t in list {
      var k :| 0 <= k < |list| && list[k] == t;
      if k < n {
        AfterSendAt(s, list, rs, n, k);
        assert t !in list[n..];
      } else {
        AfterSendOther(s, list, rs, n, t);
        assert list[n..][k - n] == t;
      }
    } else if t in rs {
      AfterSendOther(s, list, rs, n, t);
    }
  }

  /** Nobody sleeps whose condition the event set satisfies. */
  ghost predicate NoneLeft(s: Bits, rs: Receivers) {
    forall t: Tid {:trigger rs[t]} :: t in rs && rs[t].asleep ==> !Meets(s, rs[t].want, rs[t].flags)
  }

  /** The event set satisfies no receiver at or behind place n of the list. */
  ghost predicate NoneBehind(s: Bits, list: seq<Tid>, rs: Receivers, n: nat)
    requires forall k {:trigger list[k]} :: 0 <= k < |list| ==> list[k] in rs
  {
    forall k {:trigger list[k]} :: n <= k < |list| ==> !Meets(s, rs[list[k]].want, rs[list[k]].flags)
  }

  /** A sleeper of rs' is as it was, and stands behind n unless it is not satisfied. */
  ghost predicate BehindOrNot(s: Bits, list: seq<Tid>, rs: Receivers, rs': Receivers, n: nat, t: Tid)
    requires n <= |list|
  {
    t in rs' && rs'[t].asleep ==>
      t in rs && rs'[t] == rs[t] && (t in list[n..] || !Meets(s, rs[t].want, rs[t].flags))
  }

  /** Receiver k of the list sleeps on as it was. */
  ghost predicate SleepsOn(list: seq<Tid>, rs: Receivers, rs': Receivers, k: nat)
    requires k < |list|
  {
    list[k] in rs && list[k] in rs' && rs'[list[k]] == rs[list[k]] && rs[list[k]].asleep
  }

  lemma NoneLeftThenBehind(s: Bits, list: seq<Tid>, rs: Receivers, rs': Receivers, n: nat)
    requires forall k {:trigger list[k]} :: 0 <= k < |list| ==> list[k] in rs
    requires forall k {:trigger SleepsOn(list, rs, rs', k)} :: n <= k < |list| ==> SleepsOn(list, rs, rs', k)
    requires NoneLeft(s, rs')
    ensures NoneBehind(s, list, rs, n)
  {
    hide Meets;
    forall k {:trigger list[k]} | n <= k < |list| ensures !Meets(s, rs[list[k]].want, rs[list[k]].flags) {
      assert SleepsOn(list, rs, rs', k);
    }
  }

  lemma NoneBehindThenLeft(s: Bits, list: seq<Tid>, rs: Receivers, rs': Receivers, n: nat)
    requires n <= |list| && forall k {:trigger list[k]} :: 0 <= k < |list| ==> list[k] in rs
    requires forall t: Tid {:trigger rs'[t]} :: t in rs' ==> BehindOrNot(s, list, rs, rs', n, t)
    requires NoneBehind(s, list, rs, n)
    ensures NoneLeft(s, rs')
  {
    hide Meets;
    forall t: Tid {:trigger rs'[t]} | t in rs' && rs'[t].asleep ensures !Meets(s, rs'[t].want, rs'[t].flags) {
      assert BehindOrNot(s, list, rs, rs', n, t);
      if t in list[n..] {
        var k :| 0 <= k < |list[n..]| && list[n..][k] == t;
        assert list[n + k] == t;
      }
    }
  }

  /** A receiver that sleeps on after a send was passed over, or the send did not come to it. */
  lemma SendPasses(s: Bits, list: seq<Tid>, rs: Receivers, n: nat, t: Tid)
    requires NoDuplicates(list) && n <= |list| && forall k {:trigger list[k]} :: 0 <= k < |list| ==> list[k] in rs
    requires forall t: Tid {:trigger t in list} :: t in list <==> t in rs && rs[t].asleep
    ensures BehindOrNot(Seen(s, list, rs, n), list, rs, AfterSend(s, list, rs, n), n, t)
  {
    SendKeepsOne(s, list, rs, n, t);
    if t in AfterSend(s, list, rs, n) && AfterSend(s, list, rs, n)[t].asleep {
      hide AfterSend, Seen, Satisfied, Meets;
      assert t in list;
      var k :| 0 <= k < |list| && list[k] == t;
      if k < n {
        AfterSendAt(s, list, rs, n, k);
        PassedOver(s, list, rs, k, n);
        SatisfiedIs(Seen(s, list, rs, n), rs[t].want, rs[t].flags);
      } else {
        assert list[n..][k - n] == t;
      }
    }
  }

  /** After a send that came as far as n, exactly those behind n may have been overlooked. */
  lemma SendOverlooks(s: Bits, list: seq<Tid>, rs: Receivers, n: nat)
    requires NoDuplicates(list) && n <= |list| && forall k {:trigger list[k]} :: 0 <= k < |list| ==> list[k] in rs
    requires forall t: Tid {:trigger t in list} :: t in list <==> t in rs && rs[t].asleep
    ensures var rs', s' := AfterSend(s, list, rs, n), Seen(s, list, rs, n);
            NoneLeft(s', rs') <==> NoneBehind(s', list, rs, n)
  {
    hide AfterSend, Seen, Served, Satisfied, Meets, NoneLeft, NoneBehind, BehindOrNot;
    var rs', s' := AfterSend(s, list, rs, n), Seen(s, list, rs, n);
    forall k {:trigger SleepsOn(list, rs, rs', k)} | n <= k < |list| ensures SleepsOn(list, rs, rs', k) {
      AfterSendOther(s, list, rs, n, list[k]);
      assert list[k] in list;
    }
    forall t: Tid {:trigger rs'[t]} | t in rs' ensures BehindOrNot(s', list, rs, rs', n, t) {
      SendPasses(s, list, rs, n, t);
    }
    if NoneLeft(s', rs') {
      NoneLeftThenBehind(s', list, rs, rs', n);
    }
    if NoneBehind(s', list, rs, n) {
      NoneBehindThenLeft(s', list, rs, rs', n);
    }
  }

  /** Receiver k of the list is awake if and only if the bits it came to met its condition; then it has its bits. */
  ghost predicate Answered(s: Bits, list: seq<Tid>, rs: Receivers, k: nat, rs': Receivers)
    requires k < |list| && forall k {:trigger list[k]} :: 0 <= k < |list| ==> list[k] in rs
  {
    var t, seen := list[k], Seen(s, list, rs, k);
    && t in rs' && (rs'[t].asleep <==> !Meets(seen, rs[t].want, rs[t].flags))
    && if rs'[t].asleep then rs'[t] == rs[t] && Seen(s, list, rs, k + 1) == seen
       else Receives(rs'[t].want, seen, rs[t].want) && Leaves(Seen(s, list, rs, k + 1), seen, rs[t].want, rs[t].flags)
  }

  lemma SendAnswers(s: Bits, list: seq<Tid>, rs: Receivers, n: nat, k: nat)
    requires NoDuplicates(list) && k < n <= |list| && forall k {:trigger list[k]} :: 0 <= k < |list| ==> list[k] in rs
    requires list[k] in rs && rs[list[k]].asleep
    ensures Answered(s, list, rs, k, AfterSend(s, list, rs, n))
  {
    hide AfterSend, Seen, Meets, Satisfied, Receives, Leaves, And, Left;
    var t, seen := list[k], Seen(s, list, rs, k);
    AfterSendAt(s, list, rs, n, k);
    SeenNext(s, list, rs, k);
    SatisfiedIs(seen, rs[t].want, rs[t].flags);
    ReceivedIs(seen, rs[t].want, rs[t].flags);
  }

  /**
   * Receiver 0 gave neither AND nor OR and receiver 1 waits for bit 0. A send of bit 0 stops at receiver 0, and
   * receiver 1 sleeps on although its condition is satisfied.
   */
  lemma SendOverlooksOne()
    ensures var rs: Receivers := map[0 := Receiver(Bits(1), Flags(false, false, false), true),
                                     1 := Receiver(Bits(1), Flags(false, true, false), true)];
            && FirstUnable([0, 1], rs, 0) == 0
            && !NoneLeft(Seen(Bits(1), [0, 1], rs, 0), AfterSend(Bits(1), [0, 1], rs, 0))
  {
    var rs: Receivers := map[0 := Receiver(Bits(1), Flags(false, false, false), true),
                             1 := Receiver(Bits(1), Flags(false, true, false), true)];
    Start(Bits(1), [0, 1], rs);
    assert Has(Bits(1), 0);
    assert Meets(Bits(1), rs[1].want, rs[1].flags);
  }

  /** Where the loop of a send stands: the passed-over receivers, then those not looked at yet. */
  lemma NextWaiter(waiters: seq<Tid>, before: seq<Tid>, list: seq<Tid>, n: nat)
    requires n <= |list| && waiters == before + list[n..] && |before| < |waiters|
    ensures n < |list| && waiters[|before|] == list[n]
    ensures waiters[..|before|] + waiters[|before| + 1..] == before + [] + list[n + 1..]
    ensures waiters == before + [list[n]] + list[n + 1..]
  {
  }

  datatype Outcome = Got(bits: Bits) | Timeout | Sleeps | Error

  /** AllServed is RT_EOK, Stopped is -RT_EINVAL and Nothing is the refusal of an empty set. */
  datatype Sent = AllServed | Stopped | Nothing

  class Event {
    const byPriority: bool
    const priorities: map<Tid, nat>
    var bits: Bits                      // event->set
    var waiters: seq<Tid>               // parent.suspend_thread
    var threads: Receivers

    /** The list holds exactly the sleepers, and each of them waits for something. */
    ghost predicate Valid()
      reads this
    {
      && threads.Keys == priorities.Keys
      && NoDuplicates(waiters)
      && (forall t: Tid {:trigger t in waiters} :: t in waiters <==> t in threads && threads[t].asleep)
      && (forall t: Tid {:trigger threads[t]} :: t in threads && threads[t].asleep ==> threads[t].want != NONE)
    }

    /** Nobody sleeps whose condition the event set satisfies. */
    ghost predicate NoneOverlooked()
      reads this
    {
      NoneLeft(bits, threads)
    }

    /** Every sleeper gave AND or OR. */
    ghost predicate AllAble()
      reads this
    {
      forall t: Tid {:trigger threads[t]} :: t in threads && threads[t].asleep ==> Able(threads[t].flags)
    }

    constructor (byPriority: bool, priorities: map<Tid, nat>)
      ensures Valid() && NoneOverlooked() && AllAble() && bits == NONE && waiters == []
      ensures this.priorities == priorities && this.byPriority == byPriority
    {
      this.byPriority, this.priorities := byPriority, priorities;
      bits, waiters := NONE, [];
      threads := map t | t in priorities :: Receiver(NONE, Flags(false, false, false), false);
    }

    /**
     * rt_event_send. A sleeper that gave neither AND nor OR ends the send with an error; those behind it are looked at
     * by no send while it sleeps.
     */
    method Send(set_: Bits) returns (r: Sent)
      requires Valid()
      modifies this
      ensures Valid()
      ensures forall k {:trigger old(waiters)[k]} :: 0 <= k < |old(waiters)| ==> old(waiters)[k] in old(threads)
      ensures r.Nothing? <==> set_ == NONE
      ensures r.Nothing? ==> bits == old(bits) && waiters == old(waiters) && threads == old(threads)
      ensures !r.Nothing? ==>
                var s, list, rs := Or(old(bits), set_), old(waiters), old(threads);
                var n := FirstUnable(list, rs, 0);
                && (r.AllServed? <==> n == |list|)
                // the bits of both sets, taken by one receiver after the other, each if its condition holds
                && JoinedBits(s, old(bits), set_)
                && (forall k: nat {:trigger Answered(s, list, rs, k, threads)} :: k < n ==>
                      Answered(s, list, rs, k, threads))
                && bits == Seen(s, list, rs, n) && waiters == Unserved(s, list, rs, n) + list[n..]
                && threads == AfterSend(s, list, rs, n)
                && (NoneOverlooked() <==> NoneBehind(bits, list, rs, n))
      ensures old(AllAble()) ==> AllAble() && !r.Stopped? && (!r.Nothing? ==> NoneOverlooked())
    {
      WaitersKnown();
      if set_ == NONE {
        return Nothing;
      }
      JoinedIs(bits, set_);
      hide Satisfied, Left, And, Or, Minus, Unserved, AfterSend, Served, Seen, FirstUnable, NoneOverlooked, NoneBehind;
      hide JoinedBits, Answered, Has;
      ghost var list, rs := waiters, threads;
      bits := Or(bits, set_);
      ghost var s := bits;
      var all := ServeAll();
      SendEnds(s, list, rs, all);
      r := if all then AllServed else Stopped;
    }

    /** What the loop of a send leaves, when the list held exactly the sleepers. */
    lemma SendEnds(s: Bits, list: seq<Tid>, rs: Receivers, all: bool)
      requires Finished(s, list, rs, all) && NoDuplicates(list) && rs.Keys == priorities.Keys
      requires forall t: Tid {:trigger t in list} :: t in list <==> t in rs && rs[t].asleep
      requires forall t: Tid {:trigger rs[t]} :: t in rs && rs[t].asleep ==> rs[t].want != NONE
      ensures Valid()
      ensures forall k: nat {:trigger Answered(s, list, rs, k, threads)} :: k < FirstUnable(list, rs, 0) ==>
                Answered(s, list, rs, k, threads)
      ensures NoneOverlooked() <==> NoneBehind(bits, list, rs, FirstUnable(list, rs, 0))
      ensures (forall t: Tid {:trigger rs[t]} :: t in rs && rs[t].asleep ==> Able(rs[t].flags)) ==>
                AllAble() && all && NoneOverlooked()
    {
      hide Satisfied, Unserved, AfterSend, Served, Seen, NoneLeft, NoneBehind, Answered;
      var n := FirstUnable(list, rs, 0);
      SendKeeps(s, list, rs, n);
      SendOverlooks(s, list, rs, n);
      forall k: nat | k < n ensures Answered(s, list, rs, k, threads) {
        SendAnswers(s, list, rs, n, k);
      }
      AbleAll(s, list, rs);
    }

    /** A send among receivers that all gave a flag comes to the end of the list. */
    lemma AbleAll(s: Bits, list: seq<Tid>, rs: Receivers)
      requires forall k {:trigger list[k]} :: 0 <= k < |list| ==> list[k] in rs && rs[list[k]].asleep
      ensures (forall t: Tid {:trigger rs[t]} :: t in rs && rs[t].asleep ==> Able(rs[t].flags)) ==>
                FirstUnable(list, rs, 0) == |list| && NoneBehind(bits, list, rs, |list|)
    {
      hide Meets;
    }

    lemma WaitersKnown()
      requires Valid()
      ensures AllAsleep(waiters, threads)
    {
      forall k {:trigger waiters[k]} | 0 <= k < |waiters| ensures waiters[k] in threads && threads[waiters[k]].asleep {
        assert waiters[k] in waiters;
      }
    }

    /** The locked region at the start of rt_event_recv by thread t; with neither AND nor OR nothing satisfies it. */
    method RecvRegion(t: Tid, want: Bits, flags: Flags, mayWait: bool) returns (r: Outcome)
      requires Valid() && t in threads && !threads[t].asleep
      modifies this
      ensures Valid() && (old(NoneOverlooked()) ==> NoneOverlooked())
      ensures old(AllAble()) && Able(flags) ==> AllAble()
      ensures r.Error? <==> want == NONE
      // bit by bit: whether the condition holds, what is received and what stays
      ensures r.Got? <==> want != NONE && Meets(old(bits), want, flags)
      ensures r.Sleeps? <==> want != NONE && !Meets(old(bits), want, flags) && mayWait
      ensures r.Got? ==> Receives(r.bits, old(bits), want) && Leaves(bits, old(bits), want, flags)
      ensures r.Got? ==> && r.bits == And(old(bits), want) && bits == Left(old(bits), want, flags)
                         && waiters == old(waiters)
                         && threads == old(threads)[t := Receiver(r.bits, flags, false)]
      ensures !r.Got? ==> bits == old(bits)
      ensures r.Error? || r.Timeout? ==> waiters == old(waiters) && threads == old(threads)
      ensures r.Sleeps? ==> threads == old(threads)[t := Receiver(want, flags, true)]
                            && Waiting.Joins(byPriority, priorities, old(waiters), waiters, t)
    {
      if want == NONE {
        return Error;
      }
      AndCommutes(want, bits);
      SatisfiedIs(bits, want, flags);
      ReceivedIs(bits, want, flags);
      hide Meets, Receives, Leaves;
      var ok := false;
      if flags.all {
        ok := And(bits, want) == want;
      } else if flags.any {
        ok := And(bits, want) != NONE;
      }
      assert ok == Satisfied(bits, want, flags);
      if ok {
        r := Got(And(bits, want));
        TakeBits(t, want, flags);
      } else if !mayWait {
        r := Timeout;
      } else {
        FallAsleep(t, want, flags);
        r := Sleeps;
      }
    }

    /** A receive whose condition holds. */
    method TakeBits(t: Tid, want: Bits, flags: Flags)
      requires Valid() && t in threads && !threads[t].asleep
      modifies this`bits, this`threads
      ensures Valid() && (old(NoneOverlooked()) ==> NoneOverlooked()) && bits == Left(old(bits), want, flags)
      ensures threads == old(threads)[t := Receiver(And(old(bits), want), flags, false)]
    {
      hide Meets, And, Minus;
      forall x: Tid {:trigger threads[x]} | x in threads && threads[x].asleep
        ensures Meets(Left(bits, want, flags), threads[x].want, threads[x].flags)
                ==> Meets(bits, threads[x].want, threads[x].flags)
      {
        if !Meets(bits, threads[x].want, threads[x].flags) {
          StillUnmet(bits, want, flags, threads[x].want, threads[x].flags);
        }
      }
      threads := threads[t := Receiver(And(bits, want), flags, false)];
      if flags.clear {
        bits := Minus(bits, want);
      }
    }

    /** A receive whose condition does not hold goes to its place among the sleepers. */
    method FallAsleep(t: Tid, want: Bits, flags: Flags)
      requires Valid() && t in threads && !threads[t].asleep && want != NONE && !Satisfied(bits, want, flags)
      modifies this`threads, this`waiters
      ensures Valid() && (old(NoneOverlooked()) ==> NoneOverlooked())
      ensures threads == old(threads)[t := Receiver(want, flags, true)]
      ensures Waiting.Joins(byPriority, priorities, old(waiters), waiters, t)
    {
      SatisfiedIs(bits, want, flags);
      hide Satisfied, Meets, And;
      var i := Waiting.Place(byPriority, priorities, waiters, t);
      InsertKeepsDistinct(waiters, i, t);
      threads := threads[t := Receiver(want, flags, true)];
      waiters := waiters[..i] + [t] + waiters[i..];
    }

    /** _thread_timeout of a sleeping receiver */
    method Expire(t: Tid)
      requires Valid() && t in threads && threads[t].asleep
      modifies this`threads, this`waiters
      ensures Valid() && (old(NoneOverlooked()) ==> NoneOverlooked()) && (old(AllAble()) ==> AllAble())
      ensures threads == old(threads)[t := old(threads[t]).(asleep := false)]
      ensures waiters == Remove(old(waiters), t)
    {
      hide Satisfied;
      RemoveDistinct(waiters, t);
      threads := threads[t := threads[t].(asleep := false)];
      waiters := Remove(waiters, t);
    }

    /** rt_event_control with RT_IPC_CMD_RESET */
    method Reset()
      requires Valid()
      modifies this
      ensures Valid() && NoneOverlooked() && AllAble() && bits == NONE && waiters == []
      ensures forall t :: t in threads ==> t in old(threads) && threads[t] == old(threads)[t].(asleep := false)
    {
      threads := map t | t in threads :: threads[t].(asleep := false);
      waiters, bits := [], NONE;
    }

    /** The first n receivers of the list have been looked at, and i of them were passed over. */
    ghost predicate Looked(s: Bits, list: seq<Tid>, rs: Receivers, n: nat, i: nat)
      reads this
    {
      && AllAsleep(list, rs) && n <= FirstUnable(list, rs, 0)
      && bits == Seen(s, list, rs, n)
      && threads == AfterSend(s, list, rs, n)
      && i == |Unserved(s, list, rs, n)|
      && waiters == Unserved(s, list, rs, n) + list[n..]
    }

    /** All receivers the send comes to have been looked at: all of the list, or those in front of one without flags. */
    ghost predicate Finished(s: Bits, list: seq<Tid>, rs: Receivers, all: bool)
      reads this
    {
      && AllAsleep(list, rs)
      && var n := FirstUnable(list, rs, 0);
      && bits == Seen(s, list, rs, n)
      && threads == AfterSend(s, list, rs, n)
      && waiters == Unserved(s, list, rs, n) + list[n..]
      && (all <==> n == |list|)
    }

    /** The loop of rt_event_send over the sleeping receivers; false when it stopped at one that gave no flags. */
    method ServeAll() returns (all: bool)
      requires NoDuplicates(waiters) && AllAsleep(waiters, threads)
      modifies this
      ensures Finished(old(bits), old(waiters), old(threads), all)
    {
      LookedStart();
      hide *;
      ghost var s, list, rs := bits, waiters, threads;
      ghost var n: nat := 0;
      var i: nat := 0;
      while i < |waiters|
        invariant Looked(s, list, rs, n, i)
        decreases |list| - n
      {
        NextFlags(s, list, rs, n, i);
        if !threads[waiters[i]].flags.all && !threads[waiters[i]].flags.any {
          LookedStop(s, list, rs, n, i);
          return false;
        }
        i := Turn(i, s, list, rs, n);
        n := n + 1;
      }
      LookedEnd(s, list, rs, n, i);
      all := true;
    }

    lemma LookedStart()
      requires AllAsleep(waiters, threads)
      ensures Looked(bits, waiters, threads, 0, 0)
    {
      Start(bits, waiters, threads);
    }

    /** The receiver that is looked at next has the flags it fell asleep with. */
    lemma NextFlags(s: Bits, list: seq<Tid>, rs: Receivers, n: nat, i: nat)
      requires Looked(s, list, rs, n, i) && NoDuplicates(list) && i < |waiters|
      ensures n < |list| && waiters[i] == list[n] && list[n] in rs && list[n] in threads
      ensures threads[list[n]] == rs[list[n]]
    {
      hide Seen, Unserved, AfterSend, FirstUnable;
      NextWaiter(waiters, Unserved(s, list, rs, n), list, n);
      ServeNext(s, list, rs, n);
    }

    lemma LookedStop(s: Bits, list: seq<Tid>, rs: Receivers, n: nat, i: nat)
      requires Looked(s, list, rs, n, i) && n < |list| && list[n] in rs
      requires !rs[list[n]].flags.all && !rs[list[n]].flags.any
      ensures Finished(s, list, rs, false)
    {
      hide Seen, Unserved, AfterSend, FirstUnable;
      assert n == FirstUnable(list, rs, 0);
    }

    lemma LookedEnd(s: Bits, list: seq<Tid>, rs: Receivers, n: nat, i: nat)
      requires Looked(s, list, rs, n, i) && |waiters| <= i
      ensures Finished(s, list, rs, true)
    {
      hide Seen, Unserved, AfterSend, FirstUnable;
      assert n == |list|;
    }

    /** The receiver at place i, the nth of the original list, is looked at. */
    method Turn(i: nat, ghost s: Bits, ghost list: seq<Tid>, ghost rs: Receivers, ghost n: nat) returns (j: nat)
      requires Looked(s, list, rs, n, i) && NoDuplicates(list) && i < |waiters|
      requires n < |list| && list[n] in rs && (rs[list[n]].flags.all || rs[list[n]].flags.any)
      modifies this
      ensures Looked(s, list, rs, n + 1, j)
    {
      NextWaiter(waiters, Unserved(s, list, rs, n), list, n);
      ServeNext(s, list, rs, n);
      assert n < FirstUnable(list, rs, 0);
      hide AfterAll, Unserved, AfterSend, Seen, Served, Satisfied, Left, And, Or, Minus, NoDuplicates, FirstUnable;
      var served := ServeOne(i);
      j := if served then i else i + 1;
    }

    /** One turn of the loop in rt_event_send: the receiver at place i is served if its condition holds. */
    method ServeOne(i: nat) returns (served: bool)
      requires i < |waiters| && waiters[i] in threads && threads[waiters[i]].asleep
      requires Able(threads[waiters[i]].flags)
      modifies this
      ensures var t := old(waiters)[i];
              var r := old(threads)[t];
              && (served <==> Satisfied(old(bits), r.want, r.flags))
              && (served <==> Meets(old(bits), r.want, r.flags))
              && (served ==> && Leaves(bits, old(bits), r.want, r.flags) && t in threads
                             && Receives(threads[t].want, old(bits), r.want)
                             && bits == Left(old(bits), r.want, r.flags)
                             && threads == old(threads)[t := r.(want := And(old(bits), r.want), asleep := false)]
                             && waiters == old(waiters)[..i] + old(waiters)[i + 1..])
              && (!served ==> bits == old(bits) && threads == old(threads) && waiters == old(waiters))
    {
      var t := waiters[i];
      var r := threads[t];
      AndCommutes(r.want, bits);
      MinusSame(bits, r.want);
      SatisfiedIs(bits, r.want, r.flags);
      ReceivedIs(bits, r.want, r.flags);
      hide Meets, Receives, Leaves;
      served := false;
      if r.flags.all {
        if And(r.want, bits) == r.want {
          served := true;
        }
      } else if And(r.want, bits) != NONE {
        r := r.(want := And(r.want, bits));
        served := true;
      }
      hide And, Minus;
      if served {
        if r.flags.clear {
          bits := Minus(bits, r.want);
        }
        threads := threads[t := r.(asleep := false)];
        waiters := waiters[..i] + waiters[i + 1..];
      }
    }
  }

  /** Everybody on the list sleeps. */
  ghost predicate AllAsleep(list: seq<Tid>, rs: Receivers) {
    forall k {:trigger list[k]} :: 0 <= k < |list| ==> list[k] in rs && rs[list[k]].asleep
  }
}
