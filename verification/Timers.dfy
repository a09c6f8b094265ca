/** The timer list of timer.c: starting, stopping and expiring timers on a skip list, in place. */
module Timers {
  import opened Lists
  import opened TimerRows
  import opened TimerCheck

  /** Position of x in a row. */
  function IndexOf(row: Row, x: TimerId): (i: nat)
    requires x in row
    ensures i < |row| && row[i] == x
  {
    if row[0] == x then 0 else 1 + IndexOf(row[1..], x)
  }

  /** A timer's wrapped timeout and its true one. */
  ghost predicate Synced(timers: map<TimerId, Timer>, expiry: map<TimerId, int>, t: TimerId)
    requires t in timers
  {
    t in expiry && timers[t].timeoutTick == Tick(expiry[t]) && timers[t].initTick < HALF
  }

  /** A pending timer is due within the half range of the tick; early says how far it may be overdue. */
  ghost predicate Timely(expiry: map<TimerId, int>, now: int, early: nat, t: TimerId) {
    t in expiry && now - early <= expiry[t] < now + HALF
  }

  /** What holds of the timers and the bottom row at any time. */
  ghost predicate Pending(timers: map<TimerId, Timer>, expiry: map<TimerId, int>, bottom: Row, list: seq<TimerId>,
                          tick: nat, now: int, early: nat)
  {
    && tick == Tick(now)
    && expiry.Keys == timers.Keys
    && |list| <= 1
    && (forall t {:trigger t in list} :: t in list ==> t in timers)
    && (forall t {:trigger Synced(timers, expiry, t)} :: t in timers ==> Synced(timers, expiry, t))
    && (forall t {:trigger Timely(expiry, now, early, t)} :: t in bottom ==> Timely(expiry, now, early, t))
    && (forall t {:trigger FlagOk(timers, bottom, list, t)} :: t in timers ==> FlagOk(timers, bottom, list, t))
  }

  lemma RemovedPending(timers: map<TimerId, Timer>, expiry: map<TimerId, int>, bottom: Row, list: seq<TimerId>,
                       tick: nat, now: int, early: nat, t: TimerId)
    requires Pending(timers, expiry, bottom, list, tick, now, early) && t in timers
    ensures Pending(timers[t := timers[t].(activated := false)], expiry, Remove(bottom, t), Remove(list, t), tick, now,
                    early)
  {
    var timers' := timers[t := timers[t].(activated := false)];
    forall u | u in timers' ensures Synced(timers', expiry, u) {
      assert Synced(timers, expiry, u);
    }
    forall u | u in Remove(bottom, t) ensures Timely(expiry, now, early, u) {
      assert u in bottom && Timely(expiry, now, early, u);
    }
    forall u | u in timers' ensures FlagOk(timers', Remove(bottom, t), Remove(list, t), u) {
      assert FlagOk(timers, bottom, list, u);
    }
  }

  lemma TimedPending(timers: map<TimerId, Timer>, expiry: map<TimerId, int>, bottom: Row, list: seq<TimerId>,
                     tick: nat, now: int, early: nat, t: TimerId)
    requires Pending(timers, expiry, bottom, list, tick, now, early) && t in timers && t !in bottom && t !in list
    ensures Timely(expiry[t := now + timers[t].initTick], now, 0, t)
    ensures Pending(timers[t := timers[t].(timeoutTick := (tick + timers[t].initTick) % WRAP)],
                    expiry[t := now + timers[t].initTick], bottom, list, tick, now, early)
  {
    var timers' := timers[t := timers[t].(timeoutTick := (tick + timers[t].initTick) % WRAP)];
    var expiry' := expiry[t := now + timers[t].initTick];
    TickAdd(now, timers[t].initTick);
    assert Synced(timers, expiry, t);
    forall u | u in timers' ensures Synced(timers', expiry', u) {
      assert Synced(timers, expiry, u);
    }
    forall u | u in bottom ensures Timely(expiry', now, early, u) {
      assert Timely(expiry, now, early, u);
    }
    forall u | u in timers' ensures FlagOk(timers', bottom, list, u) {
      assert FlagOk(timers, bottom, list, u);
    }
  }

  lemma InsertedPending(timers: map<TimerId, Timer>, expiry: map<TimerId, int>, bottom: Row, list: seq<TimerId>,
                        tick: nat, now: int, early: nat, t: TimerId)
    requires Pending(timers, expiry, bottom, list, tick, now, early) && t in timers && t !in list
    requires RowOk(expiry, bottom) && Timely(expiry, now, 0, t)
    ensures Pending(timers[t := timers[t].(activated := true)], expiry, Insert(expiry, bottom, t), list, tick, now,
                    early)
  {
    var timers' := timers[t := timers[t].(activated := true)];
    var bottom' := Insert(expiry, bottom, t);
    InsertAscending(expiry, bottom, t);
    forall u | u in timers' ensures Synced(timers', expiry, u) {
      assert Synced(timers, expiry, u);
    }
    forall u | u in bottom' ensures Timely(expiry, now, early, u) {
      assert u in bottom ==> Timely(expiry, now, early, u);
    }
    forall u | u in timers' ensures FlagOk(timers', bottom', list, u) {
      assert FlagOk(timers, bottom, list, u);
    }
  }

  class TimerList {
    const levels: nat                      // RT_TIMER_SKIP_LIST_LEVEL
    const mask: nat                        // RT_TIMER_SKIP_LIST_MASK
    const rows: array<Row>                 // _timer_list; the last row holds every pending timer
    var timers: map<TimerId, Timer>
    var tick: nat                          // rt_tick
    var randomNr: nat
    var list: seq<TimerId>                 // the local list of rt_timer_check: the timer whose callback runs
    ghost var now: int                     // true time, of which tick is the low 32 bits
    ghost var expiry: map<TimerId, int>    // true time at which each timer is due

    ghost predicate Shape()
      reads this
    {
      0 < levels == rows.Length && (mask == 1 || mask == 3)
    }

    function Bottom(): Row
      requires rows.Length > 0
      reads this, rows
    {
      rows[rows.Length - 1]
    }

    ghost predicate Between(early: nat)
      reads this, rows
    {
      && Shape() && randomNr < WRAP
      && RowsOk(expiry, rows[..])
      && Pending(timers, expiry, Bottom(), list, tick, now, early)
    }

    /** Between ticks: the list is in order, nothing is overdue and no callback runs. */
    ghost predicate Valid()
      reads this, rows
    {
      Between(0) && list == []
    }

    ghost function Now(): Snap
      requires rows.Length > 0
      reads this, rows
    {
      Snap(timers, expiry, Bottom(), list)
    }

    lemma NowWellFormed()
      requires Between(1)
      ensures WellFormed(Now())
    {
    }

    constructor (levels: nat, mask: nat, initTicks: map<TimerId, nat>, periodics: set<TimerId>)
      requires levels > 0 && (mask == 1 || mask == 3)
      requires forall t :: t in initTicks ==> initTicks[t] < HALF
      ensures Valid() && fresh(rows) && timers.Keys == initTicks.Keys && Bottom() == [] && now == 0
      ensures this.levels == levels && this.mask == mask
      ensures forall t {:trigger timers[t]} :: t in initTicks ==>
                timers[t] == Timer(0, initTicks[t], false, t in periodics)
    {
      this.levels, this.mask := levels, mask;
      rows := new Row[levels](_ => []);
      timers := map t | t in initTicks :: Timer(0, initTicks[t], false, t in periodics);
      tick, randomNr, list := 0, 0, [];
      now, expiry := 0, map t | t in initTicks :: 0;
      new;
      assert Tick(0) == 0;
    }

    /** _timer_remove: a timer is on no list afterwards, be it the skip list or the local list of rt_timer_check. */
    method RemoveTimer(t: TimerId)
      requires rows.Length > 0 && RowsOk(expiry, rows[..])
      modifies this`list, rows
      ensures RowsOk(expiry, rows[..])
      ensures forall l :: 0 <= l < rows.Length ==> rows[l] == Remove(old(rows[l]), t)
      ensures list == Remove(old(list), t)
    {
      list := Remove(list, t);
      ghost var before := rows[..];
      for i := 0 to rows.Length
        invariant list == Remove(old(list), t)
        invariant forall l :: 0 <= l < i ==> rows[l] == Remove(before[l], t)
        invariant forall l :: i <= l < rows.Length ==> rows[l] == before[l]
      {
        rows[i] := Remove(rows[i], t);
      }
      RemoveRows(expiry, before, rows[..], t);
    }

    /** The search of rt_timer_start: in every row, the number of timers that expire no later than t. */
    method FindPlaces(t: TimerId) returns (heads: array<nat>)
      requires Between(1) && t in timers && Timely(expiry, now, 0, t)
      ensures fresh(heads) && heads.Length == rows.Length
      ensures forall l :: 0 <= l < rows.Length ==> IsPlace(expiry, rows[l], t, heads[l])
    {
      heads := new nat[rows.Length](_ => 0);
      var position: nat := 0;
      assert RowOk(expiry, rows[..][0]);
      for level := 0 to rows.Length
        invariant position == 0 || level < rows.Length
        invariant level < rows.Length ==> AllUpTo(expiry, rows[level], t, position)
        invariant forall l :: 0 <= l < level ==> IsPlace(expiry, rows[l], t, heads[l])
      {
        position := WalkRow(level, t, position);
        heads[level] := position;
        if level != rows.Length - 1 {
          position := Descend(level, t, position);
        } else {
          position := 0;
        }
      }
    }

    /** One row of the search, from a place that is not too far. */
    method WalkRow(level: nat, t: TimerId, from: nat) returns (position: nat)
      requires Between(1) && level < rows.Length && t in timers && Timely(expiry, now, 0, t)
      requires AllUpTo(expiry, rows[level], t, from)
      ensures IsPlace(expiry, rows[level], t, position)
    {
      position := from;
      var row := rows[level];
      while position != |row|
        invariant AllUpTo(expiry, row, t, position)
        decreases |row| - position
      {
        var p := row[position];
        assert p in row;
        UpperInLower(expiry, rows[..], level, p);
        assert Timely(expiry, now, 1, p) && Synced(timers, expiry, p) && Synced(timers, expiry, t);
        WrappedOrder(expiry[p], expiry[t]);
        if Minus(timers[p].timeoutTick, timers[t].timeoutTick) == 0 {
          position := position + 1;
          continue;
        } else if Minus(timers[p].timeoutTick, timers[t].timeoutTick) < HALF {
          break;
        }
        position := position + 1;
      }
    }

    /** The same timer one row down, or that row's head. */
    method Descend(level: nat, t: TimerId, position: nat) returns (below: nat)
      requires Between(1) && level + 1 < rows.Length && t in timers && AllUpTo(expiry, rows[level], t, position)
      ensures AllUpTo(expiry, rows[level + 1], t, below)
    {
      if position == 0 {
        return 0;
      }
      var x := rows[level][position - 1];
      assert x in rows[level];
      assert Nested(rows[..], level) && RowOk(expiry, rows[..][level + 1]);
      SubsequenceMembers(rows[level], rows[level + 1]);
      below := IndexOf(rows[level + 1], x) + 1;
    }

    /** The insertions of rt_timer_start: the bottom row, and as many rows above it as the counter says. */
    method InsertTimer(t: TimerId, heads: array<nat>)
      requires rows.Length == levels > 0 && (mask == 1 || mask == 3) && randomNr < WRAP
      requires heads.Length == levels && RowsOk(expiry, rows[..]) && t in expiry
      requires forall l :: 0 <= l < levels ==> t !in rows[l] && IsPlace(expiry, rows[l], t, heads[l])
      modifies this`randomNr, rows
      ensures RowsOk(expiry, rows[..])
      ensures Known(expiry, old(Bottom())) && Bottom() == Insert(expiry, old(Bottom()), t)
      ensures randomNr == (old(randomNr) + 1) % 0x1_0000_0000
      ensures forall l: nat {:trigger rows[l]} :: l < levels ==>
                (t in rows[l] <==> levels - 1 - l <= Height(randomNr, mask + 1, levels - 1))
    {
      ghost var before := rows[..];
      randomNr := (randomNr + 1) % 0x1_0000_0000;
      InsertReady(before, t, heads);
      hide Insert, RowsOk, Stands, IsPlace;
      var row, place := rows[levels - 1], heads[levels - 1];
      rows[levels - 1] := row[..place] + [t] + row[place..];
      var from := InsertAbove(t, heads, before);
      InsertRows(expiry, before, rows[..], t, from);
      InsertedMembers(expiry, before, rows[..], t, from);
    }

    lemma InsertReady(before: seq<Row>, t: TimerId, heads: array<nat>)
      requires before == rows[..] && heads.Length == |before| && RowsOk(expiry, before) && t in expiry
      requires forall l :: 0 <= l < |before| ==> IsPlace(expiry, before[l], t, heads[l])
      ensures forall l {:trigger before[l]} :: 0 <= l < |before| ==>
                && Known(expiry, before[l]) && heads[l] <= |before[l]|
                && Insert(expiry, before[l], t) == before[l][..heads[l]] + [t] + before[l][heads[l]..]
    {
      forall l {:trigger before[l]} | 0 <= l < |before|
        ensures && Known(expiry, before[l]) && heads[l] <= |before[l]|
                && Insert(expiry, before[l], t) == before[l][..heads[l]] + [t] + before[l][heads[l]..]
      {
        assert IsPlace(expiry, before[l], t, heads[l]);
        InsertIs(expiry, before[l], t, heads[l]);
      }
    }

    /** The rows above the lowest, as many as the counter says. */
    method InsertAbove(t: TimerId, heads: array<nat>, ghost before: seq<Row>) returns (ghost from: nat)
      requires rows.Length == levels == heads.Length > 0 && (mask == 1 || mask == 3) && randomNr < WRAP
      requires t in expiry && InsertedFrom(expiry, before, rows[..], t, levels - 1)
      requires forall l {:trigger before[l]} :: 0 <= l < |before| ==>
                 && Known(expiry, before[l]) && heads[l] <= |before[l]|
                 && Insert(expiry, before[l], t) == before[l][..heads[l]] + [t] + before[l][heads[l]..]
      modifies rows
      ensures from == levels - 1 - Height(randomNr, mask + 1, levels - 1)
      ensures InsertedFrom(expiry, before, rows[..], t, from)
    {
      hide Insert, Height, Known;
      var tst: nat := randomNr;
      var rowLvl := 2;
      while rowLvl <= levels && tst % (mask + 1) == 0
        invariant 2 <= rowLvl <= levels + 1
        invariant Height(randomNr, mask + 1, levels - 1) == rowLvl - 2 + Height(tst, mask + 1, levels + 1 - rowLvl)
        invariant InsertedFrom(expiry, before, rows[..], t, levels - rowLvl + 1)
      {
        HeightStep(tst, mask + 1, levels + 1 - rowLvl);
        assert rows[levels - rowLvl] == before[levels - rowLvl];
        var row, place := rows[levels - rowLvl], heads[levels - rowLvl];
        rows[levels - rowLvl] := row[..place] + [t] + row[place..];
        tst := tst / (mask + 1);
        rowLvl := rowLvl + 1;
      }
      HeightStep(tst, mask + 1, levels + 1 - rowLvl);
      from := levels - rowLvl + 1;
    }

    /** rt_timer_start of a hard timer. */
    method StartTimer(t: TimerId)
      requires Between(1) && t in timers
      modifies this`timers, this`expiry, this`randomNr, this`list, rows
      ensures Between(1)
      ensures expiry == old(expiry)[t := now + old(timers[t]).initTick]
      ensures RowOk(expiry, Remove(old(Bottom()), t))
      ensures Bottom() == Insert(expiry, Remove(old(Bottom()), t), t)
      ensures exists i: nat :: Stands(expiry, Remove(old(Bottom()), t), Bottom(), t, i)
      // the counter goes on by one, and its zeros to base 2 or 4 say how many rows above the lowest the timer gets into
      ensures randomNr == (old(randomNr) + 1) % 0x1_0000_0000
      ensures forall l: nat {:trigger rows[l]} :: l < levels ==>
                (t in rows[l] <==> levels - 1 - l <= Height(randomNr, mask + 1, levels - 1))
      ensures timers == old(timers)[t := old(timers[t]).(timeoutTick := Tick(expiry[t]), activated := true)]
      ensures list == Remove(old(list), t)
      ensures WellFormed(old(Now())) && Now() == Started(old(Now()), now, t)
    {
      hide Pending, RowsOk, RowOk, Insert, Timely, WellFormed, Started, IsPlace, Remove, Tick;
      ghost var s := Now();
      NowWellFormed();
      SetTimeout(t);
      var heads := FindPlaces(t);
      InsertedPending(timers, expiry, Bottom(), list, tick, now, 1, t);
      InsertTimer(t, heads);
      timers := timers[t := timers[t].(activated := true)];
      StartedIs(s, Now(), now, t);
      StandsThere(s.bottom, t);
    }

    lemma StandsThere(row: Row, t: TimerId)
      requires t in expiry && RowOk(expiry, Remove(row, t))
      ensures exists i: nat :: Stands(expiry, Remove(row, t), Insert(expiry, Remove(row, t), t), t, i)
    {
      var i := InsertStands(expiry, Remove(row, t), t);
    }

    /** The part of rt_timer_start before the search: t is on no list and knows its new timeout. */
    method SetTimeout(t: TimerId)
      requires Between(1) && t in timers
      modifies this`timers, this`expiry, this`list, rows
      ensures Between(1) && Timely(expiry, now, 0, t) && RowOk(expiry, Bottom())
      ensures expiry == old(expiry)[t := now + old(timers[t]).initTick]
      ensures forall l :: 0 <= l < rows.Length ==> t !in rows[l]
      ensures Bottom() == Remove(old(Bottom()), t)
      ensures timers == old(timers)[t := old(timers[t]).(timeoutTick := Tick(expiry[t]), activated := false)]
      ensures list == Remove(old(list), t)
    {
      RemovedPending(timers, expiry, Bottom(), list, tick, now, 1, t);
      TimedPending(timers[t := timers[t].(activated := false)], expiry, Remove(Bottom(), t), Remove(list, t), tick,
                   now, 1, t);
      TickAdd(now, timers[t].initTick);
      assert tick == Tick(now);
      hide Pending, RowsOk;
      RemoveTimer(t);
      timers := timers[t := timers[t].(activated := false)];
      ghost var e := now + timers[t].initTick;
      timers := timers[t := timers[t].(timeoutTick := (tick + timers[t].initTick) % WRAP)];
      RowsIgnore(expiry, rows[..], t, e);
      expiry := expiry[t := e];
      BottomOk(expiry, rows[..]);
    }

    /** rt_timer_stop */
    method StopTimer(t: TimerId) returns (ok: bool)
      requires Between(1) && t in timers
      modifies this`timers, this`list, rows
      ensures Between(1)
      ensures ok <==> old(timers[t]).activated
      ensures !ok ==> timers == old(timers) && Bottom() == old(Bottom()) && list == old(list)
      ensures ok ==> timers == old(timers)[t := old(timers[t]).(activated := false)]
                     && Bottom() == Remove(old(Bottom()), t) && list == Remove(old(list), t)
      ensures WellFormed(old(Now())) && Now() == Stopped(old(Now()), t)
    {
      NowWellFormed();
      if !timers[t].activated {
        return false;
      }
      RemovedPending(timers, expiry, Bottom(), list, tick, now, 1, t);
      hide Pending, RowsOk;
      RemoveTimer(t);
      timers := timers[t := timers[t].(activated := false)];
      ok := true;
    }

    /** The timeout function of timer c runs. */
    method RunCallback(c: TimerId, callbacks: Callbacks, ghost s0: Snap, ghost before: set<TimerId>, ghost k: nat)
      returns (ghost touched: set<TimerId>)
      requires Between(1) && Lively(timers, callbacks) && Progress(s0, Now(), now, before, k)
      modifies this`timers, this`expiry, this`randomNr, this`list, rows
      ensures Between(1) && Lively(timers, callbacks) && Progress(s0, Now(), now, touched, k)
      ensures WellFormed(old(Now())) && AllKnown(old(timers), OpsOf(callbacks, c))
      ensures Now() == AfterOps(old(Now()), now, OpsOf(callbacks, c))
      ensures touched == before + Touches(OpsOf(callbacks, c))
    {
      hide Pending, RowsOk, Progress, Lively, WellFormed, AfterOp, AfterOps, Touches, SameConfig;
      ghost var s := Now();
      NowWellFormed();
      OpsLively(timers, callbacks, c);
      AfterNoOps(s, now);
      touched := before;
      var ops := if c in callbacks then callbacks[c] else [];
      for i := 0 to |ops|
        invariant Between(1) && Lively(timers, callbacks) && Progress(s0, Now(), now, touched, k)
        invariant SameConfig(s.timers, timers) && Now() == AfterOps(s, now, ops[..i])
        invariant touched == before + Touches(ops[..i])
      {
        OpsLively(timers, callbacks, c);
        AfterOpsNext(s, now, ops, i);
        touched := RunOp(ops[i], callbacks, s0, touched, k);
      }
      assert ops[..|ops|] == ops;
    }

    /** One start or stop made by a callback. */
    method RunOp(op: Op, ghost callbacks: Callbacks, ghost s0: Snap, ghost before: set<TimerId>, ghost k: nat)
      returns (ghost touched: set<TimerId>)
      requires Between(1) && Lively(timers, callbacks) && Progress(s0, Now(), now, before, k)
      requires op.timer in timers && (op.Start? ==> timers[op.timer].initTick >= 1)
      modifies this`timers, this`expiry, this`randomNr, this`list, rows
      ensures Between(1) && Lively(timers, callbacks) && Progress(s0, Now(), now, touched, k)
      ensures WellFormed(old(Now())) && Now() == AfterOp(old(Now()), now, op) && SameConfig(old(timers), timers)
      ensures touched == before + {op.timer}
    {
      ghost var s := Now();
      NowWellFormed();
      PendingFacts(timers, expiry, Bottom(), list, tick, now, 1, op.timer);
      OpStep(s0, s, now, before, k, op);
      hide Pending, RowsOk, Progress, Lively, WellFormed, Started, Stopped;
      match op {
        case Start(u) =>
          StartTimer(u);
        case Stop(u) =>
          var ok := StopTimer(u);
      }
      LivelySame(s.timers, timers, callbacks);
      touched := before + {op.timer};
    }

    /** The due timer at the head leaves the skip list; a one-shot timer is no longer active. */
    method TakeOff(t: TimerId)
      requires Between(1) && list == [] && Bottom() != [] && t == Bottom()[0]
      modifies this`timers, this`list, rows
      ensures Between(1) && list == [t] && Bottom() == old(Bottom())[1..] && t in timers
      ensures WellFormed(old(Now())) && Now() == TakenOff(old(Now()), t) && SameConfig(old(timers), timers)
    {
      NowWellFormed();
      BottomOk(expiry, rows[..]);
      OffPending(timers, expiry, Bottom(), tick, now, 1);
      assert Remove(Bottom(), t) == Bottom()[1..] by {
        RemoveSplits(Bottom(), t, 0);
      }
      hide Pending, RowsOk;
      RemoveTimer(t);
      if !timers[t].periodic {
        timers := timers[t := timers[t].(activated := false)];
      }
      list := [t];
    }

    /** After its callback: the timer leaves the local list and is started again if periodic. */
    method Finish(t: TimerId)
      requires Between(1) && list == [t] && t in timers
      modifies this`timers, this`expiry, this`randomNr, this`list, rows
      ensures Between(1) && list == []
      ensures WellFormed(old(Now())) && Now() == PutBack(old(Now()), now, t)
    {
      NowWellFormed();
      EndPending(timers, expiry, Bottom(), tick, now, 1, t);
      hide Pending, RowsOk, WellFormed, PutBack, Started;
      ghost var s := Now();
      list := Remove(list, t);
      if timers[t].periodic && timers[t].activated {
        timers := timers[t := timers[t].(activated := false)];
        StartTimer(t);
      }
      PutBackIs(s, now, t);
    }

    /** One round of rt_timer_check for a due timer at the head. */
    method FireHead(t: TimerId, callbacks: Callbacks, ghost s0: Snap, ghost before: set<TimerId>, ghost k: nat)
        returns (ghost touched: set<TimerId>, ghost k': nat)
      requires Between(1) && Lively(timers, callbacks) && Progress(s0, Now(), now, before, k)
      requires list == [] && Bottom() != [] && t == Bottom()[0] && t in expiry && expiry[t] <= now && t in timers
      modifies this`timers, this`expiry, this`randomNr, this`list, rows
      ensures Between(1) && Lively(timers, callbacks) && Progress(s0, Now(), now, touched, k') && list == []
      ensures WellFormed(old(Now())) && AllKnown(old(timers), OpsOf(callbacks, t))
      ensures Now() == AfterRun(old(Now()), now, callbacks, t)
      ensures touched == before + Touches(OpsOf(callbacks, t))
      ensures WellFormed(s0)
      ensures var due := DuePart(s0.expiry, s0.bottom, now);
              && k < k' <= |due| && due[k' - 1] == t && t !in before
              && forall i :: k <= i < k' - 1 ==> due[i] in before
    {
      hide Pending, RowsOk, Progress, Lively, DuePart, WellFormed, AfterOps, TakenOff, PutBack;
      ghost var s := Now();
      NowWellFormed();
      ProgressFacts(s0, s, now, before, k);
      k' := FireStep(s0, s, now, before, k);
      TakeOff(t);
      LivelySame(s.timers, timers, callbacks);
      ghost var s1 := Now();
      touched := RunCallback(t, callbacks, s0, before, k');
      OpsList(s1, now, OpsOf(callbacks, t), t);
      LivelySame(s1.timers, timers, callbacks);
      if list == [] {
        PutBackNone(Now(), now, t);
        return;
      }
      Restart(t, callbacks, s0, touched, k');
    }

    /** What follows a callback that has neither started nor stopped its own timer. */
    method Restart(t: TimerId, ghost callbacks: Callbacks, ghost s0: Snap, ghost touched: set<TimerId>, ghost k: nat)
      requires Between(1) && Lively(timers, callbacks) && Progress(s0, Now(), now, touched, k) && list == [t]
      modifies this`timers, this`expiry, this`randomNr, this`list, rows
      ensures Between(1) && Lively(timers, callbacks) && Progress(s0, Now(), now, touched, k) && list == []
      ensures t in old(timers) && WellFormed(old(Now())) && Now() == PutBack(old(Now()), now, t)
    {
      ghost var s := Now();
      assert t in list && t in timers && FlagOk(timers, Bottom(), list, t);
      PutBackStep(s0, s, now, touched, k, t);
      hide Pending, RowsOk, Progress, Lively, PutBack;
      Finish(t);
      LivelySame(s.timers, timers, callbacks);
    }

    /**
     * rt_timer_check, called in the tick interrupt: which timers run in which order, and the state they leave, are
     * exactly what the callbacks and the timers due at the beginning say.
     */
    method Check(callbacks: Callbacks) returns (ghost fired: seq<TimerId>)
      requires Between(1) && list == [] && Lively(timers, callbacks)
      modifies this`timers, this`expiry, this`randomNr, this`list, rows
      ensures Valid() && Lively(timers, callbacks)
      ensures Checked(old(Now()), Now(), now, callbacks, fired)
      ensures forall t :: t in Bottom() ==> t in expiry && now < expiry[t]
    {
      hide Pending, RowsOk, Progress, Lively, DuePart, Logged, TouchedBy, WellFormed, Checked;
      ghost var s0, k, touched := Now(), 0, {};
      NowFlagsOk();
      BottomOk(expiry, rows[..]);
      NowWellFormed();
      ProgressStart(s0, now, callbacks);
      fired := [];
      var currentTick := tick;
      while rows[levels - 1] != []
        invariant Between(1) && Lively(timers, callbacks) && Progress(s0, Now(), now, touched, k)
        invariant list == [] && currentTick == tick && touched == TouchedBy(callbacks, fired)
        invariant Logged(s0, Now(), now, callbacks, fired, k) && k <= |DuePart(s0.expiry, s0.bottom, now)|
        decreases |DuePart(s0.expiry, s0.bottom, now)| - k
      {
        var t := rows[levels - 1][0];
        HeadFacts(timers, expiry, Bottom(), tick, now);
        if Minus(currentTick, timers[t].timeoutTick) < HALF {
          touched, k, fired := FireNext(t, callbacks, s0, fired, k);
          currentTick := tick;
        } else {
          break;
        }
      }
      BottomOk(expiry, rows[..]);
      CheckDone(timers, expiry, Bottom(), tick, now);
      ProgressEnd(s0, Now(), now, callbacks, fired, k);
    }

    /** One round, with the log of the check. */
    method FireNext(t: TimerId, callbacks: Callbacks, ghost s0: Snap, ghost before: seq<TimerId>, ghost k: nat)
      returns (ghost touched: set<TimerId>, ghost k': nat, ghost fired: seq<TimerId>)
      requires Between(1) && Lively(timers, callbacks) && Progress(s0, Now(), now, TouchedBy(callbacks, before), k)
      requires Logged(s0, Now(), now, callbacks, before, k)
      requires list == [] && Bottom() != [] && t == Bottom()[0] && t in expiry && expiry[t] <= now && t in timers
      modifies this`timers, this`expiry, this`randomNr, this`list, rows
      ensures Between(1) && Lively(timers, callbacks) && Progress(s0, Now(), now, touched, k') && list == []
      ensures touched == TouchedBy(callbacks, fired) && Logged(s0, Now(), now, callbacks, fired, k')
      ensures WellFormed(s0) && k < k' <= |DuePart(s0.expiry, s0.bottom, now)|
    {
      hide Pending, RowsOk, Progress, Lively, DuePart, Logged, TouchedBy, WellFormed, AfterRun;
      ghost var s := Now();
      touched, k' := FireHead(t, callbacks, s0, TouchedBy(callbacks, before), k);
      LogStep(s0, s, now, callbacks, before, k, t, k');
      TouchedNext(callbacks, before, t);
      fired := before + [t];
    }

    lemma NowFlagsOk()
      requires Between(1)
      ensures FlagsOk(Now())
    {
    }

    /** The tick moves on by one, wrapping; what was due next is at most one tick overdue. */
    method Advance()
      requires Valid()
      modifies this`tick, this`now
      ensures Between(1) && list == [] && now == old(now) + 1 && tick == (old(tick) + 1) % WRAP == Tick(now)
      ensures tick == if old(tick) == 0xFFFF_FFFF then 0 else old(tick) + 1
      ensures Now() == old(Now())
    {
      NextPending(timers, expiry, Bottom(), tick, now);
      hide Pending, RowsOk;
      tick := (tick + 1) % WRAP;
      now := now + 1;
    }
  }

  lemma StartedIs(s: Snap, s': Snap, now: int, t: TimerId)
    requires WellFormed(s) && t in s.timers
    requires s'.expiry == s.expiry[t := now + s.timers[t].initTick] && RowOk(s'.expiry, Remove(s.bottom, t))
    requires s'.bottom == Insert(s'.expiry, Remove(s.bottom, t), t) && s'.list == Remove(s.list, t)
    requires s'.timers == s.timers[t := s.timers[t].(timeoutTick := Tick(s'.expiry[t]), activated := true)]
    ensures s' == Started(s, now, t)
  {
    hide WellFormed, SameConfig, Known, Ascending, Insert, Remove, Tick;
    var e := s.expiry[t := now + s.timers[t].initTick];
    assert s'.expiry == e;
    assert e[t] == now + s.timers[t].initTick;
  }

  /** Starting does not look at the flag of the timer. */
  lemma PutBackIs(s: Snap, now: int, t: TimerId)
    requires WellFormed(s) && t in s.timers && s.list == [t]
    ensures var s' := s.(list := Remove(s.list, t), timers := s.timers[t := s.timers[t].(activated := false)]);
            && WellFormed(s')
            && PutBack(s, now, t)
               == if s.timers[t].periodic && s.timers[t].activated then Started(s', now, t)
                  else s.(list := Remove(s.list, t))
  {
    hide RowOk, SameConfig, Known, Ascending, Insert, Tick;
    var off := s.timers[t := s.timers[t].(activated := false)];
    var e := s.expiry[t := now + s.timers[t].initTick];
    var on := s.timers[t].(timeoutTick := Tick(e[t]), activated := true);
    assert off[t := on] == s.timers[t := on];
  }

  lemma OffPending(timers: map<TimerId, Timer>, expiry: map<TimerId, int>, bottom: Row, tick: nat, now: int, early: nat)
    requires Pending(timers, expiry, bottom, [], tick, now, early) && bottom != []
    ensures var t := bottom[0];
            && t in timers
            && Pending(if timers[t].periodic then timers else timers[t := timers[t].(activated := false)],
                       expiry, Remove(bottom, t), [t], tick, now, early)
  {
    var t := bottom[0];
    assert Timely(expiry, now, early, t) && FlagOk(timers, bottom, [], t);
    var timers' := if timers[t].periodic then timers else timers[t := timers[t].(activated := false)];
    forall u | u in timers' ensures Synced(timers', expiry, u) {
      assert Synced(timers, expiry, u);
    }
    forall u | u in Remove(bottom, t) ensures Timely(expiry, now, early, u) {
      assert u in bottom && Timely(expiry, now, early, u);
    }
    forall u | u in timers' ensures FlagOk(timers', Remove(bottom, t), [t], u) {
      assert FlagOk(timers, bottom, [], u);
    }
  }

  lemma EndPending(timers: map<TimerId, Timer>, expiry: map<TimerId, int>, bottom: Row, tick: nat, now: int,
                   early: nat, t: TimerId)
    requires Pending(timers, expiry, bottom, [t], tick, now, early) && t in timers
    ensures t !in bottom && timers[t].activated == timers[t].periodic
    ensures Pending(timers[t := timers[t].(activated := false)], expiry, bottom, [], tick, now, early)
    ensures !timers[t].periodic ==> timers[t := timers[t].(activated := false)] == timers
    ensures Remove([t], t) == []
    ensures Remove(bottom, t) == bottom
  {
    assert FlagOk(timers, bottom, [t], t);
    var timers' := timers[t := timers[t].(activated := false)];
    forall u | u in timers' ensures Synced(timers', expiry, u) {
      assert Synced(timers, expiry, u);
    }
    forall u | u in timers' ensures FlagOk(timers', bottom, [], u) {
      assert FlagOk(timers, bottom, [t], u);
    }
  }

  /** The test on wrapped ticks tells exactly whether the head is due. */
  lemma HeadFacts(timers: map<TimerId, Timer>, expiry: map<TimerId, int>, bottom: Row, tick: nat, now: int)
    requires Pending(timers, expiry, bottom, [], tick, now, 1) && bottom != []
    ensures var t := bottom[0];
            && t in timers && t in expiry && tick < WRAP && timers[t].timeoutTick < WRAP
            && (Minus(tick, timers[t].timeoutTick) < HALF <==> expiry[t] <= now)
  {
    var t := bottom[0];
    assert Timely(expiry, now, 1, t) && Synced(timers, expiry, t);
    WrappedOrder(now, expiry[t]);
  }

  lemma CheckDone(timers: map<TimerId, Timer>, expiry: map<TimerId, int>, bottom: Row, tick: nat, now: int)
    requires Pending(timers, expiry, bottom, [], tick, now, 1) && RowOk(expiry, bottom)
    requires bottom == [] || now < expiry[bottom[0]]
    ensures Pending(timers, expiry, bottom, [], tick, now, 0)
    ensures forall t :: t in bottom ==> t in expiry && now < expiry[t]
  {
    DueFirst(expiry, bottom, now);
    forall t | t in bottom ensures Timely(expiry, now, 0, t) {
      assert Timely(expiry, now, 1, t);
    }
  }

  lemma NextPending(timers: map<TimerId, Timer>, expiry: map<TimerId, int>, bottom: Row, tick: nat, now: int)
    requires Pending(timers, expiry, bottom, [], tick, now, 0)
    ensures Pending(timers, expiry, bottom, [], (tick + 1) % WRAP, now + 1, 1)
  {
    TickAdd(now, 1);
    forall t | t in bottom ensures Timely(expiry, now + 1, 1, t) {
      assert Timely(expiry, now, 0, t);
    }
  }

  lemma PendingFacts(timers: map<TimerId, Timer>, expiry: map<TimerId, int>, bottom: Row, list: seq<TimerId>,
                     tick: nat, now: int, early: nat, t: TimerId)
    requires Pending(timers, expiry, bottom, list, tick, now, early) && t in timers
    ensures expiry.Keys == timers.Keys
    ensures !timers[t].activated ==> t !in bottom
    ensures |list| <= 1
  {
    assert FlagOk(timers, bottom, list, t);
  }

  lemma BottomOk(expiry: map<TimerId, int>, rows: seq<Row>)
    requires RowsOk(expiry, rows)
    ensures RowOk(expiry, rows[|rows| - 1])
  {
  }

  /** The first i timers of the row expire no later than t. */
  ghost predicate AllUpTo(expiry: map<TimerId, int>, row: Row, t: TimerId, i: nat) {
    Known(expiry, row) && t in expiry && i <= |row| && forall j :: 0 <= j < i ==> expiry[row[j]] <= expiry[t]
  }

  /** t belongs behind the first i timers of the row. */
  ghost predicate IsPlace(expiry: map<TimerId, int>, row: Row, t: TimerId, i: nat) {
    AllUpTo(expiry, row, t, i) && (i < |row| ==> expiry[t] < expiry[row[i]])
  }

  lemma RemoveRows(expiry: map<TimerId, int>, rows: seq<Row>, rows': seq<Row>, t: TimerId)
    requires RowsOk(expiry, rows) && |rows'| == |rows|
    requires forall l :: 0 <= l < |rows| ==> rows'[l] == Remove(rows[l], t)
    ensures RowsOk(expiry, rows')
  {
    forall l | 0 <= l < |rows| ensures RowOk(expiry, rows'[l]) {
      assert RowOk(expiry, rows[l]);
      RemoveRowOk(expiry, rows[l], t);
    }
    forall l | 0 <= l < |rows| - 1 ensures Nested(rows', l) {
      assert Nested(rows, l);
      assert RowOk(expiry, rows[l]) && RowOk(expiry, rows[l + 1]);
      RemoveSubsequence(rows[l], rows[l + 1], t);
    }
  }

  lemma TickAdd(now: int, d: nat)
    ensures (Tick(now) + d) % WRAP == Tick(now + d)
  {
    var k := now / WRAP;
    assert Tick(now) + d == now + d - k * WRAP;
    ModShift(now + d, k);
  }

  lemma ModShift(x: int, k: int)
    ensures (x - k * WRAP) % WRAP == x % WRAP
  {
    var q := x / WRAP;
    assert x == q * WRAP + x % WRAP;
    assert x - k * WRAP == (q - k) * WRAP + x % WRAP;
  }

  lemma RowsIgnore(expiry: map<TimerId, int>, rows: seq<Row>, t: TimerId, e: int)
    requires RowsOk(expiry, rows) && forall l :: 0 <= l < |rows| ==> t !in rows[l]
    ensures RowsOk(expiry[t := e], rows)
  {
    forall l | 0 <= l < |rows| ensures RowOk(expiry[t := e], rows[l]) {
      assert RowOk(expiry, rows[l]);
      RowIgnores(expiry, rows[l], t, e);
    }
    forall l | 0 <= l < |rows| - 1 ensures Nested(rows, l) {
    }
  }

  /** t has been inserted into the rows from the given one down. */
  ghost predicate InsertedFrom(expiry: map<TimerId, int>, rows: seq<Row>, rows': seq<Row>, t: TimerId, from: int) {
    && |rows'| == |rows| && t in expiry && (forall l :: 0 <= l < |rows| ==> Known(expiry, rows[l]))
    && forall l {:trigger rows'[l]} :: 0 <= l < |rows| ==>
         rows'[l] == if l < from then rows[l] else Insert(expiry, rows[l], t)
  }

  lemma InsertedMembers(expiry: map<TimerId, int>, rows: seq<Row>, rows': seq<Row>, t: TimerId, from: int)
    requires RowsOk(expiry, rows) && InsertedFrom(expiry, rows, rows', t, from)
    requires forall l :: 0 <= l < |rows| ==> t !in rows[l]
    ensures forall l {:trigger rows'[l]} :: 0 <= l < |rows| ==> (t in rows'[l] <==> l >= from)
  {
    forall l {:trigger rows'[l]} | 0 <= l < |rows| ensures t in rows'[l] <==> l >= from {
      assert RowOk(expiry, rows[l]);
      InsertAscending(expiry, rows[l], t);
    }
  }

  lemma InsertRows(expiry: map<TimerId, int>, rows: seq<Row>, rows': seq<Row>, t: TimerId, from: nat)
    requires RowsOk(expiry, rows) && from < |rows| && InsertedFrom(expiry, rows, rows', t, from)
    requires forall l :: 0 <= l < |rows| ==> t !in rows[l]
    ensures RowsOk(expiry, rows')
  {
    forall l | 0 <= l < |rows| ensures RowOk(expiry, rows'[l]) {
      assert RowOk(expiry, rows[l]);
      InsertRowOk(expiry, rows[l], t);
    }
    forall l | 0 <= l < |rows| - 1 ensures Nested(rows', l) {
      assert Nested(rows, l);
      assert RowOk(expiry, rows[l]) && RowOk(expiry, rows[l + 1]);
      InsertSubsequence(expiry, rows[l], rows[l + 1], t);
    }
  }
}
