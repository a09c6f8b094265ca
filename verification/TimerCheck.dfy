/** What one run of rt_timer_check does, step by step, on values. */
module TimerCheck {
  import opened Lists
  import opened TimerRows

  datatype Timer = Timer(timeoutTick: nat, initTick: nat, activated: bool, periodic: bool)

  /** What a timeout function may do to timers. */
  datatype Op = Start(timer: TimerId) | Stop(timer: TimerId)

  type Callbacks = map<TimerId, seq<Op>>

  function OpsOf(callbacks: Callbacks, t: TimerId): seq<Op> {
    if t in callbacks then callbacks[t] else []
  }

  /** The timers that operations name. */
  function Touches(ops: seq<Op>): set<TimerId> {
    if ops == [] then {} else Touches(ops[..|ops| - 1]) + {ops[|ops| - 1].timer}
  }

  /** The last of the operations that names t. */
  function LastOp(ops: seq<Op>, t: TimerId): (r: Option<Op>)
    ensures r.Some? <==> t in Touches(ops)
    ensures r.Some? ==> r.value.timer == t
  {
    if ops == [] then None
    else if ops[|ops| - 1].timer == t then Some(ops[|ops| - 1])
    else LastOp(ops[..|ops| - 1], t)
  }

  /** All operations of the callbacks that ran, in order. */
  function Done(callbacks: Callbacks, fired: seq<TimerId>): seq<Op> {
    if fired == [] then []
    else Done(callbacks, fired[..|fired| - 1]) + OpsOf(callbacks, fired[|fired| - 1])
  }

  /** All timers that the callbacks that ran have named. */
  function TouchedBy(callbacks: Callbacks, fired: seq<TimerId>): set<TimerId> {
    Touches(Done(callbacks, fired))
  }

  lemma {:induction false} TouchesConcat(a: seq<Op>, b: seq<Op>)
    ensures Touches(a + b) == Touches(a) + Touches(b)
    decreases |b|
  {
    if b == [] {
      assert a + b == a;
    } else {
      assert (a + b)[..|a + b| - 1] == a + b[..|b| - 1];
      TouchesConcat(a, b[..|b| - 1]);
    }
  }

  lemma {:induction false} LastOpConcat(a: seq<Op>, b: seq<Op>, t: TimerId)
    ensures LastOp(a + b, t) == if t in Touches(b) then LastOp(b, t) else LastOp(a, t)
    decreases |b|
  {
    if b == [] {
      assert a + b == a;
    } else {
      assert (a + b)[..|a + b| - 1] == a + b[..|b| - 1];
      LastOpConcat(a, b[..|b| - 1], t);
    }
  }

  lemma TouchedNext(callbacks: Callbacks, fired: seq<TimerId>, t: TimerId)
    ensures Done(callbacks, fired + [t]) == Done(callbacks, fired) + OpsOf(callbacks, t)
    ensures TouchedBy(callbacks, fired + [t]) == TouchedBy(callbacks, fired) + Touches(OpsOf(callbacks, t))
  {
    assert (fired + [t])[..|fired|] == fired;
    TouchesConcat(Done(callbacks, fired), OpsOf(callbacks, t));
  }

  /** Periodic timers and timers started by callbacks never have a zero period: the expiry loop then ends. */
  ghost predicate Lively(timers: map<TimerId, Timer>, callbacks: Callbacks) {
    && (forall t :: t in timers && timers[t].periodic ==> timers[t].initTick >= 1)
    && (forall t, i {:trigger callbacks[t][i]} :: t in callbacks && 0 <= i < |callbacks[t]| ==>
          callbacks[t][i].timer in timers && (callbacks[t][i].Start? ==> timers[callbacks[t][i].timer].initTick >= 1))
  }

  /** Only timers that exist are named. */
  ghost predicate AllKnown(timers: map<TimerId, Timer>, ops: seq<Op>) {
    forall i {:trigger ops[i]} :: 0 <= i < |ops| ==> ops[i].timer in timers
  }

  lemma OpsLively(timers: map<TimerId, Timer>, callbacks: Callbacks, c: TimerId)
    requires Lively(timers, callbacks)
    ensures var ops := OpsOf(callbacks, c);
            AllKnown(timers, ops)
            && forall i {:trigger ops[i]} :: 0 <= i < |ops| && ops[i].Start? ==> timers[ops[i].timer].initTick >= 1
  {
    var ops := OpsOf(callbacks, c);
    forall i | 0 <= i < |ops|
      ensures ops[i].timer in timers && (ops[i].Start? ==> timers[ops[i].timer].initTick >= 1)
    {
      assert callbacks[c][i] == ops[i];
    }
  }

  lemma LivelySame(a: map<TimerId, Timer>, b: map<TimerId, Timer>, callbacks: Callbacks)
    requires Lively(a, callbacks) && SameConfig(a, b)
    ensures Lively(b, callbacks)
  {
  }

  /** The parts of the state that matter: list is the local list of rt_timer_check. */
  datatype Snap = Snap(timers: map<TimerId, Timer>, expiry: map<TimerId, int>, bottom: Row, list: seq<TimerId>)

  ghost predicate WellFormed(s: Snap) {
    s.expiry.Keys == s.timers.Keys && RowOk(s.expiry, s.bottom)
  }

  /** Only timeouts and activation flags change. */
  ghost predicate SameConfig(a: map<TimerId, Timer>, b: map<TimerId, Timer>) {
    a.Keys == b.Keys && forall t {:trigger b[t]} :: t in a ==>
      b[t].initTick == a[t].initTick && b[t].periodic == a[t].periodic
  }

  // ---------------------------------------------------------------- which timers run

  /** Of the due timers, those that run: each in its turn, unless the callbacks that ran before have named it. */
  function RunOrder(callbacks: Callbacks, due: Row): Row {
    if due == [] then []
    else
      var t, ran := due[|due| - 1], RunOrder(callbacks, due[..|due| - 1]);
      if t in TouchedBy(callbacks, ran) then ran else ran + [t]
  }

  lemma {:induction false} RunOrderMembers(callbacks: Callbacks, due: Row)
    ensures |RunOrder(callbacks, due)| <= |due|
    ensures forall t :: t in RunOrder(callbacks, due) ==> t in due
  {
    hide TouchedBy;
    if due != [] {
      RunOrderMembers(callbacks, due[..|due| - 1]);
    }
  }

  /** A due timer runs if and only if no callback that ran before its turn has named it. */
  lemma {:induction false} RunsUnlessNamed(callbacks: Callbacks, due: Row, i: nat)
    requires NoDuplicates(due) && i < |due|
    ensures due[i] in RunOrder(callbacks, due) <==> due[i] !in TouchedBy(callbacks, RunOrder(callbacks, due[..i]))
  {
    hide TouchedBy;
    var n := |due| - 1;
    RunOrderMembers(callbacks, due[..n]);
    if i < n {
      RunsUnlessNamed(callbacks, due[..n], i);
      assert due[..n][..i] == due[..i];
      assert due[i] != due[n];
    } else {
      assert due[n] !in due[..n];
    }
  }

  /** The callback of a due timer names a later one. */
  ghost predicate Interferes(callbacks: Callbacks, due: Row, i: nat, j: nat) {
    i < j < |due| && due[j] in Touches(OpsOf(callbacks, due[i]))
  }

  /** All due timers run if and only if none is named by the callback of a due timer in front of it. */
  lemma {:induction false} AllRun(callbacks: Callbacks, due: Row)
    ensures RunOrder(callbacks, due) == due <==> forall i: nat, j: nat :: !Interferes(callbacks, due, i, j)
  {
    hide TouchedBy, Touches, OpsOf;
    if due != [] {
      var n := |due| - 1;
      var front := due[..n];
      assert due == front + [due[n]];
      AllRun(callbacks, front);
      RunOrderMembers(callbacks, front);
      TouchedIs(callbacks, front, due[n]);
      assert forall i: nat, j: nat :: Interferes(callbacks, front, i, j) ==> Interferes(callbacks, due, i, j);
      assert forall i: nat, j: nat :: Interferes(callbacks, due, i, j) ==>
               Interferes(callbacks, front, i, j) || (j == n && due[n] in Touches(OpsOf(callbacks, front[i])));
      assert forall i: nat :: i < n && due[n] in Touches(OpsOf(callbacks, front[i])) ==>
               Interferes(callbacks, due, i, n);
    }
  }

  lemma {:induction false} TouchedIs(callbacks: Callbacks, fired: seq<TimerId>, t: TimerId)
    ensures t in TouchedBy(callbacks, fired) <==>
              exists i :: 0 <= i < |fired| && t in Touches(OpsOf(callbacks, fired[i]))
  {
    if fired != [] {
      var n := |fired| - 1;
      assert fired == fired[..n] + [fired[n]];
      TouchedIs(callbacks, fired[..n], t);
      TouchedNext(callbacks, fired[..n], fired[n]);
    }
  }

  /** Two due timers, of which the first stops the second in time. */
  lemma StoppedInTime()
    ensures RunOrder(map[0 := [Stop(1)]], [0, 1]) == [0]
  {
    var callbacks: Callbacks := map[0 := [Stop(1)]];
    assert [0, 1][..1] == [0] && [0][..0] == [];
    TouchedNext(callbacks, [], 0);
    assert [] + [0] == [0] && [Stop(1)][..0] == [];
  }

  /** Due timers from k to n that have been named are passed over. */
  lemma {:induction false} RunOrderSkips(callbacks: Callbacks, due: Row, k: nat, n: nat)
    requires k <= n <= |due|
    requires forall i :: k <= i < n ==> due[i] in TouchedBy(callbacks, RunOrder(callbacks, due[..k]))
    ensures RunOrder(callbacks, due[..n]) == RunOrder(callbacks, due[..k])
    decreases n
  {
    if k < n {
      RunOrderSkips(callbacks, due, k, n - 1);
      assert due[..n][..n - 1] == due[..n - 1];
    }
  }

  /** What the outcome for each timer rests on: each timer that ran was pending, ran once, and was not named before. */
  ghost predicate Orderly(callbacks: Callbacks, fired: seq<TimerId>, bottom: Row) {
    && NoDuplicates(fired)
    && forall i {:trigger fired[i]} :: 0 <= i < |fired| ==>
         fired[i] in bottom && fired[i] !in TouchedBy(callbacks, fired[..i])
  }

  lemma {:induction false} RunOrderOrderly(callbacks: Callbacks, due: Row, bottom: Row)
    requires NoDuplicates(due) && forall t :: t in due ==> t in bottom
    ensures Orderly(callbacks, RunOrder(callbacks, due), bottom)
  {
    hide TouchedBy;
    if due != [] {
      var front, t := due[..|due| - 1], due[|due| - 1];
      RunOrderOrderly(callbacks, front, bottom);
      RunOrderMembers(callbacks, front);
      assert t !in front;
      OrderlyNext(callbacks, RunOrder(callbacks, front), t, bottom);
    }
  }

  lemma OrderlyNext(callbacks: Callbacks, fired: seq<TimerId>, t: TimerId, bottom: Row)
    requires Orderly(callbacks, fired, bottom) && t !in fired && t in bottom
    ensures t !in TouchedBy(callbacks, fired) ==> Orderly(callbacks, fired + [t], bottom)
  {
    hide TouchedBy;
    var r := fired + [t];
    forall i {:trigger r[i]} | 0 <= i < |r| && t !in TouchedBy(callbacks, fired)
      ensures r[i] in bottom && r[i] !in TouchedBy(callbacks, r[..i])
    {
      assert r[..i] == fired[..i];
      assert i == |fired| ==> fired[..i] == fired;
      assert i < |fired| ==> r[i] == fired[i];
    }
  }

  // ---------------------------------------------------------------- the state they leave

  lemma StartRow(s: Snap, now: int, u: TimerId)
    requires WellFormed(s) && u in s.timers
    ensures var e := s.expiry[u := now + s.timers[u].initTick];
            && RowOk(s.expiry, Remove(s.bottom, u)) && RowOk(e, Remove(s.bottom, u))
            && RowOk(e, Insert(e, Remove(s.bottom, u), u))
            && forall x :: x in Insert(e, Remove(s.bottom, u), u) <==> x == u || x in s.bottom
  {
    var e := s.expiry[u := now + s.timers[u].initTick];
    RemoveRowOk(s.expiry, s.bottom, u);
    RowIgnores(s.expiry, Remove(s.bottom, u), u, e[u]);
    InsertRowOk(e, Remove(s.bottom, u), u);
    InsertAscending(e, Remove(s.bottom, u), u);
  }

  /** rt_timer_start */
  ghost function Started(s: Snap, now: int, u: TimerId): (r: Snap)
    requires WellFormed(s) && u in s.timers
    ensures WellFormed(r) && SameConfig(s.timers, r.timers)
  {
    StartRow(s, now, u);
    var e := s.expiry[u := now + s.timers[u].initTick];
    Snap(s.timers[u := s.timers[u].(timeoutTick := Tick(e[u]), activated := true)], e,
         Insert(e, Remove(s.bottom, u), u), Remove(s.list, u))
  }

  /** rt_timer_stop, which fails for a timer that is not active and changes nothing then */
  ghost function Stopped(s: Snap, u: TimerId): (r: Snap)
    requires WellFormed(s) && u in s.timers
    ensures WellFormed(r) && SameConfig(s.timers, r.timers)
  {
    RemoveRowOk(s.expiry, s.bottom, u);
    if !s.timers[u].activated then s
    else Snap(s.timers[u := s.timers[u].(activated := false)], s.expiry, Remove(s.bottom, u), Remove(s.list, u))
  }

  ghost function AfterOp(s: Snap, now: int, op: Op): (r: Snap)
    requires WellFormed(s) && op.timer in s.timers
    ensures WellFormed(r) && SameConfig(s.timers, r.timers)
  {
    match op
    case Start(u) => Started(s, now, u)
    case Stop(u) => Stopped(s, u)
  }

  /** What a callback does, one start or stop after the other. */
  ghost function AfterOps(s: Snap, now: int, ops: seq<Op>): (r: Snap)
    requires WellFormed(s) && AllKnown(s.timers, ops)
    ensures WellFormed(r) && SameConfig(s.timers, r.timers)
  {
    if ops == [] then s else AfterOp(AfterOps(s, now, ops[..|ops| - 1]), now, ops[|ops| - 1])
  }

  lemma AfterNoOps(s: Snap, now: int)
    requires WellFormed(s)
    ensures AfterOps(s, now, []) == s && Touches([]) == {} && SameConfig(s.timers, s.timers)
  {
  }

  /** One more operation. */
  lemma AfterOpsNext(s: Snap, now: int, ops: seq<Op>, i: nat)
    requires WellFormed(s) && AllKnown(s.timers, ops) && i < |ops|
    ensures Touches(ops[..i + 1]) == Touches(ops[..i]) + {ops[i].timer}
    ensures var s' := AfterOps(s, now, ops[..i]);
            ops[i].timer in s'.timers && AfterOps(s, now, ops[..i + 1]) == AfterOp(s', now, ops[i])
  {
    assert ops[..i + 1][..i] == ops[..i];
  }

  /** The timer leaves the pending ones for the local list; a one-shot timer is no longer active. */
  ghost function TakenOff(s: Snap, t: TimerId): (r: Snap)
    requires WellFormed(s) && t in s.timers
    ensures WellFormed(r) && SameConfig(s.timers, r.timers)
  {
    RemoveRowOk(s.expiry, s.bottom, t);
    Snap(if s.timers[t].periodic then s.timers else s.timers[t := s.timers[t].(activated := false)], s.expiry,
         Remove(s.bottom, t), [t])
  }

  /** After the callback of t: it is restarted when periodic, unless the callback has started or stopped it. */
  ghost function PutBack(s: Snap, now: int, t: TimerId): (r: Snap)
    requires WellFormed(s) && t in s.timers
    ensures WellFormed(r) && SameConfig(s.timers, r.timers)
  {
    if s.list == [] then s
    else if s.timers[t].periodic && s.timers[t].activated then Started(s.(list := []), now, t)
    else s.(list := [])
  }

  /** One due timer runs. */
  ghost function AfterRun(s: Snap, now: int, callbacks: Callbacks, t: TimerId): (r: Snap)
    requires WellFormed(s) && t in s.timers && AllKnown(s.timers, OpsOf(callbacks, t))
    ensures WellFormed(r) && SameConfig(s.timers, r.timers)
  {
    PutBack(AfterOps(TakenOff(s, t), now, OpsOf(callbacks, t)), now, t)
  }

  /** The timers can be run from this state. */
  ghost predicate Runnable(s: Snap, callbacks: Callbacks, fired: seq<TimerId>) {
    && WellFormed(s)
    && forall t {:trigger t in fired} :: t in fired ==> t in s.timers && AllKnown(s.timers, OpsOf(callbacks, t))
  }

  lemma RunnableFront(s: Snap, callbacks: Callbacks, fired: seq<TimerId>)
    requires Runnable(s, callbacks, fired) && fired != []
    ensures var n := |fired| - 1;
            && Runnable(s, callbacks, fired[..n]) && fired[n] in s.timers
            && AllKnown(s.timers, OpsOf(callbacks, fired[n]))
  {
    var front := fired[..|fired| - 1];
    assert fired[|fired| - 1] in fired;
    forall t | t in front ensures t in s.timers && AllKnown(s.timers, OpsOf(callbacks, t)) {
      assert t in fired;
    }
  }

  /** These timers run, in this order. */
  ghost function AfterRuns(s: Snap, now: int, callbacks: Callbacks, fired: seq<TimerId>): (r: Snap)
    requires Runnable(s, callbacks, fired)
    ensures WellFormed(r) && SameConfig(s.timers, r.timers)
  {
    if fired == [] then s
    else
      RunnableFront(s, callbacks, fired);
      AfterRun(AfterRuns(s, now, callbacks, fired[..|fired| - 1]), now, callbacks, fired[|fired| - 1])
  }

  lemma RunsNext(s0: Snap, now: int, callbacks: Callbacks, fired: seq<TimerId>, t: TimerId)
    requires Runnable(s0, callbacks, fired)
    requires var s := AfterRuns(s0, now, callbacks, fired); t in s.timers && AllKnown(s.timers, OpsOf(callbacks, t))
    ensures Runnable(s0, callbacks, fired + [t])
    ensures AfterRuns(s0, now, callbacks, fired + [t])
            == AfterRun(AfterRuns(s0, now, callbacks, fired), now, callbacks, t)
  {
    hide AfterRun, OpsOf, WellFormed;
    assert (fired + [t])[..|fired|] == fired;
  }

  // ---------------------------------------------------------------- the outcome for each timer

  /** Exactly the activated timers are pending, save the one whose callback runs, which is pending nowhere. */
  ghost predicate FlagOk(timers: map<TimerId, Timer>, bottom: Row, list: seq<TimerId>, t: TimerId)
    requires t in timers
  {
    if t in list then t !in bottom && timers[t].activated == timers[t].periodic
    else timers[t].activated <==> t in bottom
  }

  ghost predicate FlagsOk(s: Snap) {
    && |s.list| <= 1
    && forall t {:trigger FlagOk(s.timers, s.bottom, s.list, t)} :: t in s.timers ==>
         FlagOk(s.timers, s.bottom, s.list, t)
  }

  /** Nothing has happened to t. */
  ghost predicate SameTimer(s: Snap, s': Snap, t: TimerId)
    requires WellFormed(s) && WellFormed(s') && t in s.timers && t in s'.timers
  {
    && s'.timers[t] == s.timers[t] && s'.expiry[t] == s.expiry[t]
    && (t in s'.bottom <==> t in s.bottom) && (t in s'.list <==> t in s.list)
  }

  /** t is pending and due at now plus its period. */
  ghost predicate Renewed(s: Snap, now: int, t: TimerId)
    requires WellFormed(s) && t in s.timers
  {
    t in s.bottom && s.expiry[t] == now + s.timers[t].initTick
  }

  /** What the last start or stop of a timer leaves. */
  ghost predicate LeftBy(s: Snap, now: int, op: Op)
    requires WellFormed(s) && op.timer in s.timers
  {
    match op
    case Start(t) => Renewed(s, now, t)
    case Stop(t) => t !in s.bottom
  }

  /**
   * The outcome for t. If callbacks that ran have named it, their last start or stop of it decides. Otherwise it was
   * restarted or switched off if it has run, and nothing has happened to it if not.
   */
  ghost predicate Outcome(s0: Snap, s: Snap, now: int, callbacks: Callbacks, fired: seq<TimerId>, t: TimerId)
    requires WellFormed(s0) && WellFormed(s) && t in s0.timers && t in s.timers
  {
    match LastOp(Done(callbacks, fired), t)
    case Some(op) => LeftBy(s, now, op)
    case None =>
      if t !in fired then SameTimer(s0, s, t)
      else if s0.timers[t].periodic then Renewed(s, now, t)
      else t !in s.bottom
  }

  lemma OpOutcome(s: Snap, now: int, op: Op, t: TimerId)
    requires WellFormed(s) && FlagsOk(s) && op.timer in s.timers && t in s.timers
    ensures var s' := AfterOp(s, now, op);
            && FlagsOk(s')
            && (op.timer != t ==> SameTimer(s, s', t))
            && (op.timer == t ==> LeftBy(s', now, op) && (t in s'.list ==> !s'.timers[t].periodic))
  {
    hide Insert, RowOk;
    var s', u := AfterOp(s, now, op), op.timer;
    StartRow(s, now, u);
    assert FlagOk(s.timers, s.bottom, s.list, u) && FlagOk(s.timers, s.bottom, s.list, t);
    forall x | x in s'.timers ensures FlagOk(s'.timers, s'.bottom, s'.list, x) {
      assert FlagOk(s.timers, s.bottom, s.list, x);
    }
  }

  lemma {:induction false} OpsOutcome(s: Snap, now: int, ops: seq<Op>, t: TimerId)
    requires WellFormed(s) && FlagsOk(s) && AllKnown(s.timers, ops) && t in s.timers
    ensures var s' := AfterOps(s, now, ops);
            && FlagsOk(s')
            && (t !in Touches(ops) ==> SameTimer(s, s', t))
            && (t in Touches(ops) ==>
                  LeftBy(s', now, LastOp(ops, t).value) && (t in s'.list ==> !s'.timers[t].periodic))
  {
    if ops != [] {
      var front, op := ops[..|ops| - 1], ops[|ops| - 1];
      OpsOutcome(s, now, front, t);
      OpOutcome(AfterOps(s, now, front), now, op, t);
    }
  }

  lemma TakenOffOutcome(s: Snap, c: TimerId, t: TimerId)
    requires WellFormed(s) && FlagsOk(s) && s.list == [] && c in s.timers && c in s.bottom && t in s.timers
    ensures var s' := TakenOff(s, c);
            && FlagsOk(s') && s'.timers[t].periodic == s.timers[t].periodic
            && (t != c ==> SameTimer(s, s', t))
            && (t == c ==> t !in s'.bottom && t in s'.list && s'.timers[t].activated == s.timers[t].periodic)
  {
    var s' := TakenOff(s, c);
    assert FlagOk(s.timers, s.bottom, s.list, c);
    forall x | x in s'.timers ensures FlagOk(s'.timers, s'.bottom, s'.list, x) {
      assert FlagOk(s.timers, s.bottom, s.list, x);
    }
  }

  lemma PutBackOutcome(s: Snap, now: int, c: TimerId, t: TimerId)
    requires WellFormed(s) && FlagsOk(s) && (s.list == [] || s.list == [c]) && c in s.timers && t in s.timers
    ensures var s' := PutBack(s, now, c);
            && FlagsOk(s') && s'.list == []
            && (t != c || s.list == [] ==> SameTimer(s, s', t))
            && (t == c && s.list == [c] ==> if s.timers[t].periodic then Renewed(s', now, t) else t !in s'.bottom)
  {
    hide Insert, RowOk;
    var s' := PutBack(s, now, c);
    StartRow(s.(list := []), now, c);
    assert FlagOk(s.timers, s.bottom, s.list, c) && FlagOk(s.timers, s.bottom, s.list, t);
    forall x | x in s'.timers ensures FlagOk(s'.timers, s'.bottom, s'.list, x) {
      assert FlagOk(s.timers, s.bottom, s.list, x);
    }
  }

  /** Only the callback's own timer can be on the local list. */
  lemma {:induction false} OpsList(s: Snap, now: int, ops: seq<Op>, c: TimerId)
    requires WellFormed(s) && AllKnown(s.timers, ops) && (s.list == [] || s.list == [c])
    ensures var l := AfterOps(s, now, ops).list; l == [] || l == [c]
  {
    if ops != [] {
      var front := ops[..|ops| - 1];
      OpsList(s, now, front, c);
      hide AfterOp, WellFormed;
      OpList(AfterOps(s, now, front), now, ops[|ops| - 1], c);
    }
  }

  lemma PutBackNone(s: Snap, now: int, t: TimerId)
    requires WellFormed(s) && t in s.timers && s.list == []
    ensures PutBack(s, now, t) == s
  {
  }

  lemma OpList(s: Snap, now: int, op: Op, c: TimerId)
    requires WellFormed(s) && op.timer in s.timers && (s.list == [] || s.list == [c])
    ensures var l := AfterOp(s, now, op).list; l == [] || l == [c]
  {
  }

  /** What one run, that of c, does to t. */
  ghost predicate OneRun(s: Snap, s': Snap, now: int, callbacks: Callbacks, c: TimerId, t: TimerId)
    requires WellFormed(s) && WellFormed(s') && t in s.timers && t in s'.timers
  {
    match LastOp(OpsOf(callbacks, c), t)
    case Some(op) => LeftBy(s', now, op)
    case None =>
      if t != c then SameTimer(s, s', t)
      else if s.timers[t].periodic then Renewed(s', now, t)
      else t !in s'.bottom
  }

  /** The outcome of one run, for the timer that runs and for any other. */
  lemma RunOutcome(s: Snap, now: int, callbacks: Callbacks, c: TimerId, t: TimerId)
    requires WellFormed(s) && FlagsOk(s) && s.list == [] && c in s.timers && c in s.bottom && t in s.timers
    requires AllKnown(s.timers, OpsOf(callbacks, c))
    ensures var s' := AfterRun(s, now, callbacks, c);
            FlagsOk(s') && s'.list == [] && OneRun(s, s', now, callbacks, c, t)
  {
    var ops := OpsOf(callbacks, c);
    var s1 := TakenOff(s, c);
    var s2 := AfterOps(s1, now, ops);
    TakenOffOutcome(s, c, t);
    OpsOutcome(s1, now, ops, t);
    OpsList(s1, now, ops, c);
    PutBackOutcome(s2, now, c, t);
    assert FlagOk(s2.timers, s2.bottom, s2.list, t);
  }

  lemma OutcomeNext(s0: Snap, s: Snap, s': Snap, now: int, callbacks: Callbacks, fired: seq<TimerId>, c: TimerId,
                    t: TimerId)
    requires WellFormed(s0) && WellFormed(s) && WellFormed(s') && t in s0.timers
    requires SameConfig(s0.timers, s.timers) && SameConfig(s.timers, s'.timers)
    requires Outcome(s0, s, now, callbacks, fired, t) && OneRun(s, s', now, callbacks, c, t)
    requires c !in TouchedBy(callbacks, fired)
    ensures Outcome(s0, s', now, callbacks, fired + [c], t)
  {
    hide WellFormed;
    TouchedNext(callbacks, fired, c);
    LastOpConcat(Done(callbacks, fired), OpsOf(callbacks, c), t);
  }

  lemma AfterNoRuns(s: Snap, now: int, callbacks: Callbacks, t: TimerId)
    requires Runnable(s, callbacks, []) && t in s.timers
    ensures AfterRuns(s, now, callbacks, []) == s && Outcome(s, s, now, callbacks, [], t)
  {
  }

  /** A timer that has neither run nor been named is where it was. */
  lemma StillPending(s0: Snap, s: Snap, now: int, callbacks: Callbacks, fired: seq<TimerId>, c: TimerId)
    requires WellFormed(s0) && WellFormed(s) && c in s0.timers && c in s.timers && c in s0.bottom
    requires Outcome(s0, s, now, callbacks, fired, c) && c !in TouchedBy(callbacks, fired) && c !in fired
    ensures c in s.bottom
  {
  }

  /** The outcome of a whole check, for every timer. */
  lemma {:induction false} RunsOutcome(s: Snap, now: int, callbacks: Callbacks, fired: seq<TimerId>, t: TimerId)
    requires Runnable(s, callbacks, fired) && FlagsOk(s) && s.list == [] && Orderly(callbacks, fired, s.bottom)
    requires t in s.timers
    ensures var s' := AfterRuns(s, now, callbacks, fired);
            FlagsOk(s') && s'.list == [] && Outcome(s, s', now, callbacks, fired, t)
    decreases |fired|
  {
    if fired == [] {
      AfterNoRuns(s, now, callbacks, t);
    } else {
      hide AfterRun, AfterRuns, Runnable, Orderly, FlagsOk, WellFormed, OneRun, Outcome, TouchedBy, Done;
      var n := |fired| - 1;
      var front, c := fired[..n], fired[n];
      assert fired == front + [c];
      RunnableFront(s, callbacks, fired);
      OrderlyFront(callbacks, fired, s.bottom);
      RunsOutcome(s, now, callbacks, front, t);
      RunsOutcome(s, now, callbacks, front, c);
      var s1 := AfterRuns(s, now, callbacks, front);
      StillPending(s, s1, now, callbacks, front, c);
      RunsNext(s, now, callbacks, front, c);
      RunOutcome(s1, now, callbacks, c, t);
      OutcomeNext(s, s1, AfterRun(s1, now, callbacks, c), now, callbacks, front, c, t);
    }
  }

  /** No callback starts t. */
  ghost predicate NeverStarted(ops: seq<Op>, t: TimerId) {
    forall i {:trigger ops[i]} :: 0 <= i < |ops| ==> ops[i] != Start(t)
  }

  /** Stops of a timer that is not active fail. */
  lemma {:induction false} OpsFail(s: Snap, now: int, ops: seq<Op>, t: TimerId)
    requires WellFormed(s) && FlagsOk(s) && AllKnown(s.timers, ops) && t in s.timers
    requires t !in s.bottom && t !in s.list && NeverStarted(ops, t)
    ensures FlagsOk(AfterOps(s, now, ops)) && SameTimer(s, AfterOps(s, now, ops), t)
  {
    if ops != [] {
      var front, op := ops[..|ops| - 1], ops[|ops| - 1];
      OpsFail(s, now, front, t);
      var s1 := AfterOps(s, now, front);
      OpOutcome(s1, now, op, t);
      assert FlagOk(s1.timers, s1.bottom, s1.list, t);
    }
  }

  /** Stops that fail leave no trace: a timer that was not pending and is not started stays as it was. */
  lemma {:induction false} RunsFail(s: Snap, now: int, callbacks: Callbacks, fired: seq<TimerId>, t: TimerId)
    requires Runnable(s, callbacks, fired) && FlagsOk(s) && s.list == [] && Orderly(callbacks, fired, s.bottom)
    requires t in s.timers && t !in s.bottom && NeverStarted(Done(callbacks, fired), t)
    ensures SameTimer(s, AfterRuns(s, now, callbacks, fired), t)
    decreases |fired|
  {
    if fired == [] {
      AfterNoRuns(s, now, callbacks, t);
    } else {
      hide AfterRun, AfterRuns, Runnable, Orderly, FlagsOk, WellFormed, Outcome, TouchedBy, Done, NeverStarted, OpsOf;
      var n := |fired| - 1;
      var front, c := fired[..n], fired[n];
      assert fired == front + [c];
      RunnableFront(s, callbacks, fired);
      OrderlyFront(callbacks, fired, s.bottom);
      TouchedNext(callbacks, front, c);
      NeverStartedParts(Done(callbacks, front), OpsOf(callbacks, c), t);
      RunsFail(s, now, callbacks, front, t);
      RunsOutcome(s, now, callbacks, front, c);
      var s1 := AfterRuns(s, now, callbacks, front);
      StillPending(s, s1, now, callbacks, front, c);
      RunsNext(s, now, callbacks, front, c);
      RunFails(s1, now, callbacks, c, t);
    }
  }

  lemma NeverStartedParts(a: seq<Op>, b: seq<Op>, t: TimerId)
    requires NeverStarted(a + b, t)
    ensures NeverStarted(a, t) && NeverStarted(b, t)
  {
    assert forall i {:trigger a[i]} :: 0 <= i < |a| ==> (a + b)[i] == a[i];
    assert forall i {:trigger b[i]} :: 0 <= i < |b| ==> (a + b)[|a| + i] == b[i];
  }

  lemma RunFails(s: Snap, now: int, callbacks: Callbacks, c: TimerId, t: TimerId)
    requires WellFormed(s) && FlagsOk(s) && s.list == [] && c in s.timers && c in s.bottom && t in s.timers
    requires AllKnown(s.timers, OpsOf(callbacks, c)) && t !in s.bottom && NeverStarted(OpsOf(callbacks, c), t)
    ensures SameTimer(s, AfterRun(s, now, callbacks, c), t)
  {
    var s1 := TakenOff(s, c);
    TakenOffOutcome(s, c, t);
    OpsFail(s1, now, OpsOf(callbacks, c), t);
    OpsList(s1, now, OpsOf(callbacks, c), c);
    PutBackOutcome(AfterOps(s1, now, OpsOf(callbacks, c)), now, c, t);
  }

  lemma OrderlyFront(callbacks: Callbacks, fired: seq<TimerId>, bottom: Row)
    requires Orderly(callbacks, fired, bottom) && fired != []
    ensures var n := |fired| - 1;
            && Orderly(callbacks, fired[..n], bottom) && fired[n] in bottom && fired[n] !in fired[..n]
            && fired[n] !in TouchedBy(callbacks, fired[..n])
  {
    var n := |fired| - 1;
    forall i | 0 <= i < n
      ensures fired[..n][i] in bottom && fired[..n][i] !in TouchedBy(callbacks, fired[..n][..i])
    {
      assert fired[..n][..i] == fired[..i] && fired[..n][i] == fired[i];
    }
  }

  // ---------------------------------------------------------------- progress of the loop

  /** How far a check has got: what is due is what was due behind the first k, without the timers touched so far. */
  ghost predicate Progress(s0: Snap, s: Snap, now: int, touched: set<TimerId>, k: nat) {
    && WellFormed(s0) && WellFormed(s) && SameConfig(s0.timers, s.timers)
    && var due := DuePart(s0.expiry, s0.bottom, now);
    && k <= |due|
    && DuePart(s.expiry, s.bottom, now) == Without(due[k..], touched)
  }

  /** What a whole check promises. */
  ghost predicate Checked(s0: Snap, s: Snap, now: int, callbacks: Callbacks, fired: seq<TimerId>) {
    && WellFormed(s0) && WellFormed(s) && SameConfig(s0.timers, s.timers)
    // the due timers ran in expiry order with ties in start order, but for those named in time
    && fired == RunOrder(callbacks, DuePart(s0.expiry, s0.bottom, now))
    // what they left, all of it and timer by timer
    && Runnable(s0, callbacks, fired) && s == AfterRuns(s0, now, callbacks, fired)
    && (forall t {:trigger Outcome(s0, s, now, callbacks, fired, t)} :: t in s0.timers ==>
          Outcome(s0, s, now, callbacks, fired, t))
    // nothing due is left
    && DuePart(s.expiry, s.bottom, now) == []
  }

  /** The log of a check that has got as far as k. */
  ghost predicate Logged(s0: Snap, s: Snap, now: int, callbacks: Callbacks, fired: seq<TimerId>, k: nat) {
    && WellFormed(s0)
    && var due := DuePart(s0.expiry, s0.bottom, now);
    && k <= |due| && fired == RunOrder(callbacks, due[..k])
    && Runnable(s0, callbacks, fired) && s == AfterRuns(s0, now, callbacks, fired)
  }

  lemma ProgressFacts(s0: Snap, s: Snap, now: int, touched: set<TimerId>, k: nat)
    requires Progress(s0, s, now, touched, k)
    ensures WellFormed(s0) && WellFormed(s) && k <= |DuePart(s0.expiry, s0.bottom, now)|
  {
  }

  lemma ProgressStart(s: Snap, now: int, callbacks: Callbacks)
    requires WellFormed(s)
    ensures Progress(s, s, now, {}, 0) && Logged(s, s, now, callbacks, [], 0)
    ensures TouchedBy(callbacks, []) == {}
  {
    WithoutNone(DuePart(s.expiry, s.bottom, now));
  }

  lemma ProgressEnd(s0: Snap, s: Snap, now: int, callbacks: Callbacks, fired: seq<TimerId>, k: nat)
    requires Progress(s0, s, now, TouchedBy(callbacks, fired), k) && Logged(s0, s, now, callbacks, fired, k)
    requires FlagsOk(s0) && s0.list == []
    requires s.bottom == [] || now < s.expiry[s.bottom[0]]
    ensures Checked(s0, s, now, callbacks, fired)
  {
    DueFirst(s.expiry, s.bottom, now);
    RunOrderDone(callbacks, DuePart(s0.expiry, s0.bottom, now), k);
    AllDueOrderly(s0, now, callbacks);
    hide RunOrder, DuePart, Orderly, Outcome, FlagsOk, WellFormed, AfterRuns, Runnable;
    forall t | t in s0.timers ensures Outcome(s0, s, now, callbacks, fired, t) {
      RunsOutcome(s0, now, callbacks, fired, t);
    }
  }

  lemma RunOrderDone(callbacks: Callbacks, due: Row, k: nat)
    requires k <= |due| && Without(due[k..], TouchedBy(callbacks, RunOrder(callbacks, due[..k]))) == []
    ensures RunOrder(callbacks, due) == RunOrder(callbacks, due[..k])
  {
    hide TouchedBy, RunOrder;
    WithoutEmpty(due[k..], TouchedBy(callbacks, RunOrder(callbacks, due[..k])));
    assert forall i :: k <= i < |due| ==> due[i] == due[k..][i - k];
    RunOrderSkips(callbacks, due, k, |due|);
    assert due[..|due|] == due;
  }

  lemma AllDueOrderly(s: Snap, now: int, callbacks: Callbacks)
    requires WellFormed(s)
    ensures Orderly(callbacks, RunOrder(callbacks, DuePart(s.expiry, s.bottom, now)), s.bottom)
  {
    hide RunOrder, Orderly;
    DueDistinct(s.expiry, s.bottom, now);
    DueMembers(s.expiry, s.bottom, now);
    RunOrderOrderly(callbacks, DuePart(s.expiry, s.bottom, now), s.bottom);
  }

  lemma {:induction false} WithoutEmpty(row: Row, gone: set<TimerId>)
    requires Without(row, gone) == []
    ensures forall x :: x in row ==> x in gone
  {
    if row != [] {
      WithoutEmpty(row[1..], gone);
      assert row == [row[0]] + row[1..];
    }
  }

  lemma {:induction false} WithoutAbsent(row: Row, t: TimerId)
    requires t !in row
    ensures Without(row, {t}) == row
  {
    if row != [] {
      WithoutAbsent(row[1..], t);
    }
  }

  lemma {:induction false} DueDistinct(expiry: map<TimerId, int>, row: Row, now: int)
    requires Known(expiry, row) && NoDuplicates(row)
    ensures NoDuplicates(DuePart(expiry, row, now))
  {
    if row != [] {
      DueDistinct(expiry, row[1..], now);
      DueMembers(expiry, row[1..], now);
      assert row[0] !in row[1..];
    }
  }

  /** The head of the row, which is due, is taken off to run: it is the next of the timers that were due. */
  lemma FireStep(s0: Snap, s: Snap, now: int, touched: set<TimerId>, k: nat) returns (k': nat)
    requires Progress(s0, s, now, touched, k)
    requires s.bottom != [] && s.expiry[s.bottom[0]] <= now && s.bottom[0] in s.timers
    ensures Progress(s0, TakenOff(s, s.bottom[0]), now, touched, k')
    ensures var due := DuePart(s0.expiry, s0.bottom, now);
            && k < k' <= |due| && due[k' - 1] == s.bottom[0] && s.bottom[0] !in touched
            && forall i :: k <= i < k' - 1 ==> due[i] in touched
  {
    DueHead(s, now);
    RemoveSplits(s.bottom, s.bottom[0], 0);
    hide DuePart, Without, RowOk;
    var due := DuePart(s0.expiry, s0.bottom, now);
    var j := WithoutFirst(due[k..], touched);
    k' := k + j + 1;
    assert due[k..][j + 1..] == due[k'..];
    assert forall i :: k <= i < k' ==> due[i] == due[k..][i - k];
  }

  lemma DueHead(s: Snap, now: int)
    requires WellFormed(s) && s.bottom != [] && s.expiry[s.bottom[0]] <= now
    ensures Known(s.expiry, s.bottom[1..])
    ensures DuePart(s.expiry, s.bottom, now) == [s.bottom[0]] + DuePart(s.expiry, s.bottom[1..], now)
  {
  }

  /** The timer taken off comes next in the run order, and its run is the next step. */
  lemma LogStep(s0: Snap, s: Snap, now: int, callbacks: Callbacks, fired: seq<TimerId>, k: nat, t: TimerId, k': nat)
    requires Logged(s0, s, now, callbacks, fired, k) && k < k'
    requires var due := DuePart(s0.expiry, s0.bottom, now);
             && k' <= |due| && due[k' - 1] == t && t !in TouchedBy(callbacks, fired)
             && forall i :: k <= i < k' - 1 ==> due[i] in TouchedBy(callbacks, fired)
    requires t in s.timers && Lively(s.timers, callbacks)
    ensures WellFormed(s) && AllKnown(s.timers, OpsOf(callbacks, t))
    ensures Logged(s0, AfterRun(s, now, callbacks, t), now, callbacks, fired + [t], k')
  {
    hide DuePart, TouchedBy, AfterRun, AfterRuns, Lively, RunOrder, Runnable;
    RunOrderNext(callbacks, DuePart(s0.expiry, s0.bottom, now), k, k');
    OpsLively(s.timers, callbacks, t);
    RunsNext(s0, now, callbacks, fired, t);
  }

  lemma RunOrderNext(callbacks: Callbacks, due: Row, k: nat, n: nat)
    requires k < n <= |due| && due[n - 1] !in TouchedBy(callbacks, RunOrder(callbacks, due[..k]))
    requires forall i :: k <= i < n - 1 ==> due[i] in TouchedBy(callbacks, RunOrder(callbacks, due[..k]))
    ensures RunOrder(callbacks, due[..n]) == RunOrder(callbacks, due[..k]) + [due[n - 1]]
  {
    hide TouchedBy;
    RunOrderSkips(callbacks, due, k, n - 1);
    assert due[..n][..n - 1] == due[..n - 1];
  }

  /** A start or stop of u by a callback takes u, and nothing else, out of what is due. */
  lemma OpStep(s0: Snap, s: Snap, now: int, touched: set<TimerId>, k: nat, op: Op)
    requires Progress(s0, s, now, touched, k) && op.timer in s.timers
    requires op.Start? ==> s.timers[op.timer].initTick >= 1
    requires !s.timers[op.timer].activated ==> op.timer !in s.bottom
    ensures Progress(s0, AfterOp(s, now, op), now, touched + {op.timer}, k)
  {
    OpDue(s, now, op);
    WithoutTwice(DuePart(s0.expiry, s0.bottom, now)[k..], touched, {op.timer});
  }

  lemma OpDue(s: Snap, now: int, op: Op)
    requires WellFormed(s) && op.timer in s.timers && (op.Start? ==> s.timers[op.timer].initTick >= 1)
    requires !s.timers[op.timer].activated ==> op.timer !in s.bottom
    ensures var s' := AfterOp(s, now, op);
            DuePart(s'.expiry, s'.bottom, now) == Without(DuePart(s.expiry, s.bottom, now), {op.timer})
  {
    var u := op.timer;
    DueRemove(s.expiry, s.bottom, u, now);
    if op.Start? {
      StartDue(s, now, u);
    }
  }

  lemma StartDue(s: Snap, now: int, u: TimerId)
    requires WellFormed(s) && u in s.timers && s.timers[u].initTick >= 1
    ensures var s' := Started(s, now, u);
            Known(s.expiry, Remove(s.bottom, u))
            && DuePart(s'.expiry, s'.bottom, now) == DuePart(s.expiry, Remove(s.bottom, u), now)
  {
    var e := s.expiry[u := now + s.timers[u].initTick];
    StartRow(s, now, u);
    hide DuePart, Insert;
    DueInsert(e, Remove(s.bottom, u), u, now);
    DueIgnores(s.expiry, Remove(s.bottom, u), u, e[u], now);
  }

  /** Putting the timer back changes nothing of what is due. */
  lemma PutBackStep(s0: Snap, s: Snap, now: int, touched: set<TimerId>, k: nat, t: TimerId)
    requires Progress(s0, s, now, touched, k) && t in s.timers
    requires s.list != [] ==> t !in s.bottom && (s.timers[t].periodic ==> s.timers[t].initTick >= 1)
    ensures Progress(s0, PutBack(s, now, t), now, touched, k)
  {
    if s.list != [] && s.timers[t].periodic && s.timers[t].activated {
      OpDue(s.(list := []), now, Start(t));
      DueMembers(s.expiry, s.bottom, now);
      WithoutAbsent(DuePart(s.expiry, s.bottom, now), t);
    }
  }
}
