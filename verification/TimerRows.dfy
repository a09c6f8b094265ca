/** Timers of timer.c on values: wrapped ticks, rows sorted by expiry, and the rows of a skip list. */
module TimerRows {
  import opened Lists

  type TimerId = nat

  /** rt_tick_t is 32 bits wide. */
  const WRAP: int := 0x1_0000_0000

  /** RT_TICK_MAX / 2 */
  const HALF: int := 0x7FFF_FFFF

  function Tick(time: int): nat {
    time % WRAP
  }

  /** Unsigned 32-bit subtraction of two ticks. */
  function Minus(a: nat, b: nat): nat
    requires a < WRAP && b < WRAP
  {
    if a >= b then a - b else a - b + WRAP
  }

  /** The comparison of wrapped ticks tells the true order exactly when the times are not too far apart. */
  lemma WrappedOrder(a: int, b: int)
    requires HALF - WRAP <= a - b < WRAP
    ensures Minus(Tick(a), Tick(b)) == 0 <==> a == b
    ensures Minus(Tick(a), Tick(b)) < HALF <==> 0 <= a - b < HALF
  {
    var k := a / WRAP - b / WRAP;
    assert Tick(a) - Tick(b) == (a - b) - k * WRAP;
    assert k == -1 || k == 0 || k == 1;
  }

  type Row = seq<TimerId>

  ghost predicate Known(expiry: map<TimerId, int>, row: Row) {
    forall i :: 0 <= i < |row| ==> row[i] in expiry
  }

  ghost predicate Ascending(expiry: map<TimerId, int>, row: Row)
    requires Known(expiry, row)
  {
    forall i, j :: 0 <= i < j < |row| ==> expiry[row[i]] <= expiry[row[j]]
  }

  /** Sorted insertion: behind every timer that expires no later. */
  function Insert(expiry: map<TimerId, int>, row: Row, t: TimerId): Row
    requires Known(expiry, row) && t in expiry
  {
    if row == [] || expiry[t] < expiry[row[0]] then [t] + row else [row[0]] + Insert(expiry, row[1..], t)
  }

  lemma {:induction false} InsertIs(expiry: map<TimerId, int>, row: Row, t: TimerId, i: nat)
    requires Known(expiry, row) && t in expiry && i <= |row|
    requires forall j :: 0 <= j < i ==> expiry[row[j]] <= expiry[t]
    requires i < |row| ==> expiry[t] < expiry[row[i]]
    ensures Insert(expiry, row, t) == row[..i] + [t] + row[i..]
    decreases |row|
  {
    if i > 0 {
      InsertIs(expiry, row[1..], t, i - 1);
      assert row[..i] == [row[0]] + row[1..][..i - 1];
      assert row[1..][i - 1..] == row[i..];
    }
  }

  /** t stands behind every timer that expires no later and in front of every later one; the others stay in order. */
  ghost predicate Stands(expiry: map<TimerId, int>, row: Row, row': Row, t: TimerId, i: nat)
    requires Known(expiry, row) && t in expiry
  {
    && i <= |row| && row' == row[..i] + [t] + row[i..]
    && (forall j :: 0 <= j < i ==> expiry[row[j]] <= expiry[t])
    && (forall j :: i <= j < |row| ==> expiry[t] < expiry[row[j]])
  }

  /** Among equals a timer comes last: they expire in the order in which they were started. */
  lemma {:induction false} InsertStands(expiry: map<TimerId, int>, row: Row, t: TimerId) returns (i: nat)
    requires Known(expiry, row) && t in expiry && Ascending(expiry, row)
    ensures Stands(expiry, row, Insert(expiry, row, t), t, i)
    decreases |row|
  {
    if row == [] || expiry[t] < expiry[row[0]] {
      i := 0;
    } else {
      i := InsertStands(expiry, row[1..], t);
      i := i + 1;
      assert row[..i] == [row[0]] + row[1..][..i - 1] && row[i..] == row[1..][i - 1..];
    }
  }

  lemma {:induction false} InsertAscending(expiry: map<TimerId, int>, row: Row, t: TimerId)
    requires Known(expiry, row) && t in expiry && Ascending(expiry, row)
    ensures Known(expiry, Insert(expiry, row, t)) && Ascending(expiry, Insert(expiry, row, t))
    ensures forall x :: x in Insert(expiry, row, t) <==> x == t || x in row
    decreases |row|
  {
    if row != [] {
      assert row == [row[0]] + row[1..];
      InsertAscending(expiry, row[1..], t);
      if expiry[row[0]] <= expiry[t] {
        var r := Insert(expiry, row[1..], t);
        forall j | 0 <= j < |r| ensures expiry[row[0]] <= expiry[r[j]] {
          assert r[j] in r;
          HeadLeast(expiry, row, r[j], t);
        }
      }
    }
  }

  lemma HeadLeast(expiry: map<TimerId, int>, row: Row, x: TimerId, t: TimerId)
    requires Known(expiry, row) && t in expiry && Ascending(expiry, row) && row != []
    requires expiry[row[0]] <= expiry[t] && (x == t || x in row)
    ensures x in expiry && expiry[row[0]] <= expiry[x]
  {
    if x in row {
      var i :| 0 <= i < |row| && row[i] == x;
    }
  }

  lemma {:induction false} InsertDistinct(expiry: map<TimerId, int>, row: Row, t: TimerId)
    requires Known(expiry, row) && t in expiry && Ascending(expiry, row) && NoDuplicates(row) && t !in row
    ensures NoDuplicates(Insert(expiry, row, t))
    decreases |row|
  {
    if row != [] && expiry[row[0]] <= expiry[t] {
      InsertDistinct(expiry, row[1..], t);
      InsertAscending(expiry, row[1..], t);
      assert row[0] !in row[1..];
    }
  }

  lemma AscendingCons(expiry: map<TimerId, int>, x: TimerId, row: Row)
    requires x in expiry && Known(expiry, row) && Ascending(expiry, row)
    requires forall y :: y in row ==> y in expiry && expiry[x] <= expiry[y]
    ensures Known(expiry, [x] + row) && Ascending(expiry, [x] + row)
  {
  }

  lemma AscendingTail(expiry: map<TimerId, int>, row: Row)
    requires Known(expiry, row) && Ascending(expiry, row) && row != []
    ensures Known(expiry, row[1..]) && Ascending(expiry, row[1..])
    ensures forall y :: y in row[1..] ==> y in expiry && expiry[row[0]] <= expiry[y]
  {
    forall y | y in row[1..] ensures y in expiry && expiry[row[0]] <= expiry[y] {
      assert y in row;
      HeadLeast(expiry, row, y, row[0]);
    }
  }

  lemma {:induction false} RemoveAscending(expiry: map<TimerId, int>, row: Row, t: TimerId)
    requires Known(expiry, row) && Ascending(expiry, row)
    ensures Known(expiry, Remove(row, t)) && Ascending(expiry, Remove(row, t))
    decreases |row|
  {
    if row != [] {
      AscendingTail(expiry, row);
      RemoveAscending(expiry, row[1..], t);
      if row[0] != t {
        AscendingCons(expiry, row[0], Remove(row[1..], t));
      }
    }
  }

  /** Changing the expiry of a timer that is not in the row. */
  lemma RowIgnores(expiry: map<TimerId, int>, row: Row, t: TimerId, e: int)
    requires Known(expiry, row) && Ascending(expiry, row) && t !in row
    ensures Known(expiry[t := e], row) && Ascending(expiry[t := e], row)
  {
    assert forall i :: 0 <= i < |row| ==> row[i] in row;
  }

  // ---------------------------------------------------------------- skip-list rows

  /** a is b with some timers left out. */
  ghost predicate IsSubsequence(a: Row, b: Row)
    decreases |b|
  {
    if a == [] then true
    else if b == [] then false
    else if a[0] == b[0] then IsSubsequence(a[1..], b[1..])
    else IsSubsequence(a, b[1..])
  }

  lemma {:induction false} SubsequenceMembers(a: Row, b: Row)
    requires IsSubsequence(a, b)
    ensures forall x :: x in a ==> x in b
    decreases |b|
  {
    if a != [] {
      if a[0] == b[0] {
        assert a == [a[0]] + a[1..];
        SubsequenceMembers(a[1..], b[1..]);
      } else {
        SubsequenceMembers(a, b[1..]);
      }
    }
  }

  /** Leaving out one more timer in front. */
  lemma {:induction false} SubsequenceTail(a: Row, b: Row)
    requires IsSubsequence(a, b) && a != []
    ensures IsSubsequence(a[1..], b)
    decreases |b|, 0
  {
    if a[0] == b[0] {
      SubsequenceCons(a[1..], b[1..], b[0]);
      assert [b[0]] + b[1..] == b;
    } else {
      SubsequenceTail(a, b[1..]);
      SubsequenceCons(a[1..], b[1..], b[0]);
      assert [b[0]] + b[1..] == b;
    }
  }

  lemma {:induction false} SubsequenceCons(a: Row, b: Row, x: TimerId)
    requires IsSubsequence(a, b)
    ensures IsSubsequence(a, [x] + b)
    decreases |b|, 1
  {
    assert ([x] + b)[1..] == b;
    if a != [] && a[0] == x {
      SubsequenceTail(a, b);
    }
  }

  lemma {:induction false} RemoveSubsequence(a: Row, b: Row, t: TimerId)
    requires IsSubsequence(a, b)
    ensures IsSubsequence(Remove(a, t), Remove(b, t))
    decreases |b|
  {
    if a != [] {
      if a[0] == b[0] {
        RemoveSubsequence(a[1..], b[1..], t);
      } else {
        RemoveSubsequence(a, b[1..], t);
        if b[0] != t {
          SubsequenceCons(Remove(a, t), Remove(b[1..], t), b[0]);
        }
      }
    }
  }

  /** Inserting a timer into both rows, or into the lower one only, keeps the upper one a subsequence. */
  lemma {:induction false} InsertSubsequence(expiry: map<TimerId, int>, a: Row, b: Row, t: TimerId)
    requires Known(expiry, a) && Known(expiry, b) && t in expiry && Ascending(expiry, a) && Ascending(expiry, b)
    requires IsSubsequence(a, b)
    ensures IsSubsequence(a, Insert(expiry, b, t))
    ensures IsSubsequence(Insert(expiry, a, t), Insert(expiry, b, t))
    decreases |b|
  {
    var ib := Insert(expiry, b, t);
    if b == [] {
      assert ib == [t] && [t][1..] == [];
    } else if expiry[t] < expiry[b[0]] {
      SubsequenceCons(a, b, t);
      if a != [] {
        SubsequenceMembers(a, b);
        assert a[0] in b;
        HeadLeast(expiry, b, a[0], b[0]);
      }
      assert ([t] + a)[1..] == a && ([t] + b)[1..] == b;
    } else {
      assert ib[1..] == Insert(expiry, b[1..], t);
      if a != [] && a[0] == b[0] {
        InsertSubsequence(expiry, a[1..], b[1..], t);
        assert Insert(expiry, a, t)[1..] == Insert(expiry, a[1..], t);
      } else {
        InsertSubsequence(expiry, a, b[1..], t);
        SubsequenceCons(a, ib[1..], b[0]);
        SubsequenceCons(Insert(expiry, a, t), ib[1..], b[0]);
      }
    }
  }

  ghost predicate RowOk(expiry: map<TimerId, int>, row: Row) {
    Known(expiry, row) && Ascending(expiry, row) && NoDuplicates(row)
  }

  /** Every row is sorted and each upper row is a subsequence of the one below. */
  ghost predicate RowsOk(expiry: map<TimerId, int>, rows: seq<Row>) {
    && |rows| > 0
    && (forall l {:trigger RowOk(expiry, rows[l])} :: 0 <= l < |rows| ==> RowOk(expiry, rows[l]))
    && (forall l {:trigger Nested(rows, l)} :: 0 <= l < |rows| - 1 ==> Nested(rows, l))
  }

  /** Row l is a subsequence of the row below it. */
  ghost predicate Nested(rows: seq<Row>, l: nat)
    requires l + 1 < |rows|
  {
    IsSubsequence(rows[l], rows[l + 1])
  }

  lemma {:induction false} UpperInLower(expiry: map<TimerId, int>, rows: seq<Row>, l: nat, x: TimerId)
    requires RowsOk(expiry, rows) && l < |rows| && x in rows[l]
    ensures x in rows[|rows| - 1]
    decreases |rows| - l
  {
    if l < |rows| - 1 {
      assert Nested(rows, l);
      SubsequenceMembers(rows[l], rows[l + 1]);
      UpperInLower(expiry, rows, l + 1, x);
    }
  }

  lemma RemoveRowOk(expiry: map<TimerId, int>, row: Row, t: TimerId)
    requires RowOk(expiry, row)
    ensures RowOk(expiry, Remove(row, t))
  {
    RemoveAscending(expiry, row, t);
    RemoveDistinct(row, t);
  }

  lemma InsertRowOk(expiry: map<TimerId, int>, row: Row, t: TimerId)
    requires RowOk(expiry, row) && t in expiry && t !in row
    ensures RowOk(expiry, Insert(expiry, row, t))
  {
    InsertAscending(expiry, row, t);
    InsertDistinct(expiry, row, t);
  }

  // ---------------------------------------------------------------- heights

  /** How many of the m rows above the lowest a timer gets into: one for each zero at the end of n to base b. */
  function Height(n: nat, b: nat, m: nat): (h: nat)
    requires b >= 2
    ensures h <= m
  {
    if m == 0 || n % b != 0 then 0 else 1 + Height(n / b, b, m - 1)
  }

  lemma HeightStep(n: nat, b: nat, m: nat)
    requires b >= 2
    ensures Height(n, b, m) == if m == 0 || n % b != 0 then 0 else 1 + Height(n / b, b, m - 1)
  {
  }

  function Power(b: nat, j: nat): nat {
    if j == 0 then 1 else b * Power(b, j - 1)
  }

  lemma ModIs(n: nat, d: nat, k: nat, r: nat)
    requires n == d * k + r && r < d
    ensures n % d == r
  {
    var q := n / d;
    DivIs(n, d);
    if q > k {
      Distribute(d, q, k);
    } else if q < k {
      Distribute(d, k, q);
    }
  }

  lemma DivIs(n: nat, d: nat)
    requires d > 0
    ensures n == d * (n / d) + n % d
  {
  }

  lemma Distribute(d: nat, x: nat, y: nat)
    requires x > y
    ensures d * x >= d * y + d
  {
    if x > y + 1 {
      Distribute(d, x - 1, y);
    }
    assert d * x == d * (x - 1) + d;
  }

  /** n is a multiple of d: its remainder by b times d is b times that of its quotient. */
  lemma Digit(n: nat, b: nat, d: nat)
    requires b in {2, 4} && d > 0 && n % b == 0
    ensures n % (b * d) == b * ((n / b) % d)
  {
    var q := n / b;
    var k, r := q / d, q % d;
    assert q == d * k + r;
    assert n == b * q;
    assert b * (d * k) == (b * d) * k;
    ModIs(n, b * d, k, b * r);
  }

  lemma {:induction false} PowerPositive(b: nat, j: nat)
    requires b > 0
    ensures Power(b, j) > 0
  {
    if j > 0 {
      PowerPositive(b, j - 1);
    }
  }

  /** The jth row above the lowest is reached exactly by every b to the jth count. */
  lemma {:induction false} HeightIs(n: nat, b: nat, m: nat, j: nat)
    requires b in {2, 4} && j <= m
    ensures Power(b, j) > 0
    ensures j <= Height(n, b, m) <==> n % Power(b, j) == 0
    decreases j
  {
    PowerPositive(b, j);
    if j > 0 {
      var p := Power(b, j - 1);
      PowerPositive(b, j - 1);
      if n % b == 0 {
        HeightIs(n / b, b, m - 1, j - 1);
        Digit(n, b, p);
        assert b * ((n / b) % p) == 0 <==> (n / b) % p == 0;
      } else {
        NotMultiple(n, b, p);
      }
    }
  }

  lemma NotMultiple(n: nat, b: nat, d: nat)
    requires b in {2, 4} && d > 0
    ensures n % (b * d) == 0 ==> n % b == 0
  {
    var k := n / (b * d);
    DivIs(n, b * d);
    assert (b * d) * k == b * (d * k);
    if n % (b * d) == 0 {
      ModIs(n, b, d * k, 0);
    }
  }

  // ---------------------------------------------------------------- due timers

  /** The timers of a row that are due at time now, in row order. */
  function DuePart(expiry: map<TimerId, int>, row: Row, now: int): Row
    requires Known(expiry, row)
  {
    if row == [] then []
    else (if expiry[row[0]] <= now then [row[0]] else []) + DuePart(expiry, row[1..], now)
  }

  /** The row without the timers in gone. */
  function Without(row: Row, gone: set<TimerId>): Row {
    if row == [] then []
    else (if row[0] in gone then [] else [row[0]]) + Without(row[1..], gone)
  }

  lemma {:induction false} DueInsert(expiry: map<TimerId, int>, row: Row, t: TimerId, now: int)
    requires Known(expiry, row) && Ascending(expiry, row) && t in expiry && now < expiry[t]
    ensures Known(expiry, Insert(expiry, row, t))
    ensures DuePart(expiry, Insert(expiry, row, t), now) == DuePart(expiry, row, now)
    decreases |row|
  {
    InsertAscending(expiry, row, t);
    var ins := Insert(expiry, row, t);
    if row == [] || expiry[t] < expiry[row[0]] {
      assert ins[1..] == row;
    } else {
      DueInsert(expiry, row[1..], t, now);
      assert ins[1..] == Insert(expiry, row[1..], t);
    }
  }

  lemma {:induction false} DueRemove(expiry: map<TimerId, int>, row: Row, t: TimerId, now: int)
    requires Known(expiry, row)
    ensures Known(expiry, Remove(row, t))
    ensures DuePart(expiry, Remove(row, t), now) == Without(DuePart(expiry, row, now), {t})
    decreases |row|
  {
    if row != [] {
      DueRemove(expiry, row[1..], t, now);
      WithoutConcat(if expiry[row[0]] <= now then [row[0]] else [], DuePart(expiry, row[1..], now), {t});
    }
  }

  lemma {:induction false} WithoutConcat(a: Row, b: Row, gone: set<TimerId>)
    ensures Without(a + b, gone) == Without(a, gone) + Without(b, gone)
  {
    if a == [] {
      assert a + b == b;
    } else {
      assert (a + b)[1..] == a[1..] + b;
      WithoutConcat(a[1..], b, gone);
    }
  }

  lemma {:induction false} WithoutTwice(row: Row, a: set<TimerId>, b: set<TimerId>)
    ensures Without(Without(row, a), b) == Without(row, a + b)
  {
    if row != [] {
      WithoutTwice(row[1..], a, b);
      WithoutConcat(if row[0] in a then [] else [row[0]], Without(row[1..], a), b);
    }
  }

  lemma {:induction false} WithoutNone(row: Row)
    ensures Without(row, {}) == row
  {
    if row != [] {
      WithoutNone(row[1..]);
    }
  }

  /** The due part does not depend on the expiry of timers that are not in the row. */
  lemma {:induction false} DueIgnores(expiry: map<TimerId, int>, row: Row, t: TimerId, e: int, now: int)
    requires Known(expiry, row) && t !in row
    ensures Known(expiry[t := e], row)
    ensures DuePart(expiry[t := e], row, now) == DuePart(expiry, row, now)
  {
    if row != [] {
      DueIgnores(expiry, row[1..], t, e, now);
    }
  }

  /** In a sorted row the due timers come first. */
  lemma {:induction false} DueFirst(expiry: map<TimerId, int>, row: Row, now: int)
    requires Known(expiry, row) && Ascending(expiry, row)
    ensures row == [] || now < expiry[row[0]] ==> DuePart(expiry, row, now) == []
    ensures DuePart(expiry, row, now) == [] ==> forall x :: x in row ==> x in expiry && now < expiry[x]
    decreases |row|
  {
    if row != [] {
      AscendingTail(expiry, row);
      DueFirst(expiry, row[1..], now);
      assert row == [row[0]] + row[1..];
    }
  }

  lemma {:induction false} DueMembers(expiry: map<TimerId, int>, row: Row, now: int)
    requires Known(expiry, row)
    ensures forall x :: x in DuePart(expiry, row, now) <==> x in row && x in expiry && expiry[x] <= now
  {
    if row != [] {
      DueMembers(expiry, row[1..], now);
      assert row == [row[0]] + row[1..];
    }
  }

  /** The first timer of what is left: everything in front of it has gone. */
  lemma {:induction false} WithoutFirst(row: Row, gone: set<TimerId>) returns (j: nat)
    requires Without(row, gone) != []
    ensures j < |row| && row[j] == Without(row, gone)[0] && row[j] !in gone
    ensures forall i :: 0 <= i < j ==> row[i] in gone
    ensures Without(row, gone)[1..] == Without(row[j + 1..], gone)
  {
    if row[0] in gone {
      j := WithoutFirst(row[1..], gone);
      assert row[1..][j + 1..] == row[j + 2..];
      j := j + 1;
    } else {
      j := 0;
    }
  }

  /** A subsequence may be extended at the end. */
  lemma {:induction false} SubsequenceExtend(a: Row, b: Row, x: TimerId)
    requires IsSubsequence(a, b)
    ensures IsSubsequence(a, b + [x]) && IsSubsequence(a + [x], b + [x])
    decreases |b|
  {
    if b == [] {
      assert a + [x] == [x] && b + [x] == [x] && [x][1..] == [];
    } else {
      assert (b + [x])[1..] == b[1..] + [x];
      if a != [] && a[0] == b[0] {
        SubsequenceExtend(a[1..], b[1..], x);
        assert (a + [x])[1..] == a[1..] + [x];
      } else {
        SubsequenceExtend(a, b[1..], x);
        if a == [] {
          assert a + [x] == [x];
          SubsequenceCons([x], b[1..] + [x], b[0]);
          assert [b[0]] + (b[1..] + [x]) == b + [x];
        }
      }
    }
  }

  lemma {:induction false} SubsequenceGrow(a: Row, b: Row, c: Row)
    requires IsSubsequence(a, b)
    ensures IsSubsequence(a, b + c)
    decreases |c|
  {
    if c == [] {
      assert b + c == b;
    } else {
      SubsequenceExtend(a, b, c[0]);
      SubsequenceGrow(a, b + [c[0]], c[1..]);
      assert b + c == b + [c[0]] + c[1..];
    }
  }
}
