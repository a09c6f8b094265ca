/** rt_slab_page_alloc and rt_slab_page_free, which relink the runs of free pages in place. */
module SlabPageList {
  import opened Lists
  import opened SlabPages

  const NULL := -1

  /** The address held by link k of the list: the next run, or the null pointer behind the last. */
  function Start(rs: Runs, k: nat): int {
    if k < |rs| then rs[k].start else NULL
  }

  /** The page of run k says where the run ends and which run follows. */
  ghost predicate RunAt(next: seq<int>, count: seq<int>, rs: Runs, k: nat)
    requires k < |rs|
  {
    rs[k].start < |next| == |count| && next[rs[k].start] == Start(rs, k + 1) && count[rs[k].start] == rs[k].len
  }

  ghost predicate Linked(next: seq<int>, count: seq<int>, head: int, rs: Runs) {
    && |next| == |count| && head == Start(rs, 0)
    && forall k {:trigger rs[k]} :: 0 <= k < |rs| ==> RunAt(next, count, rs, k)
  }

  /** Runs ascend, so their pages differ. */
  lemma {:induction false} Ascending(rs: Runs, lo: nat, hi: nat, i: nat, j: nat)
    requires Sorted(rs, lo, hi) && i <= j < |rs|
    ensures lo <= rs[i].start && rs[i].len > 0 && rs[j].start + rs[j].len <= hi
    ensures i < j ==> rs[i].start + rs[i].len < rs[j].start
  {
    if i > 0 {
      Ascending(rs[1..], rs[0].start + rs[0].len + 1, hi, i - 1, j - 1);
    } else if j > 0 {
      Ascending(rs[1..], rs[0].start + rs[0].len + 1, hi, j - 1, j - 1);
    }
  }

  /** Runs i up to j give way to mid. */
  function Splice(rs: Runs, i: nat, j: nat, mid: Runs): Runs
    requires i <= j <= |rs|
  {
    rs[..i] + mid + rs[j..]
  }

  /** What the pages must hold for runs i up to j to give way to mid. */
  ghost predicate Rewired(next: seq<int>, count: seq<int>, head: int, next': seq<int>, count': seq<int>, head': int,
                          rs: Runs, i: nat, j: nat, mid: Runs)
    requires i <= j <= |rs| && |next'| == |count'| == |next| == |count|
    requires forall k {:trigger rs[k]} :: 0 <= k < |rs| ==> rs[k].start < |next|
  {
    var first := if mid != [] then mid[0].start else Start(rs, j);
    && (if i == 0 then head' == first
        else head' == head && next'[rs[i - 1].start] == first && count'[rs[i - 1].start] == count[rs[i - 1].start])
    && (forall k {:trigger rs[k]} :: (0 <= k < i - 1 || j <= k < |rs|) ==>
          next'[rs[k].start] == next[rs[k].start] && count'[rs[k].start] == count[rs[k].start])
    && |mid| <= 1
    && (mid != [] ==>
          && mid[0].start < |next| && next'[mid[0].start] == Start(rs, j)
          && count'[mid[0].start] == mid[0].len)
  }

  lemma StartsIn(next: seq<int>, count: seq<int>, head: int, rs: Runs)
    requires Linked(next, count, head, rs)
    ensures forall k {:trigger rs[k]} :: 0 <= k < |rs| ==> rs[k].start < |next|
  {
    forall k {:trigger rs[k]} | 0 <= k < |rs| ensures rs[k].start < |next| {
      assert RunAt(next, count, rs, k);
    }
  }

  lemma Relinked(next: seq<int>, count: seq<int>, head: int, next': seq<int>, count': seq<int>, head': int,
                 rs: Runs, i: nat, j: nat, mid: Runs)
    requires Linked(next, count, head, rs) && i <= j <= |rs| && |next'| == |count'| == |next|
    requires forall k {:trigger rs[k]} :: 0 <= k < |rs| ==> rs[k].start < |next|
    requires Rewired(next, count, head, next', count', head', rs, i, j, mid)
    ensures Linked(next', count', head', Splice(rs, i, j, mid))
  {
    var rs' := Splice(rs, i, j, mid);
    forall k | 0 <= k < |rs'| ensures RunAt(next', count', rs', k) {
      RelinkedAt(next, count, head, next', count', head', rs, i, j, mid, k);
    }
    SplicedAt(rs, i, j, mid, 0);
  }

  lemma RelinkedAt(next: seq<int>, count: seq<int>, head: int, next': seq<int>, count': seq<int>, head': int,
                   rs: Runs, i: nat, j: nat, mid: Runs, k: nat)
    requires Linked(next, count, head, rs) && i <= j <= |rs| && |next'| == |count'| == |next|
    requires forall k {:trigger rs[k]} :: 0 <= k < |rs| ==> rs[k].start < |next|
    requires Rewired(next, count, head, next', count', head', rs, i, j, mid) && k < |Splice(rs, i, j, mid)|
    ensures RunAt(next', count', Splice(rs, i, j, mid), k)
  {
    hide Splice, Start;
    SplicedAt(rs, i, j, mid, k);
    SplicedAt(rs, i, j, mid, k + 1);
    if k < i {
      assert RunAt(next, count, rs, k);
      assert k < i - 1 ==> next'[rs[k].start] == next[rs[k].start];
    } else if k >= i + |mid| {
      var l := k - i - |mid| + j;
      assert RunAt(next, count, rs, l);
      assert next'[rs[l].start] == next[rs[l].start];
    } else {
      assert mid[k - i] == mid[0];
    }
  }

  /** Which run is where after a stretch was replaced. */
  lemma SplicedAt(rs: Runs, i: nat, j: nat, mid: Runs, k: nat)
    requires i <= j <= |rs|
    ensures var rs' := Splice(rs, i, j, mid);
            && |rs'| == i + |mid| + |rs| - j
            && (k < i ==> rs'[k] == rs[k])
            && (i <= k < i + |mid| ==> rs'[k] == mid[k - i])
            && (i + |mid| <= k < |rs'| ==> rs'[k] == rs[k - i - |mid| + j])
            && Start(rs', k) == if k < i then Start(rs, k) else if k < i + |mid| then mid[k - i].start
                                                                else Start(rs, k - i - |mid| + j)
  {
  }

  /** The search of rt_slab_page_alloc passes over runs that are too short. */
  lemma {:induction false} TakeAt(rs: Runs, n: nat, i: nat)
    requires n > 0 && i <= |rs| && TooShort(rs, n, i)
    ensures Take(rs, n) == var r := Take(rs[i..], n); Taken(r.first, rs[..i] + r.rest)
  {
    hide Take;
    if i == 0 {
      assert rs[0..] == rs && rs[..0] + Take(rs, n).rest == Take(rs, n).rest;
    } else {
      var tail := rs[1..];
      TakePasses(rs, n);
      TakeAt(tail, n, i - 1);
      assert tail[i - 1..] == rs[i..];
      assert [rs[0]] + tail[..i - 1] == rs[..i];
    }
  }

  lemma TakePasses(rs: Runs, n: nat)
    requires n > 0 && rs != [] && rs[0].len < n
    ensures Take(rs, n) == var r := Take(rs[1..], n); Taken(r.first, [rs[0]] + r.rest)
  {
  }

  ghost predicate TooShort(rs: Runs, n: nat, i: nat)
    requires i <= |rs|
  {
    forall k {:trigger rs[k]} :: 0 <= k < i ==> rs[k].len < n
  }

  /** A longer run is split. */
  lemma TakeSplits(rs: Runs, n: nat, i: nat)
    requires n > 0 && i < |rs| && TooShort(rs, n, i) && rs[i].len > n
    ensures Take(rs, n) == Taken(Some(rs[i].start), Splice(rs, i, i + 1, [Run(rs[i].start + n, rs[i].len - n)]))
  {
    TakeAt(rs, n, i);
    assert rs[i..][0] == rs[i] && rs[i..][1..] == rs[i + 1..];
    var rest := [Run(rs[i].start + n, rs[i].len - n)];
    assert rs[..i] + (rest + rs[i + 1..]) == Splice(rs, i, i + 1, rest);
  }

  /** A run of the right length is handed out whole. */
  lemma TakeFits(rs: Runs, n: nat, i: nat)
    requires n > 0 && i < |rs| && TooShort(rs, n, i) && rs[i].len == n
    ensures Take(rs, n) == Taken(Some(rs[i].start), Splice(rs, i, i + 1, []))
  {
    TakeAt(rs, n, i);
    assert rs[i..][0] == rs[i] && rs[i..][1..] == rs[i + 1..];
    assert rs[..i] + rs[i + 1..] == Splice(rs, i, i + 1, []);
  }

  lemma TakeNone(rs: Runs, n: nat)
    requires n > 0 && TooShort(rs, n, |rs|)
    ensures Take(rs, n) == Taken(None, rs)
  {
    TakeAt(rs, n, |rs|);
    assert rs[..|rs|] == rs && rs[|rs|..] == [];
  }

  /** The search of rt_slab_page_free passes over run b. */
  predicate Passes(b: Run, a: nat, n: nat) {
    b.start + b.len != a && b.start != a + n && b.start <= a + n
  }

  lemma GiveStep(rs: Runs, a: nat, n: nat)
    requires rs != [] && Passes(rs[0], a, n)
    ensures Give(rs, a, n) == [rs[0]] + Give(rs[1..], a, n)
  {
  }

  lemma {:induction false} GiveAt(rs: Runs, a: nat, n: nat, i: nat)
    requires i <= |rs| && AllPass(rs, a, n, i)
    ensures Give(rs, a, n) == rs[..i] + Give(rs[i..], a, n)
  {
    hide Give, Passes;
    if i == 0 {
      assert rs[0..] == rs && rs[..0] + Give(rs, a, n) == Give(rs, a, n);
    } else {
      GiveStep(rs, a, n);
      GiveAt(rs[1..], a, n, i - 1);
      assert rs[1..][i - 1..] == rs[i..];
      var r := Give(rs[i..], a, n);
      assert [rs[0]] + (rs[1..][..i - 1] + r) == rs[..i] + r;
    }
  }

  /** The pages at which runs start, below and above run i. */
  lemma StartsApart(rs: Runs, lo: nat, hi: nat, i: nat)
    requires Sorted(rs, lo, hi) && i < |rs|
    ensures forall k {:trigger rs[k]} :: 0 <= k < i ==> rs[k].start < rs[i].start
    ensures forall k {:trigger rs[k]} :: i < k < |rs| ==> rs[i].start + rs[i].len < rs[k].start
  {
    forall k | 0 <= k < |rs| ensures k < i ==> rs[k].start < rs[i].start
                             ensures i < k ==> rs[i].start + rs[i].len < rs[k].start {
      if k < i {
        Ascending(rs, lo, hi, k, i);
      } else {
        Ascending(rs, lo, hi, i, k);
      }
    }
  }

  /** Where *prev points: behind run i - 1, or from the list head. */
  function Through(next: seq<int>, rs: Runs, i: nat, x: int): seq<int>
    requires i <= |rs| && (i > 0 ==> rs[i - 1].start < |next|)
  {
    if i == 0 then next else next[rs[i - 1].start := x]
  }

  function HeadThrough(head: int, i: nat, x: int): int {
    if i == 0 then x else head
  }

  /** A new page q takes the place of runs i up to j, whose pages it does not disturb. */
  lemma PageReplaces(next: seq<int>, count: seq<int>, head: int, rs: Runs, i: nat, j: nat, q: nat, len: nat)
    requires Linked(next, count, head, rs) && i <= j <= |rs| && q < |next|
    requires forall k {:trigger rs[k]} :: 0 <= k < |rs| ==> rs[k].start < |next|
    requires forall k {:trigger rs[k]} :: (0 <= k < i || j <= k < |rs|) ==> rs[k].start != q
    requires i > 0 ==> forall k {:trigger rs[k]} :: (0 <= k < i - 1 || i <= k < |rs|) ==> rs[k].start != rs[i - 1].start
    ensures var next', head' := Through(next[q := Start(rs, j)], rs, i, q), HeadThrough(head, i, q);
            Linked(next', count[q := len], head', Splice(rs, i, j, [Run(q, len)]))
  {
    var next', head' := Through(next[q := Start(rs, j)], rs, i, q), HeadThrough(head, i, q);
    Relinked(next, count, head, next', count[q := len], head', rs, i, j, [Run(q, len)]);
  }

  /** Runs i up to j leave the list. */
  lemma NothingReplaces(next: seq<int>, count: seq<int>, head: int, rs: Runs, i: nat, j: nat)
    requires Linked(next, count, head, rs) && i <= j <= |rs|
    requires forall k {:trigger rs[k]} :: 0 <= k < |rs| ==> rs[k].start < |next|
    requires i > 0 ==> forall k {:trigger rs[k]} :: (0 <= k < i - 1 || i <= k < |rs|) ==> rs[k].start != rs[i - 1].start
    ensures var next', head' := Through(next, rs, i, Start(rs, j)), HeadThrough(head, i, Start(rs, j));
            Linked(next', count, head', Splice(rs, i, j, []))
  {
    var next', head' := Through(next, rs, i, Start(rs, j)), HeadThrough(head, i, Start(rs, j));
    Relinked(next, count, head, next', count, head', rs, i, j, []);
  }

  /** Run i grows to len pages and swallows the runs up to j. */
  lemma PageGrows(next: seq<int>, count: seq<int>, head: int, rs: Runs, i: nat, j: nat, len: nat)
    requires Linked(next, count, head, rs) && i < j <= |rs|
    requires forall k {:trigger rs[k]} :: 0 <= k < |rs| ==> rs[k].start < |next|
    requires forall k {:trigger rs[k]} :: 0 <= k < |rs| && k != i ==> rs[k].start != rs[i].start
    ensures var b := rs[i].start;
            Linked(next[b := Start(rs, j)], count[b := len], head, Splice(rs, i, j, [Run(b, len)]))
  {
    var b := rs[i].start;
    assert i > 0 ==> RunAt(next, count, rs, i - 1);
    Relinked(next, count, head, next[b := Start(rs, j)], count[b := len], head, rs, i, j, [Run(b, len)]);
  }

  /** The first i runs are passed over by the search of rt_slab_page_free. */
  ghost predicate AllPass(rs: Runs, a: nat, n: nat, i: nat)
    requires i <= |rs|
  {
    forall k {:trigger rs[k]} :: 0 <= k < i ==> Passes(rs[k], a, n)
  }

  /** What giving back n pages from a on comes to when run i stops the search. */
  function GiveStops(rs: Runs, a: nat, n: nat, i: nat): Runs
    requires i <= |rs|
  {
    if i < |rs| && rs[i].start + rs[i].len == a then
      (if i + 1 < |rs| && a + n == rs[i + 1].start
       then Splice(rs, i, i + 2, [Run(rs[i].start, rs[i].len + n + rs[i + 1].len)])
       else Splice(rs, i, i + 1, [Run(rs[i].start, rs[i].len + n)]))
    else if i < |rs| && rs[i].start == a + n then Splice(rs, i, i + 1, [Run(a, n + rs[i].len)])
    else Splice(rs, i, i, [Run(a, n)])
  }

  lemma GiveAtStop(rs: Runs, a: nat, n: nat, i: nat)
    requires i <= |rs| && AllPass(rs, a, n, i) && (i < |rs| ==> !Passes(rs[i], a, n))
    ensures Give(rs, a, n) == GiveStops(rs, a, n, i)
  {
    hide AllPass, Splice, Give;
    GiveAt(rs, a, n, i);
    StopSpliced(rs, a, n, i);
  }

  lemma StopSpliced(rs: Runs, a: nat, n: nat, i: nat)
    requires i <= |rs| && (i < |rs| ==> !Passes(rs[i], a, n))
    ensures rs[..i] + Give(rs[i..], a, n) == GiveStops(rs, a, n, i)
  {
    hide Splice;
    if i < |rs| && rs[i].start + rs[i].len == a {
      if i + 1 < |rs| && a + n == rs[i + 1].start {
        TailSpliced(rs, i, i + 2, [Run(rs[i].start, rs[i].len + n + rs[i + 1].len)]);
      } else {
        TailSpliced(rs, i, i + 1, [Run(rs[i].start, rs[i].len + n)]);
      }
    } else if i < |rs| && rs[i].start == a + n {
      TailSpliced(rs, i, i + 1, [Run(a, n + rs[i].len)]);
    } else {
      TailSpliced(rs, i, i, [Run(a, n)]);
    }
  }

  lemma TailSpliced(rs: Runs, i: nat, j: nat, mid: Runs)
    requires i <= j <= |rs|
    ensures rs[..i] + (mid + rs[i..][j - i..]) == Splice(rs, i, j, mid)
  {
    assert rs[i..][j - i..] == rs[j..];
  }

  class PageList {
    const total: nat                     // pages managed, numbered from 0
    const next: array<int>               // of the rt_slab_page at the start of a run
    const count: array<int>              // its field page
    var head: int                        // page_list
    ghost var runs: Runs

    ghost predicate Shaped()
    {
      next.Length == count.Length == total && next != count
    }

    ghost predicate Valid()
      reads this, next, count
    {
      && Shaped()
      && Linked(next[..], count[..], head, runs) && Sorted(runs, 0, total)
    }

    /** rt_slab_page_init */
    constructor (total: nat)
      requires total > 0
      ensures Valid() && runs == [Run(0, total)] && this.total == total && fresh(next) && fresh(count)
    {
      this.total := total;
      next, count := new int[total], new int[total];
      head := 0;
      runs := [Run(0, total)];
      new;
      next[0], count[0] := NULL, total;
    }

    /** Link i of the list and the run behind it, as the pages hold them. */
    lemma RunIs(i: nat)
      requires Valid() && i <= |runs|
      ensures Start(runs, i) == NULL <==> i == |runs|
      ensures i < |runs| ==> var b := runs[i].start;
                b < total && next[b] == Start(runs, i + 1) && count[b] == runs[i].len && b + runs[i].len <= total
                && runs[i].len > 0
    {
      if i < |runs| {
        Ascending(runs, 0, total, i, i);
        assert RunAt(next[..], count[..], runs, i);
      }
    }

    /** The pages around link i of the list are all different. */
    lemma PagesApart(i: nat)
      requires Valid() && i <= |runs|
      ensures forall k {:trigger runs[k]} :: 0 <= k < |runs| ==> runs[k].start < total
      ensures i > 0 ==> forall k {:trigger runs[k]} :: 0 <= k < |runs| && k != i - 1 ==>
                runs[k].start != runs[i - 1].start
      ensures i < |runs| ==> forall k {:trigger runs[k]} :: 0 <= k < |runs| && k != i ==>
                !In(runs[k].start, runs[i].start, runs[i].len + 1)
    {
      StartsIn(next[..], count[..], head, runs);
      if i > 0 {
        StartsApart(runs, 0, total, i - 1);
      }
      if i < |runs| {
        StartsApart(runs, 0, total, i);
      }
    }

    /** prev is the link in front of run i. */
    ghost predicate IsPrev(prev: int, rs: Runs, i: nat)
      requires i <= |rs|
    {
      if i == 0 then prev == NULL else prev == rs[i - 1].start < total
    }

    /** *prev := x */
    method Store(prev: int, x: int, ghost rs: Runs, ghost i: nat)
      requires Shaped() && i <= |rs| && IsPrev(prev, rs, i)
      modifies this`head, next
      ensures i > 0 ==> rs[i - 1].start < |old(next[..])|
      ensures next[..] == Through(old(next[..]), rs, i, x) && head == HeadThrough(old(head), i, x)
    {
      if prev == NULL {
        head := x;
      } else {
        next[prev] := x;
      }
    }

    /** The list after a step. */
    lemma Relisted()
      requires Shaped() && Linked(next[..], count[..], head, runs) && Sorted(runs, 0, total)
      ensures Valid()
    {
    }

    /** rt_slab_page_alloc */
    method Alloc(n: nat) returns (r: Option<nat>)
      requires Valid()
      modifies this`head, this`runs, next, count
      ensures Valid()
      ensures n == 0 ==> r.None? && runs == old(runs)
      ensures n > 0 ==> Taken(r, runs) == Take(old(runs), n)
      // the lowest n free pages that lie side by side, if there are any
      ensures r.Some? ==> IsLowest(old(runs), r.value, n)
    {
      if n == 0 {
        return None;
      }
      hide *;
      LowestHere(n);
      var prev, b, i := Find(n);
      AllocReady(n, i);
      if b == NULL {
        return None;
      }
      if count[b] > n {
        Split(prev, b, n, i);
      } else {
        Unlink(prev, b, i);
      }
      r := Some(b);
    }

    lemma LowestHere(n: nat)
      requires Valid() && n > 0
      ensures Take(runs, n).first.Some? ==> IsLowest(runs, Take(runs, n).first.value, n)
    {
      TakenIsLowest(runs, n, 0, total);
    }

    /** What the search of an allocation has found. */
    lemma AllocReady(n: nat, i: nat)
      requires Valid() && n > 0 && i <= |runs| && TooShort(runs, n, i) && (i < |runs| ==> runs[i].len >= n)
      ensures Start(runs, i) == (if i < |runs| then runs[i].start else NULL) && NULL < 0
      ensures i == |runs| ==> Take(runs, n) == Taken(None, runs)
      ensures i < |runs| ==>
                runs[i].start < total && count[runs[i].start] == runs[i].len && next.Length == count.Length == total
      ensures i < |runs| ==> Take(runs, n) == Taken(Some(runs[i].start),
                if runs[i].len > n then Splice(runs, i, i + 1, [Run(runs[i].start + n, runs[i].len - n)])
                else Splice(runs, i, i + 1, []))
      ensures Sorted(Take(runs, n).rest, 0, total)
    {
      hide Take, Sorted, Splice, Linked;
      RunIs(i);
      TakeConserves(runs, n, 0, total);
      if i == |runs| {
        TakeNone(runs, n);
      } else if runs[i].len > n {
        TakeSplits(runs, n, i);
      } else {
        TakeFits(runs, n, i);
      }
    }

    /** The search of rt_slab_page_alloc: the first run of at least n pages, and the link that leads to it. */
    method Find(n: nat) returns (prev: int, b: int, ghost i: nat)
      requires Valid() && n > 0
      ensures i <= |runs| && b == Start(runs, i) && TooShort(runs, n, i)
      ensures IsPrev(prev, runs, i)
      ensures i < |runs| ==> runs[i].len >= n
    {
      prev, b := NULL, head;
      i := 0;
      RunIs(0);
      hide Valid, Start, TooShort, IsPrev;
      while b != NULL && count[b] < n
        invariant i <= |runs| && b == Start(runs, i) && IsPrev(prev, runs, i) && TooShort(runs, n, i)
        invariant Reaches(b, i)
        decreases |runs| - i
      {
        StepsOn(b, i);
        TooShortNext(n, i);
        prev, b := b, next[b];
        i := i + 1;
      }
    }

    /** What the walk knows of the run it stands at. */
    ghost predicate Reaches(b: int, i: nat)
      reads this`runs, next, count
    {
      && i <= |runs| && next.Length == count.Length == total && (b == NULL <==> i == |runs|)
      && (i < |runs| ==> b == runs[i].start < total && count[b] == runs[i].len)
    }

    /** One step of the walk along the links. */
    lemma StepsOn(b: int, i: nat)
      requires Valid() && Reaches(b, i) && i < |runs|
      ensures next[b] == Start(runs, i + 1) && IsPrev(b, runs, i + 1) && Reaches(next[b], i + 1)
    {
      hide Sorted, Linked;
      RunIs(i);
      RunIs(i + 1);
    }

    lemma TooShortNext(n: nat, i: nat)
      requires i < |runs| && TooShort(runs, n, i) && runs[i].len < n
      ensures TooShort(runs, n, i + 1)
    {
    }

    /** The first n pages of run i are handed out; the rest takes its place. */
    method Split(prev: int, b: nat, n: nat, ghost i: nat)
      requires Valid() && i < |runs| && b == runs[i].start && 0 < n < runs[i].len && IsPrev(prev, runs, i)
      requires Sorted(Splice(runs, i, i + 1, [Run(b + n, runs[i].len - n)]), 0, total)
      modifies this`head, this`runs, next, count
      ensures Valid() && runs == Splice(old(runs), i, i + 1, [Run(b + n, old(runs)[i].len - n)])
    {
      hide Sorted, Splice, Linked, Through, HeadThrough, Start;
      ghost var rs := runs;
      SplitReady(n, i);
      var q := b + n;
      WritePage(q, next[b], count[b] - n);
      Store(prev, q, rs, i);
      runs := Splice(rs, i, i + 1, [Run(q, rs[i].len - n)]);
      Relisted();
    }

    /** The fields of the rt_slab_page at page q. */
    method WritePage(q: nat, x: int, pages: int)
      requires Shaped() && q < total
      modifies next, count
      ensures next[..] == old(next[..])[q := x] && count[..] == old(count[..])[q := pages]
    {
      next[q] := x;
      count[q] := pages;
    }

    /** The list that results from splitting run i. */
    lemma SplitReady(n: nat, i: nat)
      requires Valid() && i < |runs| && 0 < n < runs[i].len
      ensures var b, q, len := runs[i].start, runs[i].start + n, runs[i].len;
              && q < total == next.Length == count.Length && next[b] == Start(runs, i + 1) && count[b] == len
              && (i > 0 ==> runs[i - 1].start < total)
              && var next', head' := Through(next[..][q := Start(runs, i + 1)], runs, i, q), HeadThrough(head, i, q);
                 Linked(next', count[..][q := len - n], head', Splice(runs, i, i + 1, [Run(q, len - n)]))
    {
      hide Sorted, Splice;
      PagesApart(i);
      RunIs(i);
      PageReplaces(next[..], count[..], head, runs, i, i + 1, runs[i].start + n, runs[i].len - n);
    }

    /** Run i is handed out whole. */
    method Unlink(prev: int, b: nat, ghost i: nat)
      requires Valid() && i < |runs| && b == runs[i].start && IsPrev(prev, runs, i)
      requires Sorted(Splice(runs, i, i + 1, []), 0, total)
      modifies this`head, this`runs, next
      ensures Valid() && runs == Splice(old(runs), i, i + 1, [])
    {
      hide Linked, Sorted, Splice, Through, HeadThrough;
      ghost var rs := runs;
      PagesApart(i);
      RunIs(i);
      NothingReplaces(next[..], count[..], head, rs, i, i + 1);
      Store(prev, next[b], rs, i);
      runs := Splice(rs, i, i + 1, []);
    }

    /** rt_slab_page_free of n pages from a on, none of which is free. */
    method Give(a: nat, n: nat)
      requires Valid() && n > 0 && a + n <= total && NoneFree(runs, a, n)
      modifies this`head, this`runs, next, count
      ensures Valid() && runs == SlabPages.Give(old(runs), a, n)
    {
      hide Sorted, Linked, Splice, Start, AllPass, NoneFree;
      var prev, b, i := FindStop(a, n);
      GiveReady(a, n, i);
      if b != NULL && b + count[b] == a {
        Extend(b, n, i, a);
      } else if b != NULL && b == a + n {
        Insert(prev, a, n + count[b], next[b], i, i + 1);
      } else {
        Insert(prev, a, n, b, i, i);
      }
    }

    /** The search of rt_slab_page_free. */
    method FindStop(a: nat, n: nat) returns (prev: int, b: int, ghost i: nat)
      requires Valid()
      ensures i <= |runs| && b == Start(runs, i) && AllPass(runs, a, n, i) && (i < |runs| ==> !Passes(runs[i], a, n))
      ensures IsPrev(prev, runs, i)
    {
      prev, b := NULL, head;
      i := 0;
      RunIs(0);
      hide Valid, Start, AllPass, IsPrev;
      while b != NULL && b + count[b] != a && b != a + n && b <= a + n
        invariant i <= |runs| && b == Start(runs, i) && IsPrev(prev, runs, i) && AllPass(runs, a, n, i)
        invariant Reaches(b, i)
        decreases |runs| - i
      {
        StepsOn(b, i);
        AllPassNext(a, n, i);
        prev, b := b, next[b];
        i := i + 1;
      }
    }

    lemma AllPassNext(a: nat, n: nat, i: nat)
      requires i < |runs| && AllPass(runs, a, n, i) && Passes(runs[i], a, n)
      ensures AllPass(runs, a, n, i + 1)
    {
    }

    /** What the search of rt_slab_page_free has found. */
    lemma GiveReady(a: nat, n: nat, i: nat)
      requires Valid() && n > 0 && a + n <= total && NoneFree(runs, a, n)
      requires i <= |runs| && AllPass(runs, a, n, i) && (i < |runs| ==> !Passes(runs[i], a, n))
      ensures SlabPages.Give(runs, a, n) == GiveStops(runs, a, n, i) && Sorted(GiveStops(runs, a, n, i), 0, total)
      ensures Start(runs, i) == if i < |runs| then runs[i].start else NULL
      ensures i < |runs| ==>
                && runs[i].start < total && count[runs[i].start] == runs[i].len
                && next[runs[i].start] == Start(runs, i + 1)
      ensures next.Length == count.Length == total
      ensures forall k {:trigger runs[k]} :: 0 <= k < |runs| ==> runs[k].start != a
    {
      GiveSorted(runs, a, n, 0, total);
      GiveAtStop(runs, a, n, i);
      RunIs(i);
      forall k {:trigger runs[k]} | 0 <= k < |runs| ensures runs[k].start != a {
        FreeStart(runs, 0, total, k);
        assert Free(runs, runs[k].start);
      }
    }

    /** Run i, which ends at a, grows by n pages and swallows a run that follows at once. */
    method Extend(b: nat, n: nat, ghost i: nat, ghost a: nat)
      requires Valid() && i < |runs| && b == runs[i].start && b + runs[i].len == a && n > 0
      requires Sorted(GiveStops(runs, a, n, i), 0, total)
      modifies this`runs, next, count
      ensures Valid() && runs == GiveStops(old(runs), a, n, i)
    {
      hide Sorted, Linked, Splice;
      ghost var rs, nx, ct := runs, next[..], count[..];
      RunIs(i);
      if i + 1 < |rs| { RunIs(i + 1); }
      PagesApart(i);
      ghost var j := if i + 1 < |rs| && a + n == rs[i + 1].start then i + 2 else i + 1;
      ghost var len := rs[i].len + n + if j == i + 2 then rs[i + 1].len else 0;
      PageGrows(nx, ct, head, rs, i, j, len);
      assert nx[b := next[b]] == nx;
      count[b] := count[b] + n;
      if b + count[b] == next[b] {
        count[b] := count[b] + count[next[b]];
        next[b] := next[next[b]];
      }
      assert next[..] == nx[b := Start(rs, j)];
      assert count[..] == ct[b := len];
      runs := GiveStops(rs, a, n, i);
    }

    /** A run of len pages from a on goes in front of what x points at, in place of runs i up to j. */
    method Insert(prev: int, a: nat, len: nat, x: int, ghost i: nat, ghost j: nat)
      requires Valid() && i <= j <= |runs| && j <= i + 1 && x == Start(runs, j) && IsPrev(prev, runs, i) && a < total
      requires forall k {:trigger runs[k]} :: 0 <= k < |runs| ==> runs[k].start != a
      requires Sorted(Splice(runs, i, j, [Run(a, len)]), 0, total)
      modifies this`head, this`runs, next, count
      ensures Valid() && runs == Splice(old(runs), i, j, [Run(a, len)])
    {
      hide Sorted, Linked, Splice, Start, Through, HeadThrough;
      ghost var rs := runs;
      PagesApart(i);
      PageReplaces(next[..], count[..], head, rs, i, j, a, len);
      WritePage(a, x, len);
      Store(prev, a, rs, i);
      runs := Splice(rs, i, j, [Run(a, len)]);
    }
  }

  /** The first page of every run is free. */
  lemma {:induction false} FreeStart(rs: Runs, lo: nat, hi: nat, k: nat)
    requires Sorted(rs, lo, hi) && k < |rs|
    ensures Free(rs, rs[k].start)
  {
    if k > 0 {
      FreeStart(rs[1..], rs[0].start + rs[0].len + 1, hi, k - 1);
    }
  }
}
