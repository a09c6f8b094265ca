/** The page list of slab.c, on values: runs of free pages in address order. */
module SlabPages {
  import opened Lists

  /** len free pages from page start on: struct rt_slab_page at the first of them. */
  datatype Run = Run(start: nat, len: nat)

  type Runs = seq<Run>

  /** Runs in [lo, hi), ascending, not empty, and with at least one page between two of them. */
  ghost predicate Sorted(rs: Runs, lo: nat, hi: nat) {
    rs == [] || (lo <= rs[0].start && rs[0].len > 0 && rs[0].start + rs[0].len <= hi
                 && Sorted(rs[1..], rs[0].start + rs[0].len + 1, hi))
  }

  /** Page p is free. */
  predicate Free(rs: Runs, p: nat) {
    rs != [] && (rs[0].start <= p < rs[0].start + rs[0].len || Free(rs[1..], p))
  }

  predicate In(p: nat, a: nat, n: nat) {
    a <= p < a + n
  }

  lemma {:induction false} FreeWithin(rs: Runs, lo: nat, hi: nat, p: nat)
    requires Sorted(rs, lo, hi) && Free(rs, p)
    ensures lo <= p < hi
  {
    if !(rs[0].start <= p < rs[0].start + rs[0].len) {
      FreeWithin(rs[1..], rs[0].start + rs[0].len + 1, hi, p);
    }
  }

  /** Page lists with the same free pages are equal: the list is in normal form. */
  lemma {:induction false} NormalForm(a: Runs, b: Runs, lo: nat, hi: nat)
    requires Sorted(a, lo, hi) && Sorted(b, lo, hi)
    requires forall p: nat :: Free(a, p) <==> Free(b, p)
    ensures a == b
    decreases |a|
  {
    if a == [] {
      if b != [] {
        assert Free(b, b[0].start);
      }
    } else if b == [] {
      assert Free(a, a[0].start);
    } else {
      SameFirst(a, b, lo, hi);
      var next := a[0].start + a[0].len + 1;
      forall p: nat ensures Free(a[1..], p) <==> Free(b[1..], p) {
        assert Free(a, p) <==> Free(b, p);
        if Free(a[1..], p) { FreeWithin(a[1..], next, hi, p); }
        if Free(b[1..], p) { FreeWithin(b[1..], next, hi, p); }
      }
      NormalForm(a[1..], b[1..], next, hi);
    }
  }

  /** The first run of a sorted list can be read off its free pages. */
  lemma SameFirst(a: Runs, b: Runs, lo: nat, hi: nat)
    requires Sorted(a, lo, hi) && Sorted(b, lo, hi) && a != [] && b != []
    requires forall p: nat :: Free(a, p) <==> Free(b, p)
    ensures a[0] == b[0]
  {
    FirstNotAfter(a, b, lo, hi);
    FirstNotAfter(b, a, lo, hi);
    EndsNotAfter(a, b, lo, hi);
    EndsNotAfter(b, a, lo, hi);
  }

  lemma FirstNotAfter(a: Runs, b: Runs, lo: nat, hi: nat)
    requires Sorted(a, lo, hi) && Sorted(b, lo, hi) && a != [] && b != []
    requires forall p: nat :: Free(a, p) <==> Free(b, p)
    ensures b[0].start <= a[0].start
  {
    var p := a[0].start;
    assert Free(b, p);
    if !(b[0].start <= p < b[0].start + b[0].len) {
      FreeWithin(b[1..], b[0].start + b[0].len + 1, hi, p);
    }
  }

  lemma EndsNotAfter(a: Runs, b: Runs, lo: nat, hi: nat)
    requires Sorted(a, lo, hi) && Sorted(b, lo, hi) && a != [] && b != [] && a[0].start == b[0].start
    requires forall p: nat :: Free(a, p) <==> Free(b, p)
    ensures b[0].len <= a[0].len
  {
    if a[0].len < b[0].len {
      var p := a[0].start + a[0].len;
      assert Free(b, p);
      assert Free(a, p);
      FreeWithin(a[1..], a[0].start + a[0].len + 1, hi, p);
    }
  }

  // ---------------------------------------------------------------- rt_slab_page_alloc

  /** The first page handed out, if any, and the page list left. */
  datatype Taken = Taken(first: Option<nat>, rest: Runs)

  /** A request for n pages. */
  function Take(rs: Runs, n: nat): Taken
    requires n > 0
  {
    if rs == [] then Taken(None, [])
    else if rs[0].len > n then Taken(Some(rs[0].start), [Run(rs[0].start + n, rs[0].len - n)] + rs[1..])
    else if rs[0].len == n then Taken(Some(rs[0].start), rs[1..])
    else var r := Take(rs[1..], n); Taken(r.first, [rs[0]] + r.rest)
  }

  lemma {:induction false} SortedLower(rs: Runs, lo: nat, lo': nat, hi: nat)
    requires Sorted(rs, lo, hi) && lo' <= lo
    ensures Sorted(rs, lo', hi)
  {
  }

  /** n pages that were free are free no longer; every other page is as before. */
  lemma {:induction false} TakeConserves(rs: Runs, n: nat, lo: nat, hi: nat)
    requires n > 0 && Sorted(rs, lo, hi)
    ensures var Taken(a, rs') := Take(rs, n);
            && Sorted(rs', lo, hi)
            && (a.None? ==> rs' == rs)
            && (a.Some? ==> && lo <= a.value && a.value + n <= hi
                            && (forall p: nat {:trigger Free(rs', p)} :: Free(rs', p) <==>
                                  Free(rs, p) && !In(p, a.value, n))
                            && forall p: nat {:trigger In(p, a.value, n)} :: In(p, a.value, n) ==> Free(rs, p))
  {
    if rs != [] {
      var Taken(a, rs') := Take(rs, n);
      var next := rs[0].start + rs[0].len + 1;
      if rs[0].len > n {
        assert rs'[1..] == rs[1..];
      } else if rs[0].len == n {
        SortedLower(rs[1..], next, lo, hi);
      } else {
        TakeConserves(rs[1..], n, next, hi);
        assert rs'[1..] == Take(rs[1..], n).rest;
      }
      if a.Some? {
        forall p: nat ensures Free(rs', p) <==> Free(rs, p) && !In(p, a.value, n)
                      ensures In(p, a.value, n) ==> Free(rs, p) {
          TakePage(rs, n, lo, hi, p);
        }
      }
    }
  }

  /** The same for one page. */
  lemma {:induction false} TakePage(rs: Runs, n: nat, lo: nat, hi: nat, p: nat)
    requires n > 0 && Sorted(rs, lo, hi) && Take(rs, n).first.Some?
    ensures var Taken(a, rs') := Take(rs, n);
            && a.value >= lo
            && (Free(rs', p) <==> Free(rs, p) && !In(p, a.value, n)) && (In(p, a.value, n) ==> Free(rs, p))
  {
    var Taken(a, rs') := Take(rs, n);
    var next := rs[0].start + rs[0].len + 1;
    if Free(rs[1..], p) {
      FreeWithin(rs[1..], next, hi, p);
    }
    if rs[0].len > n {
      assert rs'[1..] == rs[1..];
    } else if rs[0].len < n {
      TakePage(rs[1..], n, next, hi, p);
      assert rs'[1..] == Take(rs[1..], n).rest;
    }
  }

  ghost predicate AllFree(rs: Runs, a: nat, n: nat) {
    forall p: nat {:trigger Free(rs, p)} :: In(p, a, n) ==> Free(rs, p)
  }

  /** A request fails exactly when no n free pages lie side by side. */
  lemma {:induction false} TakeComplete(rs: Runs, n: nat, lo: nat, hi: nat)
    requires n > 0 && Sorted(rs, lo, hi)
    ensures Take(rs, n).first.None? <==> forall a: nat {:trigger AllFree(rs, a, n)} :: !AllFree(rs, a, n)
  {
    if Take(rs, n).first.Some? {
      TakeConserves(rs, n, lo, hi);
      var a := Take(rs, n).first.value;
      assert forall p: nat :: In(p, a, n) ==> Free(rs, p);
      assert AllFree(rs, a, n);
    } else {
      forall a: nat {:trigger AllFree(rs, a, n)} ensures !AllFree(rs, a, n) {
        var p := Hole(rs, n, lo, hi, a);
      }
    }
  }

  /** The pages taken are the lowest that will do. */
  lemma {:induction false} TakeLowest(rs: Runs, n: nat, lo: nat, hi: nat, a: nat)
    requires n > 0 && Sorted(rs, lo, hi) && Take(rs, n).first.Some? && a < Take(rs, n).first.value
    ensures !AllFree(rs, a, n)
  {
    var e := rs[0].start + rs[0].len;
    if Free(rs[1..], a) {
      FreeWithin(rs[1..], e + 1, hi, a);
    }
    if a < rs[0].start {
      assert In(a, a, n) && !Free(rs, a);
    } else if a <= e {
      if Free(rs[1..], e) {
        FreeWithin(rs[1..], e + 1, hi, e);
      }
      assert In(e, a, n) && !Free(rs, e);
    } else {
      TakeLowest(rs[1..], n, e + 1, hi, a);
      var p: nat :| In(p, a, n) && !Free(rs[1..], p);
      assert !Free(rs, p);
    }
  }

  /** a is the lowest page at which n free pages begin. */
  ghost predicate IsLowest(rs: Runs, a: nat, n: nat) {
    AllFree(rs, a, n) && forall b: nat {:trigger AllFree(rs, b, n)} :: b < a ==> !AllFree(rs, b, n)
  }

  lemma TakenIsLowest(rs: Runs, n: nat, lo: nat, hi: nat)
    requires n > 0 && Sorted(rs, lo, hi)
    ensures Take(rs, n).first.Some? ==> IsLowest(rs, Take(rs, n).first.value, n)
  {
    if Take(rs, n).first.Some? {
      TakeConserves(rs, n, lo, hi);
      var a := Take(rs, n).first.value;
      assert forall p: nat :: In(p, a, n) ==> Free(rs, p);
      forall b: nat | b < a ensures !AllFree(rs, b, n) {
        TakeLowest(rs, n, lo, hi, b);
      }
    }
  }

  /** A page that is not free within any n pages, when every run is shorter. */
  lemma {:induction false} Hole(rs: Runs, n: nat, lo: nat, hi: nat, a: nat) returns (p: nat)
    requires n > 0 && Sorted(rs, lo, hi) && Take(rs, n).first.None?
    ensures In(p, a, n) && !Free(rs, p)
  {
    if rs == [] {
      p := a;
    } else {
      var next := rs[0].start + rs[0].len + 1;
      if In(a, rs[0].start, rs[0].len) {
        p := rs[0].start + rs[0].len;
        if Free(rs[1..], p) {
          FreeWithin(rs[1..], next, hi, p);
        }
      } else if a < rs[0].start {
        p := a;
        if Free(rs[1..], p) {
          FreeWithin(rs[1..], next, hi, p);
        }
      } else {
        p := Hole(rs[1..], n, next, hi, a);
      }
    }
  }

  // ---------------------------------------------------------------- rt_slab_page_free

  /** The page list after n pages from a on were given back. */
  function Give(rs: Runs, a: nat, n: nat): Runs {
    if rs == [] then [Run(a, n)]
    else if rs[0].start + rs[0].len == a then
      (if |rs| > 1 && a + n == rs[1].start then [Run(rs[0].start, rs[0].len + n + rs[1].len)] + rs[2..]
       else [Run(rs[0].start, rs[0].len + n)] + rs[1..])
    else if rs[0].start == a + n then [Run(a, n + rs[0].len)] + rs[1..]
    else if rs[0].start > a + n then [Run(a, n)] + rs
    else [rs[0]] + Give(rs[1..], a, n)
  }

  /** None of the pages is free. */
  ghost predicate NoneFree(rs: Runs, a: nat, n: nat) {
    forall p: nat {:trigger Free(rs, p)} :: In(p, a, n) ==> !Free(rs, p)
  }

  /** The list stays in normal form. */
  lemma {:induction false} GiveSorted(rs: Runs, a: nat, n: nat, lo: nat, hi: nat)
    requires n > 0 && Sorted(rs, lo, hi) && lo <= a && a + n <= hi && NoneFree(rs, a, n)
    ensures Sorted(Give(rs, a, n), lo, hi)
  {
    if rs != [] {
      var next := rs[0].start + rs[0].len + 1;
      var g := Give(rs, a, n);
      assert !Free(rs, a) && (In(rs[0].start, a, n) ==> !Free(rs, rs[0].start));
      if rs[0].start + rs[0].len == a {
        if |rs| > 1 {
          assert Free(rs[1..], rs[1].start) && Free(rs, rs[1].start);
          assert rs[1..][1..] == rs[2..];
          if a + n == rs[1].start {
            assert g[1..] == rs[2..];
          } else {
            assert g[1..] == rs[1..];
          }
        } else {
          assert g[1..] == [];
        }
      } else if rs[0].start == a + n {
        assert g[1..] == rs[1..];
      } else if rs[0].start > a + n {
        assert g[1..] == rs;
      } else {
        assert g[1..] == Give(rs[1..], a, n);
        assert forall p: nat :: Free(rs[1..], p) ==> Free(rs, p);
        GiveSorted(rs[1..], a, n, next, hi);
      }
    }
  }

  /** Exactly the pages given back become free. */
  lemma {:induction false} GivePage(rs: Runs, a: nat, n: nat, p: nat)
    ensures Free(Give(rs, a, n), p) <==> Free(rs, p) || In(p, a, n)
  {
    if rs != [] {
      var g := Give(rs, a, n);
      if rs[0].start + rs[0].len == a {
        if |rs| > 1 && a + n == rs[1].start {
          assert g[1..] == rs[2..] && rs[1..][1..] == rs[2..];
        } else {
          assert g[1..] == rs[1..];
        }
      } else if rs[0].start == a + n {
        assert g[1..] == rs[1..];
      } else if rs[0].start > a + n {
        assert g[1..] == rs;
      } else {
        assert g[1..] == Give(rs[1..], a, n);
        GivePage(rs[1..], a, n, p);
      }
    }
  }

  /** Freeing a run just allocated restores the list. */
  lemma TakeThenGive(rs: Runs, n: nat, lo: nat, hi: nat)
    requires n > 0 && Sorted(rs, lo, hi) && Take(rs, n).first.Some?
    ensures Give(Take(rs, n).rest, Take(rs, n).first.value, n) == rs
  {
    var Taken(r, rs') := Take(rs, n);
    TakeConserves(rs, n, lo, hi);
    GiveSorted(rs', r.value, n, lo, hi);
    forall p: nat ensures Free(Give(rs', r.value, n), p) <==> Free(rs, p) {
      GivePage(rs', r.value, n, p);
      assert In(p, r.value, n) ==> Free(rs, p);
      assert Free(rs', p) <==> Free(rs, p) && !In(p, r.value, n);
    }
    NormalForm(Give(rs', r.value, n), rs, lo, hi);
  }

  /** The order in which two runs are given back does not matter. */
  lemma GiveCommutes(rs: Runs, a: nat, n: nat, b: nat, m: nat, lo: nat, hi: nat)
    requires n > 0 && m > 0 && Sorted(rs, lo, hi) && lo <= a && a + n <= hi && lo <= b && b + m <= hi
    requires NoneFree(rs, a, n) && NoneFree(rs, b, m) && (a + n <= b || b + m <= a)
    ensures Give(Give(rs, a, n), b, m) == Give(Give(rs, b, m), a, n)
  {
    forall p: nat ensures Free(Give(rs, a, n), p) <==> Free(rs, p) || In(p, a, n)
                  ensures Free(Give(rs, b, m), p) <==> Free(rs, p) || In(p, b, m) {
      GivePage(rs, a, n, p);
      GivePage(rs, b, m, p);
    }
    GiveSorted(rs, a, n, lo, hi);
    GiveSorted(rs, b, m, lo, hi);
    GiveSorted(Give(rs, a, n), b, m, lo, hi);
    GiveSorted(Give(rs, b, m), a, n, lo, hi);
    forall p: nat ensures Free(Give(Give(rs, a, n), b, m), p) <==> Free(Give(Give(rs, b, m), a, n), p) {
      GivePage(Give(rs, a, n), b, m, p);
      GivePage(Give(rs, b, m), a, n, p);
    }
    NormalForm(Give(Give(rs, a, n), b, m), Give(Give(rs, b, m), a, n), lo, hi);
  }
}
