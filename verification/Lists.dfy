/** Facts about sequences used as kernel lists, and the Option type. */
module Lists {

  datatype Option<+T> = None | Some(value: T)

  /** A node sits in an intrusive list at most once. */
  ghost predicate NoDuplicates<T>(s: seq<T>) {
    forall i, j :: 0 <= i < j < |s| ==> s[i] != s[j]
  }

  /** rt_list_remove seen from the list: the node x is unlinked, the order of the others is kept. */
  function Remove<T(==, !new)>(s: seq<T>, x: T): (r: seq<T>)
    ensures x !in r
    ensures forall y :: y != x ==> (y in r <==> y in s)
    ensures |r| <= |s|
    ensures x !in s ==> r == s
  {
    if s == [] then []
    else if s[0] == x then Remove(s[1..], x)
    else [s[0]] + Remove(s[1..], x)
  }

  /** Removing a node leaves a duplicate-free list duplicate-free. */
  lemma {:induction false} RemoveDistinct<T(!new)>(s: seq<T>, x: T)
    requires NoDuplicates(s)
    ensures NoDuplicates(Remove(s, x))
  {
    if s != [] {
      RemoveDistinct(s[1..], x);
      assert s[0] !in s[1..];
    }
  }

  /** Removing one node from a duplicate-free list leaves everything else in place. */
  lemma {:induction false} RemoveSplits<T(!new)>(s: seq<T>, x: T, i: nat)
    requires NoDuplicates(s) && i < |s| && s[i] == x
    ensures Remove(s, x) == s[..i] + s[i + 1..]
    ensures NoDuplicates(Remove(s, x))
  {
    RemoveDistinct(s, x);
    if i == 0 {
      assert x !in s[1..];
    } else {
      RemoveSplits(s[1..], x, i - 1);
      assert s[1..][..i - 1] == s[1..i] && s[1..][i..] == s[i + 1..];
    }
  }

  /** Putting a new node at position i keeps a list duplicate-free. */
  lemma InsertKeepsDistinct<T(!new)>(s: seq<T>, i: nat, x: T)
    requires NoDuplicates(s) && i <= |s| && x !in s
    ensures NoDuplicates(s[..i] + [x] + s[i..])
    ensures forall y :: y in s[..i] + [x] + s[i..] <==> y == x || y in s
  {
    var r := s[..i] + [x] + s[i..];
    forall y ensures y in r <==> y == x || y in s {
      if y in s {
        var k :| 0 <= k < |s| && s[k] == y;
        assert r[if k < i then k else k + 1] == y;
      }
      assert r[i] == x;
    }
  }
}
