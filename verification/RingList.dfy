/** The intrusive circular doubly linked lists of rtservice.h: nodes are indices into the arrays of links. */
module RingList {
  import opened Lists

  /** The node behind position i of the ring that starts and ends at head. */
  function Around(head: nat, nodes: seq<nat>, i: nat): nat {
    if 0 < i <= |nodes| then nodes[i - 1] else head
  }

  /** b follows a: their links point at each other. */
  ghost predicate Joined(next: seq<int>, prev: seq<int>, a: nat, b: nat) {
    a < |next| && b < |prev| && next[a] == b && prev[b] == a
  }

  /** The list whose head is head holds exactly nodes, in this order, with matching back links. */
  ghost predicate IsRing(next: seq<int>, prev: seq<int>, head: nat, nodes: seq<nat>) {
    && |next| == |prev|
    && NoDuplicates(nodes)
    && head !in nodes
    && forall i {:trigger Around(head, nodes, i)} :: 0 <= i <= |nodes| ==>
         Joined(next, prev, Around(head, nodes, i), Around(head, nodes, i + 1))
  }

  lemma RingAt(next: seq<int>, prev: seq<int>, head: nat, nodes: seq<nat>, i: nat)
    requires IsRing(next, prev, head, nodes) && i <= |nodes|
    ensures Joined(next, prev, Around(head, nodes, i), Around(head, nodes, i + 1))
  {
    var a := Around(head, nodes, i);
  }

  /** Two different joints of a ring share neither their first nor their second node. */
  lemma JointsApart(head: nat, nodes: seq<nat>, i: nat, j: nat)
    requires NoDuplicates(nodes) && head !in nodes && i <= |nodes| && j <= |nodes| && i != j
    ensures Around(head, nodes, i) != Around(head, nodes, j)
    ensures Around(head, nodes, i + 1) != Around(head, nodes, j + 1)
  {
  }

  /** A node outside the ring is at no joint. */
  lemma OutsideRing(head: nat, nodes: seq<nat>, n: nat, i: nat)
    requires n != head && n !in nodes
    ensures Around(head, nodes, i) != n
  {
  }

  /** The joints of a ring into which n was put behind position i. */
  lemma AroundInserted(head: nat, nodes: seq<nat>, i: nat, n: nat, k: nat)
    requires i <= |nodes|
    ensures Around(head, nodes[..i] + [n] + nodes[i..], k)
            == if k <= i then Around(head, nodes, k) else if k == i + 1 then n else Around(head, nodes, k - 1)
  {
  }

  /** rt_list_insert_after at position i: n comes behind the node at that position. */
  lemma InsertRing(next: seq<int>, prev: seq<int>, head: nat, nodes: seq<nat>, i: nat, n: nat)
    requires IsRing(next, prev, head, nodes) && i <= |nodes| && n < |next| && n != head && n !in nodes
    ensures var a, b := Around(head, nodes, i), Around(head, nodes, i + 1);
            a < |next| && b < |next| &&
            IsRing(next[a := n][n := b], prev[b := n][n := a], head, nodes[..i] + [n] + nodes[i..])
  {
    RingAt(next, prev, head, nodes, i);
    var a, b := Around(head, nodes, i), Around(head, nodes, i + 1);
    var next', prev' := next[a := n][n := b], prev[b := n][n := a];
    var nodes' := nodes[..i] + [n] + nodes[i..];
    InsertKeepsDistinct(nodes, i, n);
    forall k | 0 <= k <= |nodes'| ensures Joined(next', prev', Around(head, nodes', k), Around(head, nodes', k + 1)) {
      AroundInserted(head, nodes, i, n, k);
      AroundInserted(head, nodes, i, n, k + 1);
      OutsideRing(head, nodes, n, i);
      OutsideRing(head, nodes, n, i + 1);
      if k < i || k > i + 1 {
        InsertedJoint(next, prev, head, nodes, i, n, if k < i then k else k - 1);
      }
    }
  }

  /** A joint other than the one at i survives the insertion there. */
  lemma InsertedJoint(next: seq<int>, prev: seq<int>, head: nat, nodes: seq<nat>, i: nat, n: nat, k: nat)
    requires IsRing(next, prev, head, nodes) && i <= |nodes| && n < |next| && n != head && n !in nodes
    requires k <= |nodes| && k != i
    ensures var a, b := Around(head, nodes, i), Around(head, nodes, i + 1);
            a < |next| && b < |next| &&
            Joined(next[a := n][n := b], prev[b := n][n := a], Around(head, nodes, k), Around(head, nodes, k + 1))
  {
    RingAt(next, prev, head, nodes, i);
    RingAt(next, prev, head, nodes, k);
    JointsApart(head, nodes, k, i);
    OutsideRing(head, nodes, n, k);
    OutsideRing(head, nodes, n, k + 1);
  }

  /** The links around nodes[i] have been joined past it; its own links may be anything. */
  ghost predicate Bypassed(next: seq<int>, prev: seq<int>, next': seq<int>, prev': seq<int>, head: nat,
                           nodes: seq<nat>, i: nat)
    requires i < |nodes|
  {
    var a, b, n := Around(head, nodes, i), Around(head, nodes, i + 2), nodes[i];
    && |next'| == |next| && |prev'| == |prev|
    && (forall k {:trigger next'[k]} :: 0 <= k < |next| && k != n ==> next'[k] == if k == a then b else next[k])
    && (forall k {:trigger prev'[k]} :: 0 <= k < |prev| && k != n ==> prev'[k] == if k == b then a else prev[k])
  }

  lemma AroundRemoved(head: nat, nodes: seq<nat>, i: nat, k: nat)
    requires i < |nodes|
    ensures Around(head, nodes[..i] + nodes[i + 1..], k)
            == if k <= i then Around(head, nodes, k) else Around(head, nodes, k + 1)
  {
  }

  /** rt_list_remove of the node at index i. */
  lemma RemoveRing(next: seq<int>, prev: seq<int>, head: nat, nodes: seq<nat>, i: nat, next': seq<int>, prev': seq<int>)
    requires IsRing(next, prev, head, nodes) && i < |nodes| && Bypassed(next, prev, next', prev', head, nodes, i)
    ensures IsRing(next', prev', head, Remove(nodes, nodes[i]))
  {
    var nodes' := nodes[..i] + nodes[i + 1..];
    RemoveSplits(nodes, nodes[i], i);
    assert nodes[i] in nodes;
    RingAt(next, prev, head, nodes, i);
    RingAt(next, prev, head, nodes, i + 1);
    JointsApart(head, nodes, i, i + 1);
    forall k | 0 <= k <= |nodes'| ensures Joined(next', prev', Around(head, nodes', k), Around(head, nodes', k + 1)) {
      AroundRemoved(head, nodes, i, k);
      AroundRemoved(head, nodes, i, k + 1);
      if k != i {
        RemovedJoint(next, prev, head, nodes, i, next', prev', if k < i then k else k + 1);
      }
    }
  }

  /** A joint that does not touch the removed node survives. */
  lemma RemovedJoint(next: seq<int>, prev: seq<int>, head: nat, nodes: seq<nat>, i: nat, next': seq<int>,
                     prev': seq<int>, k: nat)
    requires IsRing(next, prev, head, nodes) && i < |nodes| && Bypassed(next, prev, next', prev', head, nodes, i)
    requires k <= |nodes| && k != i && k != i + 1
    ensures Joined(next', prev', Around(head, nodes, k), Around(head, nodes, k + 1))
  {
    RingAt(next, prev, head, nodes, k);
    JointsApart(head, nodes, k, i);
    JointsApart(head, nodes, k, i + 1);
  }

  /** The links of all list nodes of the kernel. */
  class Links {
    const next: array<int>
    const prev: array<int>

    ghost predicate Ring(head: nat, nodes: seq<nat>)
      reads next, prev
    {
      next != prev && IsRing(next[..], prev[..], head, nodes)
    }

    constructor (size: nat)
      ensures next.Length == prev.Length == size && fresh(next) && fresh(prev) && next != prev
    {
      next := new int[size];
      prev := new int[size];
    }

    /** rt_list_init */
    method Init(l: nat)
      requires l < next.Length == prev.Length && next != prev
      modifies next, prev
      ensures Ring(l, [])
      ensures forall k :: 0 <= k < next.Length && k != l ==> next[k] == old(next[k]) && prev[k] == old(prev[k])
    {
      next[l], prev[l] := l, l;
    }

    /** rt_list_insert_after, where l is the node at position i of the ring. */
    method InsertAfter(l: nat, n: nat, ghost head: nat, ghost nodes: seq<nat>, ghost i: nat)
      requires Ring(head, nodes) && i <= |nodes| && l == Around(head, nodes, i)
      requires n < next.Length && n != head && n !in nodes
      modifies next, prev
      ensures Ring(head, nodes[..i] + [n] + nodes[i..])
    {
      InsertRing(next[..], prev[..], head, nodes, i, n);
      RingAt(next[..], prev[..], head, nodes, i);
      ghost var next0, prev0 := next[..], prev[..];
      hide IsRing;
      prev[next[l]] := n;
      next[n] := next[l];
      next[l] := n;
      prev[n] := l;
      OutsideRing(head, nodes, n, i);
      assert next[..] == next0[l := n][n := next0[l]];
      assert prev[..] == prev0[next0[l] := n][n := l];
    }

    /** rt_list_insert_before: in front of the head this appends at the end of the list. */
    method InsertBefore(l: nat, n: nat, ghost head: nat, ghost nodes: seq<nat>, ghost i: nat)
      requires Ring(head, nodes) && i <= |nodes| && l == Around(head, nodes, i + 1)
      requires n < next.Length && n != head && n !in nodes
      modifies next, prev
      ensures Ring(head, nodes[..i] + [n] + nodes[i..])
    {
      InsertRing(next[..], prev[..], head, nodes, i, n);
      RingAt(next[..], prev[..], head, nodes, i);
      ghost var next0, prev0 := next[..], prev[..];
      hide IsRing;
      next[prev[l]] := n;
      prev[n] := prev[l];
      prev[l] := n;
      next[n] := l;
      OutsideRing(head, nodes, n, i + 1);
      assert next[..] == next0[prev0[l] := n][n := l];
      assert prev[..] == prev0[l := n][n := prev0[l]];
    }

    /** rt_list_remove: n leaves its list and becomes an empty list of its own. */
    method RemoveNode(n: nat, ghost head: nat, ghost nodes: seq<nat>, ghost i: nat)
      requires Ring(head, nodes) && i < |nodes| && n == nodes[i]
      modifies next, prev
      ensures Ring(head, Remove(nodes, n)) && Ring(n, [])
    {
      RingAt(next[..], prev[..], head, nodes, i);
      RingAt(next[..], prev[..], head, nodes, i + 1);
      JointsApart(head, nodes, i, i + 1);
      ghost var next0, prev0 := next[..], prev[..];
      prev[next[n]] := prev[n];
      next[prev[n]] := next[n];
      next[n], prev[n] := n, n;
      RemoveRing(next0, prev0, head, nodes, i, next[..], prev[..]);
    }

    /** rt_list_isempty */
    method IsEmpty(l: nat, ghost nodes: seq<nat>) returns (r: bool)
      requires Ring(l, nodes)
      ensures r <==> nodes == []
    {
      RingAt(next[..], prev[..], l, nodes, 0);
      assert nodes != [] ==> nodes[0] in nodes;
      r := next[l] == l;
    }

    /** rt_list_len */
    method Len(l: nat, ghost nodes: seq<nat>) returns (len: nat)
      requires Ring(l, nodes)
      ensures len == |nodes|
    {
      len := 0;
      var p := l;
      RingAt(next[..], prev[..], l, nodes, 0);
      assert nodes != [] ==> nodes[0] in nodes;
      while next[p] != l
        invariant len <= |nodes| && p == Around(l, nodes, len) && p < next.Length
        invariant next[p] == Around(l, nodes, len + 1) && (next[p] == l ==> len == |nodes|)
        decreases |nodes| - len
      {
        p := next[p];
        len := len + 1;
        RingAt(next[..], prev[..], l, nodes, len);
        assert len < |nodes| ==> nodes[len] in nodes;
      }
    }
  }
}
