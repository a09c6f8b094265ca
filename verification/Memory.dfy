/** rt_memcpy, as the three heaps use it. */
module Memory {
  import opened Lists


  /** count words now at dst are those that were at src. */
  ghost predicate Copied(h: seq<int>, h': seq<int>, src: nat, dst: nat, count: int) {
    && 0 <= count && src + count <= |h| && dst + count <= |h'|
    && h'[dst..dst + count] == h[src..src + count]
  }

  /** rt_memcpy of whole words between two stretches that do not overlap. */
  method CopyWords(heap: array<int>, dst: nat, src: nat, count: nat)
    requires src + count <= heap.Length && dst + count <= heap.Length
    requires src + count <= dst || dst + count <= src
    modifies heap
    ensures Copied(old(heap[..]), heap[..], src, dst, count)
    ensures forall k {:trigger heap[k]} :: 0 <= k < heap.Length && !(dst <= k < dst + count) ==> heap[k] == old(heap[k])
  {
    ghost var h := heap[..];
    for c := 0 to count
      invariant forall k {:trigger heap[k]} :: 0 <= k < heap.Length && !(dst <= k < dst + c) ==> heap[k] == h[k]
      invariant heap[dst..dst + c] == h[src..src + c]
    {
      heap[dst + c] := heap[src + c];
    }
  }

  // ---------------------------------------------------------------- in bytes

  /** What is left of a size when it is rounded up to words: rt_size_t has 32 bits, and the largest three wrap to 0. */
  function Effective(size: nat): nat {
    if size <= 0xFFFF_FFFC then size else 0
  }

  /** The words for a request. */
  function WordsFor(size: nat): nat {
    (Effective(size) + 3) / 4
  }

  /** RT_ALIGN(size, RT_ALIGN_SIZE), in words */
  function Aligned(size: nat): nat {
    (size + 3) % 0x1_0000_0000 / 4
  }

  /** Rounding up has room for the size exactly when it does not wrap; otherwise nothing is left. */
  lemma AlignedIs(size: nat)
    requires size < 0x1_0000_0000
    ensures Aligned(size) == WordsFor(size)
    ensures size <= 4 * Aligned(size) <==> size <= 0xFFFF_FFFC
    ensures if size <= 0xFFFF_FFFC then 4 * Aligned(size) < size + 4 else Aligned(size) == 0
  {
  }

  lemma WholeWords(n: nat)
    requires n * 4 + 3 < 0x1_0000_0000
    ensures Effective(n * 4) == n * 4 && WordsFor(n * 4) == n
  {
  }

  /** A request is never for less than 12 bytes. */
  ghost function BytesFor(size: nat): nat {
    if size < 12 then 12 else size
  }

  /** The first bytes at src, as many as there were and as are asked for, are at dst now. */
  ghost predicate BytesKept(h: seq<int>, h': seq<int>, src: nat, dst: nat, bytes: int, newsize: nat) {
    var n := if bytes < newsize then bytes else newsize;
    exists words: nat :: 4 * words >= n && Copied(h, h', src, dst, words)
  }

  lemma KeptInBytes(h: seq<int>, h': seq<int>, src: nat, r: Option<nat>, size: int, n: nat, newsize: nat)
    requires newsize <= 4 * n
    requires r.Some? ==> Copied(h, h', src, r.value, if size < n then size else n)
    ensures r.Some? ==> BytesKept(h, h', src, r.value, 4 * size, newsize)
  {
    if r.Some? {
      var words: nat := if size < n then size else n;
      assert Copied(h, h', src, r.value, words);
    }
  }
}
