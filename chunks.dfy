/** How one mixing round splits the buffer among workers: `par_chunks_mut`
    cuts a slice of n blocks into consecutive chunks of `cs` blocks (the last
    one possibly shorter), and chunk p owns positions p*cs + i. */
module Chunks {

  function Min(a: int, b: int): int
  {
    if a <= b then a else b
  }

  /** Ceiling of n / d in exact integer arithmetic. */
  function CeilDiv(n: nat, d: nat): nat
    requires d >= 1
  {
    (n + d - 1) / d
  }

  /** CeilDiv(n, d) is the least q with q * d >= n. */
  lemma CeilDivIsCeiling(n: nat, d: nat)
    requires d >= 1
    ensures CeilDiv(n, d) * d >= n
    ensures CeilDiv(n, d) == 0 || (CeilDiv(n, d) - 1) * d < n
  {
    var x := n + d - 1;
    assert x == (x / d) * d + x % d;
  }

  lemma MulMonotone(a: nat, b: nat, c: nat)
    requires a <= b
    ensures a * c <= b * c
  {
  }

  /** Number of chunks `par_chunks_mut(cs)` yields over n blocks. */
  function ChunkCount(n: nat, cs: nat): nat
    requires cs >= 1
  {
    CeilDiv(n, cs)
  }

  /** Length of chunk p: cs blocks, or whatever remains for the last one. */
  function ChunkLen(n: nat, cs: nat, p: nat): (len: nat)
    requires cs >= 1 && p < ChunkCount(n, cs)
    ensures 1 <= len <= cs && p * cs + len <= n
    ensures p + 1 < ChunkCount(n, cs) ==> len == cs
    ensures p * cs + len == Min((p + 1) * cs, n)
  {
    CeilDivIsCeiling(n, cs);
    MulMonotone(p, ChunkCount(n, cs) - 1, cs);
    if p + 1 < ChunkCount(n, cs) then MulMonotone(p + 1, ChunkCount(n, cs) - 1, cs); cs
    else Min(cs, n - p * cs)
  }

  /** The absolute positions chunk p owns, in the order its worker visits them. */
  function Chunk(n: nat, cs: nat, p: nat): seq<nat>
    requires cs >= 1 && p < ChunkCount(n, cs)
  {
    seq(ChunkLen(n, cs, p), i => p * cs + i)
  }

  /** The positions of chunks p, p + 1, ... laid end to end. */
  function ChunksFrom(n: nat, cs: nat, p: nat): seq<nat>
    requires cs >= 1 && p <= ChunkCount(n, cs)
    decreases ChunkCount(n, cs) - p
  {
    if p == ChunkCount(n, cs) then [] else Chunk(n, cs, p) + ChunksFrom(n, cs, p + 1)
  }

  /** The positions lo, lo + 1, ..., hi - 1. */
  function Range(lo: nat, hi: nat): seq<nat>
    requires lo <= hi
  {
    seq(hi - lo, i => lo + i)
  }

  /** Chunk p lists the positions from its start to its end. */
  lemma ChunkIsRange(n: nat, cs: nat, p: nat)
    requires cs >= 1 && p < ChunkCount(n, cs)
    ensures Chunk(n, cs, p) == Range(p * cs, p * cs + ChunkLen(n, cs, p))
  {
  }

  lemma RangeSplit(lo: nat, mid: nat, hi: nat)
    requires lo <= mid <= hi
    ensures Range(lo, mid) + Range(mid, hi) == Range(lo, hi)
  {
  }

  lemma {:induction false} ChunksFromEnumerate(n: nat, cs: nat, p: nat)
    requires cs >= 1 && p <= ChunkCount(n, cs)
    ensures ChunksFrom(n, cs, p) == Range(Min(p * cs, n), n)
    decreases ChunkCount(n, cs) - p
  {
    if p == ChunkCount(n, cs) {
      CeilDivIsCeiling(n, cs);
    } else {
      ChunksFromEnumerate(n, cs, p + 1);
      var lo := p * cs;
      var hi := lo + ChunkLen(n, cs, p);
      assert Min((p + 1) * cs, n) == hi;
      ChunkIsRange(n, cs, p);
      RangeSplit(lo, hi, n);
      assert ChunksFrom(n, cs, p) == Range(lo, hi) + Range(hi, n);
    }
  }

  /** The chunks, taken in order, list every position of the buffer exactly
      once and in increasing order: the parallel loop over chunks visits the
      same positions as a plain loop over 0 .. n. */
  lemma PartitionEnumerates(n: nat, cs: nat)
    requires cs >= 1
    ensures ChunksFrom(n, cs, 0) == Range(0, n)
  {
    ChunksFromEnumerate(n, cs, 0);
  }

  /** Position k's owner, chunk k / cs, is one of the chunks. */
  lemma OwnerExists(n: nat, cs: nat, k: nat)
    requires cs >= 1 && k < n
    ensures k / cs < ChunkCount(n, cs)
  {
    var p := k / cs;
    assert k == p * cs + k % cs;
    CeilDivIsCeiling(n, cs);
    if p >= ChunkCount(n, cs) {
      MulMonotone(ChunkCount(n, cs), p, cs);
      assert false;
    }
  }

  /** Position k lies in chunk k / cs, at an offset within that chunk. */
  lemma PositionInChunk(n: nat, cs: nat, k: nat)
    requires cs >= 1 && k < n
    ensures k / cs < ChunkCount(n, cs)
    ensures k % cs < ChunkLen(n, cs, k / cs)
  {
    OwnerExists(n, cs, k);
    DivBlock(k, cs, k / cs);
    assert (k / cs + 1) * cs == (k / cs) * cs + cs;
    assert k == (k / cs) * cs + k % cs;
  }

  /** Position k belongs to chunk k / cs, at offset k % cs. */
  lemma ChunkOfPosition(n: nat, cs: nat, k: nat)
    requires cs >= 1 && k < n
    ensures k / cs < ChunkCount(n, cs)
    ensures k % cs < ChunkLen(n, cs, k / cs)
    ensures Chunk(n, cs, k / cs)[k % cs] == k
  {
    PositionInChunk(n, cs, k);
    assert k == (k / cs) * cs + k % cs;
  }

  lemma SlotUnique(cs: nat, p1: nat, i1: nat, p2: nat, i2: nat)
    requires i1 < cs && i2 < cs && p1 * cs + i1 == p2 * cs + i2
    ensures p1 == p2 && i1 == i2
  {
    if p1 < p2 {
      MulMonotone(p1 + 1, p2, cs);
    } else if p2 < p1 {
      MulMonotone(p2 + 1, p1, cs);
    }
  }

  /** No position is owned twice: two (chunk, offset) pairs that name the same
      position are the same pair, so the chunks' write regions are disjoint. */
  lemma ChunkPositionUnique(n: nat, cs: nat, p1: nat, i1: nat, p2: nat, i2: nat)
    requires cs >= 1 && p1 < ChunkCount(n, cs) && p2 < ChunkCount(n, cs)
    requires i1 < ChunkLen(n, cs, p1) && i2 < ChunkLen(n, cs, p2)
    requires Chunk(n, cs, p1)[i1] == Chunk(n, cs, p2)[i2]
    ensures p1 == p2 && i1 == i2
  {
    SlotUnique(cs, p1, i1, p2, i2);
  }

  /** k lies in q * cs .. q * cs + cs - 1 exactly when k / cs == q. */
  lemma DivBlock(k: nat, cs: nat, q: nat)
    requires cs >= 1
    ensures q * cs <= k < q * cs + cs <==> k / cs == q
  {
    var q', r := k / cs, k % cs;
    assert k == q' * cs + r;
    if q * cs <= k < q * cs + cs {
      SlotUnique(cs, q, k - q * cs, q', r);
    }
  }

  /** Position k lies in chunk p's range exactly when k / cs == p. */
  lemma InChunk(n: nat, cs: nat, p: nat, k: nat)
    requires cs >= 1 && p < ChunkCount(n, cs) && k < n
    ensures p * cs <= k < p * cs + ChunkLen(n, cs, p) <==> k / cs == p
  {
    DivBlock(k, cs, p);
    assert (p + 1) * cs == p * cs + cs;
  }

  /** Distinct chunks occupy disjoint ranges of positions: one ends before
      the other starts. */
  lemma ChunksDisjoint(n: nat, cs: nat, p1: nat, p2: nat)
    requires cs >= 1 && p1 < ChunkCount(n, cs) && p2 < ChunkCount(n, cs) && p1 != p2
    ensures p1 * cs + ChunkLen(n, cs, p1) <= p2 * cs || p2 * cs + ChunkLen(n, cs, p2) <= p1 * cs
  {
    if p1 < p2 {
      MulMonotone(p1 + 1, p2, cs);
    } else {
      MulMonotone(p2 + 1, p1, cs);
    }
  }

  /** With chunk size ceil(n / parallel) the buffer is split into at most
      `parallel` chunks, each of at least one block. */
  lemma AtMostParallelChunks(n: nat, parallel: nat)
    requires parallel >= 1
    ensures CeilDiv(n, parallel) >= 1 || n == 0
    ensures n >= 1 ==> ChunkCount(n, CeilDiv(n, parallel)) <= parallel
  {
    CeilDivIsCeiling(n, parallel);
    if n >= 1 {
      var cs := CeilDiv(n, parallel);
      var q := ChunkCount(n, cs);
      CeilDivIsCeiling(n, cs);
      if q > parallel {
        MulMonotone(parallel, q - 1, cs);
        assert false;
      }
    }
  }
}
