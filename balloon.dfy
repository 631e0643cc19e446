/** The Balloon-style memory-hard password hash: parameter validation, the
    expansion of password and salt into a hash chain of blocks, the
    content-independent block-index derivation, the snapshot-based mixing
    rounds split into chunks, and the extraction of the final digest. */
module Balloon {
  import opened Primitives
  import opened Chunks

  /** The parameter a failed construction names. */
  datatype Param = SpaceCost | TimeCost | ParallelCost

  datatype Error = InvalidParameter(param: Param)

  datatype Result<T> = Ok(value: T) | Err(error: Error)

  /** A buffer of blocks; every block is a 32-byte digest. */
  type Buffer = seq<seq<byte>>

  ghost predicate BlocksAreDigests(buf: Buffer)
  {
    forall k :: 0 <= k < |buf| ==> |buf[k]| == DigestSize
  }

  // ---------------------------------------------------------------------
  // Index derivation
  // ---------------------------------------------------------------------

  /** The bytes `get_block_index` feeds to SHA-256: `current` then `step`,
      each as four little-endian bytes. */
  function IndexMessage(current: u32, step: u32): (m: seq<byte>)
    ensures |m| == 8
  {
    ToLe32(current) + ToLe32(step)
  }

  /** Distinct (position, round) pairs hash distinct messages. */
  lemma IndexMessageInjective(c1: u32, s1: u32, c2: u32, s2: u32)
    requires IndexMessage(c1, s1) == IndexMessage(c2, s2)
    ensures c1 == c2 && s1 == s2
  {
    var m1, m2 := IndexMessage(c1, s1), IndexMessage(c2, s2);
    assert m1[..4] == ToLe32(c1) && m2[..4] == ToLe32(c2);
    assert m1[4..] == ToLe32(s1) && m2[4..] == ToLe32(s2);
    ToLe32Injective(c1, c2);
    ToLe32Injective(s1, s2);
  }

  /** The message carries both words whole: its first four bytes decode to
      the position and its last four to the round. */
  lemma IndexMessageDecodes(current: u32, step: u32)
    ensures FromLe32(IndexMessage(current, step)[..4]) == current
    ensures FromLe32(IndexMessage(current, step)[4..]) == step
  {
    var m := IndexMessage(current, step);
    assert m[..4] == ToLe32(current);
    assert m[4..] == ToLe32(step);
    FromLe32ToLe32(current);
    FromLe32ToLe32(step);
  }

  /** `get_block_index`: the first four digest bytes of the index message,
      read as a little-endian word, reduced modulo the block count. It reads
      no buffer contents: its only inputs are the position, the round and
      the block count. */
  function BlockIndex(H: Hasher, current: u32, step: u32, totalBlocks: u32): (j: u32)
    requires IsSha256(H) && totalBlocks >= 1
    ensures j < totalBlocks
  {
    Rem(FromLe32(H[IndexMessage(current, step)][..4]), totalBlocks)
  }

  /** The index is the decoded word's remainder modulo the block count, as
      Rust's `%` on `u32` computes it. */
  lemma BlockIndexIsRemainder(H: Hasher, current: u32, step: u32, totalBlocks: u32)
    requires IsSha256(H) && totalBlocks >= 1
    ensures BlockIndex(H, current, step, totalBlocks) == FromLe32(H[IndexMessage(current, step)][..4]) % totalBlocks
  {
    RemIsMod(FromLe32(H[IndexMessage(current, step)][..4]), totalBlocks);
  }

  // ---------------------------------------------------------------------
  // Specification of the stages
  // ---------------------------------------------------------------------

  /** The first n blocks of the expansion hash chain seeded with `seed`
      (password followed by salt). */
  function Expansion(H: Hasher, seed: seq<byte>, n: nat): (buf: Buffer)
    requires IsSha256(H)
    ensures |buf| == n
  {
    if n == 0 then []
    else if n == 1 then [H[seed]]
    else
      var prev := Expansion(H, seed, n - 1);
      prev + [H[prev[n - 2]]]
  }

  /** The expansion is a hash chain: block 0 hashes password and salt, every
      later block hashes its predecessor, and every block is a digest. */
  lemma {:induction false} ExpansionIsChain(H: Hasher, seed: seq<byte>, n: nat)
    requires IsSha256(H) && n >= 1
    ensures Expansion(H, seed, n)[0] == H[seed]
    ensures forall i :: 1 <= i < n ==> Expansion(H, seed, n)[i] == H[Expansion(H, seed, n)[i - 1]]
    ensures BlocksAreDigests(Expansion(H, seed, n))
  {
    if n > 1 {
      ExpansionIsChain(H, seed, n - 1);
      var prev := Expansion(H, seed, n - 1);
      assert Expansion(H, seed, n) == prev + [H[prev[n - 2]]];
    }
  }

  /** What a worker writes at position k in round `step` when the block
      there holds `block`: SHA-256 of that block followed three times by the
      snapshot block at the derived index (the three lookups use the same
      arguments, so they fold the same block). */
  function MixWith(H: Hasher, block: seq<byte>, snapshot: Buffer, k: nat, step: u32): (b: seq<byte>)
    requires IsSha256(H) && k < |snapshot| < 0x1_0000_0000
    ensures |b| == DigestSize
  {
    var j := BlockIndex(H, k, step, |snapshot|);
    H[block + Repeat(snapshot[j], 3)]
  }

  /** The new value of block k in round `step` when the block still holds
      its snapshot value, as it does when its worker reaches it. */
  function MixBlock(H: Hasher, snapshot: Buffer, k: nat, step: u32): (b: seq<byte>)
    requires IsSha256(H) && k < |snapshot| < 0x1_0000_0000
  {
    MixWith(H, snapshot[k], snapshot, k, step)
  }

  /** The lookups are content-independent: the new value of block k reads
      the snapshot only at k and at the derived index, which is computed from
      k, the round and the block count alone. Two snapshots of the same
      length that agree at those two positions give the same new block. */
  lemma MixBlockReadsOnly(H: Hasher, s1: Buffer, s2: Buffer, k: nat, step: u32)
    requires IsSha256(H) && k < |s1| == |s2| < 0x1_0000_0000
    requires s1[k] == s2[k]
    requires s1[BlockIndex(H, k, step, |s1|)] == s2[BlockIndex(H, k, step, |s2|)]
    ensures MixBlock(H, s1, k, step) == MixBlock(H, s2, k, step)
  {
  }

  /** One mixing round, as a plain map over the positions 0 .. n. */
  function MixRound(H: Hasher, snapshot: Buffer, step: u32): (buf: Buffer)
    requires IsSha256(H) && |snapshot| < 0x1_0000_0000
    ensures |buf| == |snapshot|
    ensures forall k :: 0 <= k < |snapshot| ==> buf[k] == MixBlock(H, snapshot, k, step)
  {
    MixFrom(H, snapshot, step, 0)
  }

  /** The new blocks lo .. n - 1 of a round, in order. */
  function MixFrom(H: Hasher, snapshot: Buffer, step: u32, lo: nat): (buf: Buffer)
    requires IsSha256(H) && lo <= |snapshot| < 0x1_0000_0000
    ensures |buf| == |snapshot| - lo
    ensures forall k :: lo <= k < |snapshot| ==> buf[k - lo] == MixBlock(H, snapshot, k, step)
    decreases |snapshot| - lo
  {
    if lo == |snapshot| then [] else [MixBlock(H, snapshot, lo, step)] + MixFrom(H, snapshot, step, lo + 1)
  }

  /** Block k after a round is SHA-256 of its snapshot value followed by
      three copies of the snapshot block at the derived index. */
  lemma MixRoundAt(H: Hasher, snapshot: Buffer, step: u32, k: nat)
    requires IsSha256(H) && k < |snapshot| < 0x1_0000_0000
    ensures var j := BlockIndex(H, k, step, |snapshot|);
            MixRound(H, snapshot, step)[k] == H[snapshot[k] + snapshot[j] + snapshot[j] + snapshot[j]]
  {
    var b := snapshot[BlockIndex(H, k, step, |snapshot|)];
    assert Repeat(b, 3) == b + b + b by {
      assert Repeat(b, 1) == b;
      assert Repeat(b, 2) == b + b;
    }
    assert snapshot[k] + Repeat(b, 3) == snapshot[k] + b + b + b;
  }

  /** A round keeps the buffer length and leaves every block a digest. */
  lemma MixRoundShape(H: Hasher, snapshot: Buffer, step: u32)
    requires IsSha256(H) && |snapshot| < 0x1_0000_0000
    ensures |MixRound(H, snapshot, step)| == |snapshot|
    ensures BlocksAreDigests(MixRound(H, snapshot, step))
  {
  }

  /** The live buffer after a worker has written positions lo .. hi - 1:
      each gets the mix of what it held with its snapshot lookups, every
      other position keeps what `buf` holds. */
  function WriteRange(H: Hasher, buf: Buffer, snapshot: Buffer, step: u32, lo: nat, hi: nat): (r: Buffer)
    requires IsSha256(H) && |buf| == |snapshot| < 0x1_0000_0000 && lo <= hi <= |snapshot|
    ensures |r| == |buf|
  {
    seq(|buf|, k requires 0 <= k < |buf| => if lo <= k < hi then MixWith(H, buf[k], snapshot, k, step) else buf[k])
  }

  /** Workers writing disjoint ranges commute: each reads only the position
      it writes and the snapshot. */
  lemma WriteRangeCommute(H: Hasher, buf: Buffer, snapshot: Buffer, step: u32, lo1: nat, hi1: nat, lo2: nat, hi2: nat)
    requires IsSha256(H) && |buf| == |snapshot| < 0x1_0000_0000
    requires lo1 <= hi1 <= |snapshot| && lo2 <= hi2 <= |snapshot|
    requires hi1 <= lo2 || hi2 <= lo1
    ensures WriteRange(H, WriteRange(H, buf, snapshot, step, lo1, hi1), snapshot, step, lo2, hi2)
         == WriteRange(H, WriteRange(H, buf, snapshot, step, lo2, hi2), snapshot, step, lo1, hi1)
  {
  }

  /** The worker of chunk p of the `par_chunks_mut` partition: it writes
      the chunk's positions p * cs .. and nothing else. */
  function ChunkWrite(H: Hasher, buf: Buffer, snapshot: Buffer, step: u32, cs: nat, p: nat): (r: Buffer)
    requires IsSha256(H) && |buf| == |snapshot| < 0x1_0000_0000
    requires cs >= 1 && p < ChunkCount(|snapshot|, cs)
    ensures |r| == |buf|
  {
    WriteRange(H, buf, snapshot, step, p * cs, p * cs + ChunkLen(|snapshot|, cs, p))
  }

  /** Chunk p's worker mixes exactly the positions k with k / cs == p and
      leaves every other position as it was. */
  lemma ChunkWriteAt(H: Hasher, buf: Buffer, snapshot: Buffer, step: u32, cs: nat, p: nat, k: nat)
    requires IsSha256(H) && |buf| == |snapshot| < 0x1_0000_0000
    requires cs >= 1 && p < ChunkCount(|snapshot|, cs) && k < |snapshot|
    ensures ChunkWrite(H, buf, snapshot, step, cs, p)[k]
         == if k / cs == p then MixWith(H, buf[k], snapshot, k, step) else buf[k]
  {
    InChunk(|snapshot|, cs, p, k);
  }

  /** Workers of any two chunks of the `par_chunks_mut` partition commute:
      they write disjoint positions and read only the snapshot. */
  lemma ChunksCommute(H: Hasher, buf: Buffer, snapshot: Buffer, step: u32, cs: nat, p1: nat, p2: nat)
    requires IsSha256(H) && |buf| == |snapshot| < 0x1_0000_0000
    requires cs >= 1 && p1 < ChunkCount(|snapshot|, cs) && p2 < ChunkCount(|snapshot|, cs)
    ensures ChunkWrite(H, ChunkWrite(H, buf, snapshot, step, cs, p1), snapshot, step, cs, p2)
         == ChunkWrite(H, ChunkWrite(H, buf, snapshot, step, cs, p2), snapshot, step, cs, p1)
  {
    var b1 := ChunkWrite(H, buf, snapshot, step, cs, p1);
    var b2 := ChunkWrite(H, buf, snapshot, step, cs, p2);
    var l, r := ChunkWrite(H, b1, snapshot, step, cs, p2), ChunkWrite(H, b2, snapshot, step, cs, p1);
    forall k | 0 <= k < |snapshot|
      ensures l[k] == r[k]
    {
      ChunkWriteAt(H, buf, snapshot, step, cs, p1, k);
      ChunkWriteAt(H, buf, snapshot, step, cs, p2, k);
      ChunkWriteAt(H, b1, snapshot, step, cs, p2, k);
      ChunkWriteAt(H, b2, snapshot, step, cs, p1, k);
    }
  }

  /** The buffer after the workers of chunks p, p + 1, ... of the
      `par_chunks_mut` partition have written into `buf`, one chunk after
      another. */
  function RunChunks(H: Hasher, buf: Buffer, snapshot: Buffer, step: u32, cs: nat, p: nat): (r: Buffer)
    requires IsSha256(H) && |buf| == |snapshot| < 0x1_0000_0000
    requires cs >= 1 && p <= ChunkCount(|snapshot|, cs)
    ensures |r| == |buf|
    decreases ChunkCount(|snapshot|, cs) - p
  {
    if p == ChunkCount(|snapshot|, cs) then buf
    else
      RunChunks(H, ChunkWrite(H, buf, snapshot, step, cs, p), snapshot, step, cs, p + 1)
  }

  /** Running chunks p, p + 1, ... mixes each position from the start of
      chunk p on exactly once, from the value `buf` holds there, and leaves
      the positions before it as `buf` holds them. */
  lemma {:induction false} RunChunksAt(H: Hasher, buf: Buffer, snapshot: Buffer, step: u32, cs: nat, p: nat, k: nat)
    requires IsSha256(H) && |buf| == |snapshot| < 0x1_0000_0000
    requires cs >= 1 && p <= ChunkCount(|snapshot|, cs) && k < |snapshot|
    ensures RunChunks(H, buf, snapshot, step, cs, p)[k]
         == if Min(p * cs, |snapshot|) <= k then MixWith(H, buf[k], snapshot, k, step) else buf[k]
    decreases ChunkCount(|snapshot|, cs) - p
  {
    var n := |snapshot|;
    if p == ChunkCount(n, cs) {
      CeilDivIsCeiling(n, cs);
    } else {
      var lo := p * cs;
      var hi := lo + ChunkLen(n, cs, p);
      RunChunksAt(H, ChunkWrite(H, buf, snapshot, step, cs, p), snapshot, step, cs, p + 1, k);
    }
  }

  /** Running every chunk's worker over the snapshot gives the plain
      position-by-position round, whatever the chunk size: the digest cannot
      depend on `parallel_cost`, nor on how the chunk size is rounded. */
  lemma RunChunksIsMixRound(H: Hasher, snapshot: Buffer, step: u32, cs: nat)
    requires IsSha256(H) && |snapshot| < 0x1_0000_0000 && cs >= 1
    ensures RunChunks(H, snapshot, snapshot, step, cs, 0) == MixRound(H, snapshot, step)
  {
    forall k | 0 <= k < |snapshot|
      ensures RunChunks(H, snapshot, snapshot, step, cs, 0)[k] == MixRound(H, snapshot, step)[k]
    {
      RunChunksAt(H, snapshot, snapshot, step, cs, 0, k);
    }
  }

  /** `order` lists chunk indices of the partition, none twice. */
  ghost predicate DistinctChunks(n: nat, cs: nat, order: seq<nat>)
    requires cs >= 1
  {
    (forall i :: 0 <= i < |order| ==> order[i] < ChunkCount(n, cs))
    && (forall i, j :: 0 <= i < j < |order| ==> order[i] != order[j])
  }

  /** The buffer after the workers of the chunks listed in `order` have
      written into `buf`, in that order: one schedule of the parallel
      workers. */
  function RunOrder(H: Hasher, buf: Buffer, snapshot: Buffer, step: u32, cs: nat, order: seq<nat>): (r: Buffer)
    requires IsSha256(H) && |buf| == |snapshot| < 0x1_0000_0000 && cs >= 1
    requires forall i :: 0 <= i < |order| ==> order[i] < ChunkCount(|snapshot|, cs)
    ensures |r| == |buf|
    decreases |order|
  {
    if order == [] then buf
    else
      RunOrder(H, ChunkWrite(H, buf, snapshot, step, cs, order[0]), snapshot, step, cs, order[1..])
  }

  /** Under any schedule of distinct chunks, position k is mixed once, from
      the value `buf` holds there, exactly when its chunk k / cs is
      scheduled, and is left alone otherwise. */
  lemma {:induction false} RunOrderAt(H: Hasher, buf: Buffer, snapshot: Buffer, step: u32, cs: nat, order: seq<nat>, k: nat)
    requires IsSha256(H) && |buf| == |snapshot| < 0x1_0000_0000 && cs >= 1
    requires DistinctChunks(|snapshot|, cs, order) && k < |snapshot|
    ensures RunOrder(H, buf, snapshot, step, cs, order)[k]
         == if k / cs in order then MixWith(H, buf[k], snapshot, k, step) else buf[k]
    decreases |order|
  {
    if order != [] {
      var n := |snapshot|;
      var p, rest := order[0], order[1..];
      var b2 := ChunkWrite(H, buf, snapshot, step, cs, p);
      assert order == [p] + rest;
      assert DistinctChunks(n, cs, rest);
      assert RunOrder(H, buf, snapshot, step, cs, order) == RunOrder(H, b2, snapshot, step, cs, rest);
      RunOrderAt(H, b2, snapshot, step, cs, rest, k);
      ChunkWriteAt(H, buf, snapshot, step, cs, p, k);
      if k / cs == p {
        assert k / cs !in rest;
        assert b2[k] == MixWith(H, buf[k], snapshot, k, step);
      } else {
        assert b2[k] == buf[k];
        assert (k / cs in order) == (k / cs in rest);
      }
    }
  }

  /** Position k of a schedule that covers every chunk holds the round's
      value. */
  lemma AnyOrderAt(H: Hasher, snapshot: Buffer, step: u32, cs: nat, order: seq<nat>, k: nat)
    requires IsSha256(H) && |snapshot| < 0x1_0000_0000 && cs >= 1
    requires DistinctChunks(|snapshot|, cs, order)
    requires forall p :: 0 <= p < ChunkCount(|snapshot|, cs) ==> p in order
    requires k < |snapshot|
    ensures RunOrder(H, snapshot, snapshot, step, cs, order)[k] == MixRound(H, snapshot, step)[k]
  {
    OwnerExists(|snapshot|, cs, k);
    var p := k / cs;
    assert p in order;
    RunOrderAt(H, snapshot, snapshot, step, cs, order, k);
    assert MixRound(H, snapshot, step)[k] == MixWith(H, snapshot[k], snapshot, k, step);
  }

  /** Whatever order the parallel workers run in, as long as every chunk
      runs once, the round's result is the plain position-by-position
      round: the digest does not depend on scheduling. */
  lemma AnyOrderIsMixRound(H: Hasher, snapshot: Buffer, step: u32, cs: nat, order: seq<nat>)
    requires IsSha256(H) && |snapshot| < 0x1_0000_0000 && cs >= 1
    requires DistinctChunks(|snapshot|, cs, order)
    requires forall p :: 0 <= p < ChunkCount(|snapshot|, cs) ==> p in order
    ensures RunOrder(H, snapshot, snapshot, step, cs, order) == MixRound(H, snapshot, step)
  {
    forall k | 0 <= k < |snapshot|
      ensures RunOrder(H, snapshot, snapshot, step, cs, order)[k] == MixRound(H, snapshot, step)[k]
    {
      AnyOrderAt(H, snapshot, step, cs, order, k);
    }
  }

  /** The buffer after `rounds` mixing rounds, with steps 0 .. rounds - 1 in
      order, each reading the state the previous round left. */
  function MixRounds(H: Hasher, buf: Buffer, rounds: nat): (r: Buffer)
    requires IsSha256(H) && |buf| < 0x1_0000_0000 && rounds <= 0x1_0000_0000
    ensures |r| == |buf|
  {
    if rounds == 0 then buf
    else MixRound(H, MixRounds(H, buf, rounds - 1), rounds - 1)
  }

  /** Any number of rounds keeps the buffer length, and after at least one
      round (or from a buffer of digests) every block is a digest. */
  lemma {:induction false} MixRoundsShape(H: Hasher, buf: Buffer, rounds: nat)
    requires IsSha256(H) && |buf| < 0x1_0000_0000 && rounds <= 0x1_0000_0000
    requires rounds >= 1 || BlocksAreDigests(buf)
    ensures |MixRounds(H, buf, rounds)| == |buf|
    ensures BlocksAreDigests(MixRounds(H, buf, rounds))
  {
    if rounds >= 1 {
      MixRoundShape(H, MixRounds(H, buf, rounds - 1), rounds - 1);
    }
  }

  // ---------------------------------------------------------------------
  // The hasher
  // ---------------------------------------------------------------------

  /** `BalloonHash`: the three cost parameters. */
  datatype BalloonHash = BalloonHash(spaceCost: u32, timeCost: u32, parallelCost: u32)
  {
    /** What `new` establishes: every cost is at least 1. */
    predicate Valid()
    {
      spaceCost >= 1 && timeCost >= 1 && parallelCost >= 1
    }

    /** `BalloonHash::new`: checks space, time, then parallel cost, and
        fails naming the first one that is below 1. */
    static function New(spaceCost: u32, timeCost: u32, parallelCost: u32): (r: Result<BalloonHash>)
      ensures r.Err? <==> spaceCost == 0 || timeCost == 0 || parallelCost == 0
      ensures r.Err? ==> r.error.param == (if spaceCost == 0 then SpaceCost
                                           else if timeCost == 0 then TimeCost
                                           else ParallelCost)
      ensures r.Ok? ==> r.value.Valid()
      ensures r.Ok? ==> r.value.spaceCost == spaceCost && r.value.timeCost == timeCost
                        && r.value.parallelCost == parallelCost
    {
      if spaceCost < 1 then Err(InvalidParameter(SpaceCost))
      else if timeCost < 1 then Err(InvalidParameter(TimeCost))
      else if parallelCost < 1 then Err(InvalidParameter(ParallelCost))
      else Ok(BalloonHash(spaceCost, timeCost, parallelCost))
    }

    /** The digest `hash` returns: SHA-256 of the last block after all
        rounds of mixing over the expanded buffer. */
    function Digest(H: Hasher, password: seq<byte>, salt: seq<byte>): (d: seq<byte>)
      requires Valid() && IsSha256(H)
      ensures |d| == DigestSize
    {
      var final := MixRounds(H, Expansion(H, password + salt, spaceCost), timeCost);
      H[final[|final| - 1]]
    }

    /** `expand`: fills a fresh buffer of `space_cost` blocks with the hash
        chain of password and salt. */
    method Expand(H: Hasher, password: seq<byte>, salt: seq<byte>) returns (buffer: array<seq<byte>>)
      requires Valid() && IsSha256(H)
      ensures fresh(buffer)
      ensures buffer[..] == Expansion(H, password + salt, spaceCost)
    {
      buffer := new seq<byte>[spaceCost];
      buffer[0] := H[password + salt];
      var i := 1;
      while i < spaceCost
        invariant 1 <= i <= spaceCost
        invariant buffer[..i] == Expansion(H, password + salt, i)
      {
        buffer[i] := H[buffer[i - 1]];
        assert buffer[..i + 1] == buffer[..i] + [buffer[i]];
        i := i + 1;
      }
    }

    /** `mix`: one round in place. The buffer is copied to a snapshot, cut
        into chunks of ceil(space_cost / parallel_cost) blocks, and each
        chunk's worker rewrites its blocks from themselves and from snapshot
        blocks. The result is the plain round over the snapshot. */
    method Mix(H: Hasher, buffer: array<seq<byte>>, step: u32)
      requires Valid() && IsSha256(H) && buffer.Length == spaceCost
      modifies buffer
      ensures buffer[..] == MixRound(H, old(buffer[..]), step)
    {
      AtMostParallelChunks(spaceCost, parallelCost);
      var chunkSize := CeilDiv(spaceCost, parallelCost);
      var bufferRef := buffer[..];
      var n := buffer.Length;
      var chunks := ChunkCount(n, chunkSize);
      CeilDivIsCeiling(n, chunkSize);
      // chunk p of par_chunks_mut covers positions start .. start + len - 1
      var p, start := 0, 0;
      while p < chunks
        invariant p <= chunks && start == Min(p * chunkSize, n)
        invariant forall k :: 0 <= k < start ==> buffer[k] == MixBlock(H, bufferRef, k, step)
        invariant forall k :: start <= k < n ==> buffer[k] == bufferRef[k]
      {
        var len := ChunkLen(n, chunkSize, p);
        assert start == p * chunkSize;
        MixChunk(H, buffer, bufferRef, step, start, len);
        p, start := p + 1, start + len;
      }
      assert buffer[..] == MixRound(H, bufferRef, step);
    }

    /** `hash`: expand, run `time_cost` rounds with steps 0, 1, ... in order,
        and hash the last block. */
    method Hash(H: Hasher, password: seq<byte>, salt: seq<byte>) returns (digest: seq<byte>)
      requires Valid() && IsSha256(H)
      ensures digest == Digest(H, password, salt)
      ensures |digest| == DigestSize
    {
      var buffer := Expand(H, password, salt);
      RunRounds(H, buffer);
      digest := H[buffer[buffer.Length - 1]];
    }

    /** The loop of `hash`: rounds with steps 0 .. time_cost - 1, in order,
        each mixing the buffer the previous one left. */
    method RunRounds(H: Hasher, buffer: array<seq<byte>>)
      requires Valid() && IsSha256(H) && buffer.Length == spaceCost
      modifies buffer
      ensures buffer[..] == MixRounds(H, old(buffer[..]), timeCost)
    {
      ghost var initial := buffer[..];
      var step: u32 := 0;
      while step < timeCost
        invariant step <= timeCost
        invariant buffer[..] == MixRounds(H, initial, step)
      {
        Mix(H, buffer, step);
        step := step + 1;
      }
    }
  }

  /** The worker of one chunk in `mix`: visits the chunk's `len` blocks,
      starting at absolute position `start`, in order and overwrites each
      with its mixed value, reading lookups from the snapshot. Positions
      outside the chunk are left alone. */
  method MixChunk(H: Hasher, buffer: array<seq<byte>>, bufferRef: Buffer, step: u32, start: nat, len: nat)
    requires IsSha256(H) && buffer.Length == |bufferRef| < 0x1_0000_0000
    requires start + len <= buffer.Length
    modifies buffer
    ensures forall k :: start <= k < start + len ==> buffer[k] == MixWith(H, old(buffer[k]), bufferRef, k, step)
    ensures forall k :: 0 <= k < start ==> buffer[k] == old(buffer[k])
    ensures forall k :: start + len <= k < buffer.Length ==> buffer[k] == old(buffer[k])
  {
    ghost var before := buffer[..];
    var n := buffer.Length;
    var i := 0;
    while i < len
      invariant 0 <= i <= len
      invariant forall k :: start <= k < start + i ==> buffer[k] == MixWith(H, before[k], bufferRef, k, step)
      invariant forall k :: 0 <= k < start ==> buffer[k] == before[k]
      invariant forall k :: start + i <= k < n ==> buffer[k] == before[k]
    {
      var absoluteIndex := start + i;
      buffer[absoluteIndex] := MixOne(H, buffer[absoluteIndex], bufferRef, absoluteIndex, step);
      i := i + 1;
    }
  }

  /** The body of the worker's loop for one block: hash the block, then
      three times derive the lookup index and fold that snapshot block into
      the same hasher. */
  method MixOne(H: Hasher, block: seq<byte>, bufferRef: Buffer, absoluteIndex: nat, step: u32) returns (mixed: seq<byte>)
    requires IsSha256(H) && absoluteIndex < |bufferRef| < 0x1_0000_0000
    ensures mixed == MixWith(H, block, bufferRef, absoluteIndex, step)
  {
    var input := block;
    ghost var j := BlockIndex(H, absoluteIndex, step, |bufferRef|);
    var r := 0;
    while r < 3
      invariant 0 <= r <= 3
      invariant input == block + Repeat(bufferRef[j], r)
    {
      var idx := BlockIndex(H, absoluteIndex, step, |bufferRef|);
      input := input + bufferRef[idx];
      r := r + 1;
    }
    mixed := H[input];
  }

  /** The bytes the hasher has received after r lookups of block b. */
  function Repeat(b: seq<byte>, r: nat): seq<byte>
  {
    if r == 0 then [] else Repeat(b, r - 1) + b
  }
}
