# balloon_hash in Dafny

A model of the `BalloonHash` password hash in `src/lib.rs`, with proofs about it. The hash is memory-hard:

1. `new` validates three cost parameters.
2. `expand` stretches password and salt into a buffer of `space_cost` SHA-256 blocks, each block hashing the one before it.
3. `hash` runs `time_cost` mixing rounds.
4. Each round (`mix`) copies the buffer to a snapshot. It cuts the buffer into chunks of `ceil(space_cost / parallel_cost)` blocks. In each chunk, every block is rewritten as SHA-256 of itself followed by snapshot blocks. The snapshot block's position comes from `get_block_index`.
5. `hash` returns SHA-256 of the last block.

The project has three modules:

- `Primitives` (`primitives.dfy`):
  - bytes and `u32`;
  - Rust's unsigned `%`;
  - the little-endian encoding of `u32` (`to_le_bytes` / `from_le_bytes`);
  - SHA-256, given as a total table `H` from byte strings to 32-byte digests.

  Feeding a hasher several `update`s and then finalising it is `H` of the concatenation. Nothing else about SHA-256 is used.
- `Chunks` (`chunks.dfy`): the ceiling division and the partition that `par_chunks_mut` makes.
- `Balloon` (`balloon.dfy`):
  - specification functions for every stage (`Expansion`, `BlockIndex`, `MixRound`, `MixRounds`, `Digest`);
  - the `BalloonHash` datatype with `New` and the imperative `Expand`, `Mix`, `RunRounds` and `Hash` over an `array<seq<byte>>`, each proved against those functions;
  - the per-chunk worker `MixChunk` and the per-block body `MixOne`.

Facts about the code as written:

- `BalloonHash` is never changed after `new`, so it is a datatype. The buffer is what changes in place, so it is an array.
- The inner loop of `mix` calls `get_block_index` three times with the same arguments. The model therefore folds the same snapshot block three times (`MixRoundAt`).
- The index depends only on position, round and block count, never on buffer contents (`MixBlockReadsOnly`).
- The comment at `src/lib.rs:98` attributes the index formula to an RFC. The model follows the code.
- Rayon runs the chunks in parallel. The model runs them one after another.
  - `ChunksCommute` proves that the workers of any two chunks commute: chunks write disjoint positions and read only the snapshot.
  - `AnyOrderIsMixRound` proves full order independence. A schedule (`RunOrder`) that runs every chunk exactly once, in any order, gives the plain position-by-position round.
  - `RunChunksIsMixRound` proves that any chunk size of at least 1 gives that same round.
  - So the digest depends neither on scheduling nor on `parallel_cost`.

## Model

| member | source | states |
|---|---|---|
| Primitives.Rem | src/lib.rs:108 | the remainder of `%` on unsigned operands is below the divisor |
| Primitives.RemIsMod | src/lib.rs:108 | the recursive remainder equals the arithmetic remainder `x % m` for every `x` and every `m >= 1` |
| Primitives.ToLe32 | src/lib.rs:101-102 | `to_le_bytes` of a `u32` is exactly 4 bytes |
| Primitives.FromLe32 | src/lib.rs:105-108 | definition of `u32::from_le_bytes` on four bytes; `FromLe32ToLe32` and `ToLe32FromLe32` state that it is the inverse of `ToLe32` |
| Primitives.FromLe32ToLe32 | src/lib.rs:101-108 | decoding 4 little-endian bytes undoes encoding, for every `u32` |
| Primitives.ToLe32FromLe32 | src/lib.rs:105-108 | every 4-byte string is the encoding of the word it decodes to |
| Primitives.ToLe32Injective | src/lib.rs:101-102 | distinct words have distinct encodings |
| Chunks.CeilDiv | src/lib.rs:71 | definition of the chunk size `(n + d - 1) / d`; `CeilDivIsCeiling` states that it is the ceiling of `n / d` |
| Chunks.CeilDivIsCeiling | src/lib.rs:71 | `(n + d - 1) / d` is the least `q` with `q * d >= n`, i.e. the ceiling of `n / d` |
| Chunks.ChunkCount | src/lib.rs:77 | definition of the number of chunks `par_chunks_mut(cs)` yields, `ceil(n / cs)`; `AtMostParallelChunks` bounds it by `parallel_cost`, and `OwnerExists` shows every position falls in one of them |
| Chunks.ChunkLen | src/lib.rs:77 | every chunk of `par_chunks_mut` has 1 to `cs` blocks and ends inside the buffer; all but the last have exactly `cs`; chunk `p` ends at `min((p + 1) * cs, n)` |
| Chunks.Chunk | src/lib.rs:77-81 | definition of the positions chunk `p` owns; `ChunkIsRange` states that they run from `p * cs` to the chunk's end |
| Chunks.ChunksFrom | src/lib.rs:77-81 | definition of chunks `p, p + 1, ...` laid end to end; `ChunksFromEnumerate` and `PartitionEnumerates` state which positions that lists |
| Chunks.ChunkIsRange | src/lib.rs:77-81 | chunk `p` lists the consecutive positions `p * cs + i` from its start to its end |
| Chunks.ChunksFromEnumerate | src/lib.rs:77-81 | chunks `p, p + 1, ...` laid end to end list exactly the positions from `min(p * cs, n)` to `n`, in order |
| Chunks.PartitionEnumerates | src/lib.rs:77-81 | all chunks together list every position `0 .. n - 1` exactly once and in order |
| Chunks.OwnerExists | src/lib.rs:77-81 | the owner `k / cs` of every position `k < n` is one of the chunks |
| Chunks.PositionInChunk | src/lib.rs:79-81 | position `k` lies in chunk `k / cs` at offset `k % cs`, which is within that chunk's length |
| Chunks.ChunkOfPosition | src/lib.rs:79-81 | every position `k < n` is owned by chunk `k / cs` at offset `k % cs` |
| Chunks.ChunkPositionUnique | src/lib.rs:79-81 | no position is owned by two (chunk, offset) pairs |
| Chunks.InChunk | src/lib.rs:77-81 | position `k` lies in chunk `p`'s range exactly when `k / cs == p`, in both directions |
| Chunks.ChunksDisjoint | src/lib.rs:77-81 | two different chunks occupy non-overlapping ranges |
| Chunks.AtMostParallelChunks | src/lib.rs:71-77 | with chunk size `ceil(space_cost / parallel_cost)` the chunk size is at least 1, and there are at most `parallel_cost` chunks |
| Balloon.IndexMessage | src/lib.rs:100-102 | the index message is 8 bytes |
| Balloon.IndexMessageInjective | src/lib.rs:100-102 | distinct (position, round) pairs give distinct index messages |
| Balloon.IndexMessageDecodes | src/lib.rs:100-102 | the message's first four bytes decode to the position and its last four to the round |
| Balloon.BlockIndex | src/lib.rs:99-109 | `get_block_index` is below `total_blocks` whenever `total_blocks >= 1` |
| Balloon.BlockIndexIsRemainder | src/lib.rs:104-108 | the index is the little-endian word of the first four digest bytes modulo `total_blocks` |
| Balloon.Expansion | src/lib.rs:50-67 | the expansion for `n` blocks has exactly `n` blocks |
| Balloon.ExpansionIsChain | src/lib.rs:54-64 | block 0 is `H(password ++ salt)`, block `i` is `H(block i - 1)`, and every block is 32 bytes |
| Balloon.MixWith | src/lib.rs:82-93 | a worker's rewritten block is a 32-byte digest |
| Balloon.MixBlock | src/lib.rs:80-93 | definition of the new block `k` while it still holds its snapshot value; `MixBlockReadsOnly` and `MixRoundAt` state what it reads and what it is |
| Balloon.MixBlockReadsOnly | src/lib.rs:85-91 | a new block reads the snapshot only at its own position and at the derived index; snapshots agreeing there give the same block |
| Balloon.MixRound | src/lib.rs:70-96 | a round keeps the buffer length, and block `k` becomes the worker's value for `k`, computed from the snapshot alone |
| Balloon.MixFrom | src/lib.rs:70-96 | the round's new blocks from position `lo` on, one per position and in order |
| Balloon.MixRoundAt | src/lib.rs:74-93 | after a round, block `k` is `H(old[k] ++ old[j] ++ old[j] ++ old[j])` with `j = get_block_index(k, step, len)` |
| Balloon.MixRoundShape | src/lib.rs:70-96 | a round keeps the buffer length and leaves every block 32 bytes |
| Balloon.WriteRange | src/lib.rs:79-95 | a worker's write of a range keeps the buffer length |
| Balloon.WriteRangeCommute | src/lib.rs:77-95 | writes of disjoint ranges from the same snapshot commute |
| Balloon.ChunkWrite | src/lib.rs:79-95 | the worker of chunk `p` keeps the buffer length |
| Balloon.ChunkWriteAt | src/lib.rs:79-95 | chunk `p`'s worker mixes exactly the positions `k` with `k / cs == p`, each from the value it held, and leaves every other position unchanged |
| Balloon.ChunksCommute | src/lib.rs:77-95 | the workers of any two chunks of the partition commute; full order independence is `AnyOrderIsMixRound` |
| Balloon.RunChunks | src/lib.rs:77-95 | running the chunk workers one after another keeps the buffer length |
| Balloon.RunChunksAt | src/lib.rs:77-95 | running chunks from `p` on mixes each position at or after chunk `p`'s start exactly once, from its current value, and leaves earlier positions alone |
| Balloon.RunChunksIsMixRound | src/lib.rs:71-95 | running every chunk over the snapshot equals the plain round, for every chunk size of at least 1 |
| Balloon.RunOrder | src/lib.rs:77-95 | running the workers of a list of chunks in the listed order keeps the buffer length |
| Balloon.RunOrderAt | src/lib.rs:77-95 | under any schedule of distinct chunks, position `k` is mixed once from its current value exactly when its chunk `k / cs` is scheduled, and is unchanged otherwise |
| Balloon.AnyOrderAt | src/lib.rs:77-95 | under a schedule that runs every chunk exactly once, position `k` holds the round's value |
| Balloon.AnyOrderIsMixRound | src/lib.rs:70-96 | every schedule that runs each chunk of the partition exactly once, in any order, yields the plain round over the snapshot |
| Balloon.MixRounds | src/lib.rs:39-41 | any number of rounds keeps the buffer length |
| Balloon.MixRoundsShape | src/lib.rs:39-41 | after at least one round every block is 32 bytes |
| Balloon.BalloonHash.New | src/lib.rs:16-33 | `new` fails exactly when some cost is 0, naming the first of space, time, parallel that is; on success the fields equal the arguments and all are at least 1 |
| Balloon.BalloonHash.Digest | src/lib.rs:35-47 | the digest of the last block after all rounds is 32 bytes; indexing the last block is in range because the buffer keeps `space_cost >= 1` blocks |
| Balloon.BalloonHash.Expand | src/lib.rs:50-67 | `expand` fills a fresh array with exactly the expansion hash chain of `space_cost` blocks |
| Balloon.BalloonHash.Mix | src/lib.rs:70-96 | after `mix` in place, the buffer is the plain round over its old contents |
| Balloon.BalloonHash.RunRounds | src/lib.rs:39-41 | the loop of `hash` leaves the buffer equal to rounds 0 .. `time_cost - 1` applied in order |
| Balloon.BalloonHash.Hash | src/lib.rs:35-47 | `hash` returns the specified digest, a function of the parameters, password and salt only, so equal inputs give equal outputs; the output is 32 bytes |
| Balloon.MixChunk | src/lib.rs:77-95 | a chunk's worker rewrites exactly its positions, each from the value it held and the snapshot, and leaves every other position unchanged |
| Balloon.MixOne | src/lib.rs:80-93 | the per-block body (hash the block, then fold in the looked-up snapshot block three times) yields the round's value for that block |

## Left out

- The JavaScript and TypeScript wrappers and the `wasm_bindgen` attributes and test harness are binding code with no algorithm in them. The `JsValue` error strings become `InvalidParameter` naming the parameter.
- SHA-256's internals (FIPS 180-4) are not modelled. Only the facts that it is a function and yields 32 bytes are used.
- `test_different_parameters` (src/lib.rs:135-147) is not modelled. It claims that different parameters give different digests, which rests on collision resistance and cannot be proved.
- Balloon.BalloonHash.Mix: the chunk size is the exact integer ceiling `(space_cost + parallel_cost - 1) / parallel_cost`, not the source's `f32` division and `ceil`.
  - `f32` is exact only up to 2^24, so for larger costs the source's chunk size may differ.
  - `RunChunksIsMixRound` shows the round's result is the same for every chunk size of at least 1, so this cannot change the buffer.
- Rayon's parallel execution of the chunks (`par_chunks_mut`, `for_each`) is modelled as sequential chunk workers. `AnyOrderIsMixRound` covers every sequential order. Threads, interleaving inside a chunk and memory ordering are not modelled.
- `Vec` allocation and capacity are not modelled, nor are the `usize`/`u32` casts. All values involved are below 2^32, which the model states on buffer lengths.
