# LC-2K cache simulator, modelled in Dafny

This project models `cache.c`, the set-associative cache of the EECS 370
LC-2K simulator. The cache sits between the processor simulator and a
16-bit word-addressed main memory. The model covers:

- the cache record: 256 block records, each with a 256-word `data` buffer,
  `dirty`, `valid`, `lruLabel`, `set` and `tag`, plus the geometry fields;
- `cache_init`;
- the three mask loops and the address split;
- `cache_access`, with its read-hit, write-hit, empty-block-fill and
  victim-choice paths;
- `fill_block`, `replace_block` and `write_back`.

The model follows the code as written, not a textbook cache. The
departures below are all modelled and several are stated as lemmas:

- The offset length comes from `blocksPerSet`.
- The set index and the tag are low address bits that are not shifted.
- The block base is `addr & 0xFFFC`.
- A read miss fills every invalid block of the set.
- A write hit ignores the tag.
- Every write goes through to memory.
- `lruLabel` counts hits since the last fill, and the victim has the
  largest label. If no block of the set has a positive label, the victim
  is block 0.
- `write_back` stores at the address of the block being loaded.

Files and modules:

- `bits.dfy`, module `Bits`: powers of two and the integer log2. Also
  `x >>= 1` repeated (`ShiftRight`) and the C `&` on non-negative
  integers (`BitAnd`), with closed forms for the masks the cache uses.
- `memory.dfy`, module `MainMemory`: the memory behind `mem_access`.
  The class `Memory` holds a `map<int, int>` and has a `Read` and a
  `Write` method. A cell never written reads as 0.
- `cache_model.dfy`, module `CacheModel`: the block record, the geometry,
  and one pure function per step of an access. `AccessSpec` composes
  them into the whole effect of one `cache_access` call. This file also
  holds the lemmas about what an access does.
- `cache.dfy`, module `CacheSim`: the class `Cache`. Its `blocks` field
  is an `array<Block>` updated in place, and its `mem` field is the
  memory. There is one method per C function or loop. `FindHit`,
  `ChooseVictim`, `FillEmptyBlocks`, `ReplaceBlock`, `HandleMiss` and
  `Access` are proved equal to their matching `CacheModel` function.
  `Init`, `FillBlock` and `WriteBack` state their new state outright.
  `ShiftMask` and `SplitAddress` are proved against the closed forms in
  `Bits`.
  `Valid()` is the state `cache_init` sets up: the array shape, the
  derived bit lengths, and block `j` in set `j / blocksPerSet`. Every
  method keeps it.

## Model

| member | source | states |
|---|---|---|
| `Bits.Log2` | cache.c:65-66 | the bit length taken from a geometry parameter x >= 1 is the integer part of log2 x: 2^r <= x < 2^(r+1) |
| `Bits.ShiftRightOnes` | cache.c:104-119 | shifting a run of w one-bits right n times leaves 2^(w-n) - 1, and 0 once n > w; for 0xFFFF shifted 16 - k times this is 2^k - 1 |
| `Bits.ShiftRight` | cache.c:108-119 | n executions of `x >>= 1` on a non-negative x leave x / 2^n |
| `Bits.BitAnd` | cache.c:121-123 | the C `&` on non-negative operands, bit by bit; the result exceeds neither operand |
| `Bits.BitAndLowMask` | cache.c:121-123 | ANDing with 2^k - 1 gives the remainder modulo 2^k, i.e. keeps the k low bits |
| `CacheSim.ShiftMask` | cache.c:104-119 | each mask loop leaves 2^w - 1, where w is the bit length clamped to 0..16 (the loop runs 16 - bits times when that is positive) |
| `CacheSim.Cache.SplitAddress` | cache.c:104-123 | offset, set index and tag are the address modulo 2^w for their own mask widths; the offset is below blocksPerSet and the set index below numSets |
| `CacheModel.OffsetOf` | cache.c:121 | under a geometry from `cache_init` the block offset is below blocksPerSet <= 256, so `data[block_offset]` stays inside the buffer |
| `CacheModel.SetIndexOf` | cache.c:122 | under a geometry from `cache_init` the set index is below numSets |
| `CacheModel.TagOf` | cache.c:123 | the tag is the address ANDed with the tag mask (its low bits, not shifted): below 2^w for the clamped tag length w, and never above the address |
| `CacheModel.BlockBase` | cache.c:140 | `addr & 0xFFFC`, the first address a miss loads from, never above the address (the same expression is at cache.c:182) |
| `CacheModel.BlockBaseClearsLowBits` | cache.c:140 | `addr & 0xFFFC` on a 16-bit address is addr - addr mod 4, whatever the block size |
| `CacheSim.SetCounterStep` | cache.c:69-84 | the `set`/`count` counters of `cache_init`, after the reset test, are i / blocksPerSet and i mod blocksPerSet at block i |
| `CacheSim.Cache.constructor` | cache.c:46-47 | the global cache record starts zeroed: 256 blocks of 256 zero words, all fields 0 |
| `CacheSim.Cache.Init` | cache.c:59-87 | records the geometry and the derived bit lengths; every block is invalid, clean, label 0, and block j is in set j / blocksPerSet; data and tags are untouched; establishes `Valid()` and "no block is dirty" |
| `CacheModel.Hits` | cache.c:132 | a probe hits only a valid block of its set; a read probe also needs an equal tag, a write probe (cache.c:173) does not |
| `CacheModel.FirstHit` | cache.c:130-137 | the index of the first block the probe hits, or the array length when none does; every block before it misses |
| `CacheSim.Cache.FindHit` | cache.c:130-179 | the two hit-search loops (cache.c:130-137 for a read, cache.c:171-179 for a write) return exactly `FirstHit` of the current blocks (read probe: set, valid and tag; write probe: set and valid only) |
| `CacheModel.VictimScan` | cache.c:156-164 | the pair (replace_target, max_lru) after n blocks: max_lru is the largest label among the set's first n blocks, or 0; when positive, replace_target is the lowest-index block of the set carrying it; when 0, replace_target is still 0 |
| `CacheModel.Victim` | cache.c:156-164 | the victim loop's result: if some block of the set has a positive label, the lowest-index block of the set whose label is the maximum of the set; otherwise block 0, whatever its set |
| `CacheSim.Cache.ChooseVictim` | cache.c:156-207 | the two victim loops (cache.c:156-164 for a read, cache.c:199-207 for a write) return `Victim` of the current blocks, with the characterisation above |
| `CacheModel.Fill` | cache.c:216-230 | the block `fill_block` leaves: valid, clean, label 0, the new tag, same set; word i is the memory word at begin + i for i < blockSize and unchanged above |
| `CacheSim.Cache.FillBlock` | cache.c:216-230 | the target becomes valid, clean, label 0, new tag; data[i] == mem[addr + i] for i < blockSize; words from blockSize on, its set, every other block and memory are unchanged |
| `CacheModel.WrittenBack` | cache.c:243-251 | memory after `write_back`: no cell is removed, and every cell outside begin .. begin + n - 1 keeps its word |
| `CacheModel.WrittenBackAt` | cache.c:243-251 | after a write-back the cell at begin + k holds data[k] for k < n; every other cell keeps its old contents and presence |
| `CacheSim.Cache.WriteBack` | cache.c:243-251 | stores data[0..blockSize) of the target at addr, addr + 1, ... in increasing order; the blocks do not change |
| `CacheModel.Replaced` | cache.c:232-241 | `replace_block` changes only the target, which ends valid, clean, label 0 with the new tag; memory changes only when the target was dirty |
| `CacheSim.Cache.ReplaceBlock` | cache.c:232-241 | the new blocks and memory are those of `Replaced`: write-back only when the target is dirty, and before the fill |
| `CacheModel.DirtyReplaceReloadsOwnData` | cache.c:232-241 | since write-back stores at the new block's base, a dirty victim's words land there and the fill reads them straight back, so the victim keeps its own data |
| `CacheModel.Refill` | cache.c:145-149 | one step of the empty-block loop: an invalid block of the set becomes valid, clean, label 0 with the new tag, and on a write (cache.c:192) holds the written word at the offset; any other block is unchanged |
| `CacheModel.FilledEmpty` | cache.c:142-151 | after the empty-block loop every block of the set is valid, every block that was an invalid block of the set carries the new tag and is clean, and every other block is unchanged |
| `CacheModel.NoEmptyNoChange` | cache.c:143-151 | when the set has no invalid block, the empty-block loop changes nothing |
| `CacheSim.Cache.FillEmptyBlocks` | cache.c:184-194 | fills every invalid block of the set (not just the first), on a write also storing the word at the offset; returns true exactly when the set had no invalid block |
| `CacheModel.Miss` | cache.c:139-166 | the miss path keeps the array shape and every block's set |
| `CacheSim.Cache.HandleMiss` | cache.c:142-166 | the miss loops leave exactly the blocks and memory `Miss` gives: every invalid block of the set filled, or, when there was none, the victim replaced |
| `CacheModel.MissKeepsClean` | cache.c:142-166 | on a cache with no dirty block the miss path sets no dirty bit and leaves memory unchanged, since only a dirty victim is written back |
| `CacheModel.AccessSpec` | cache.c:99-214 | one access keeps the array shape and every block's set, and returns a word exactly when it is a read |
| `CacheSim.Cache.Access` | cache.c:99-214 | new blocks, new memory and reply are those of `AccessSpec`; `Valid()` is kept, and so is "no block is dirty" |
| `CacheSim.Cache.ReadAccess` | cache.c:128-167 | the read branch has the effect `AccessSpec` gives for a read |
| `CacheSim.Cache.WriteAccess` | cache.c:169-213 | the write branch has the effect `AccessSpec` gives for a write |
| `CacheModel.ReadHit` | cache.c:130-137 | on a read that hits, the lowest-index valid block of the set with an equal tag gets label + 1 and its word at the offset is returned; memory and all other blocks are unchanged |
| `CacheModel.WriteHit` | cache.c:171-178 | on a write that finds a valid block of the set, the lowest-index valid block of the set, whatever its tag, gets the word at the offset and label + 1; memory gets the word at addr; all other blocks are unchanged |
| `CacheModel.ReadMissFillsEveryEmptyWay` | cache.c:139-151 | a read miss with an invalid block in the set fills every invalid block of the set from the block base with the same tag, leaves memory alone, and returns the word read from memory |
| `CacheModel.MissReplacesVictim` | cache.c:153-166 | a miss with no invalid block in the set changes only the victim: it is written back only if dirty, then filled from the block base with the new tag; a write also stores its word in memory |
| `CacheModel.CleanAccess` | cache.c:226-229 | `dirty` is only ever set to 0: from a cache with no dirty block, an access leaves none, never reaches `write_back`, and changes memory only by the written word |
| `MainMemory.Memory.Read` | cache.c:13 | `mem_access(a, 0, _)` returns the word stored at a and changes nothing |
| `MainMemory.Memory.Write` | cache.c:13 | `mem_access(a, 1, w)` stores w at a and changes no other cell |

## Left out

- `printAction`, `printCache`, `printStats` and the `printf` calls are not modelled. They are console output only.
- The floating-point `log(x) / log(2)` is modelled as the integer part of log2 (`Log2`). Rounding of the floating-point quotient below an exact integer is not modelled.
- The implementation of `mem_access` is not part of this model. It is the class `Memory`, and a cell never written reads as 0.
- The value `cache_access` returns for a write is undefined. `Access` returns `None` for it.
- `lruLabel` is an unbounded integer. The C `int` would overflow only after 2^31 hits on one block, which is not modelled.
- `CacheSim.Cache.Init` requires 1 <= blockSize <= 256, numSets >= 1 and 1 <= blocksPerSet <= 256. The C code checks none of these. `log` needs positive arguments and `fill_block` needs blockSize <= 256. The bound on blocksPerSet is a chosen one: the block offset stays below 2^floor(log2 blocksPerSet), so the C code would stay inside the 256-word buffer up to blocksPerSet = 511, but a cache of 256 block records never has more than 256 blocks in a set.
- `Access` requires a 16-bit address (0 to 0xFFFF), as the comment on `cache_access` states.
- The global variable is modelled as an object. The C flags `valid` and `dirty` are modelled as booleans, since the code only stores 0 and 1 in them.
