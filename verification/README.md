# pool-cpp in Dafny

A model of `Pool<T>` from `pool.h`, a single-threaded object pool. The pool
hands out element slots from a growing list of blocks. Each block holds
`blockSize` elements. A freed slot goes on an intrusive LIFO free list, and
`allocate` reuses it before touching fresh storage. Only when the free list
is empty does the `(block, used)` cursor advance. When the cursor runs past
the end of the last block, a new block is appended.

The model is a pure state machine over immutable values.

- `Slots` (`slot.dfy`): a slot is a pair `(blk, off)`. It stands for the
  address `blocks[blk] + off`. The module also defines the lexicographic order
  on slots. It also defines a slot's linear position, `blk * blockSize + off`.
  This is an index that numbers slots block after block, not an address,
  because blocks are separate allocations.
- `Pools` (`pool.dfy`): the pool record has these fields:
  - `blockSize`;
  - the block count;
  - the cursor `block` / `used`;
  - the free list as a sequence of slots, head first.

  The module also has:
  - the invariant `Valid`;
  - the constructor `New`;
  - `Allocate` and `Free`;
  - lemmas about the order in which fresh slots appear and about LIFO reuse.
- `Tracking` (`tracking.dfy`): the pool plus the set of handles the caller
  holds. The pool never records that set. This module states the
  precondition of `free`: only a live handle may be freed. Its invariant
  `Inv` says every slot is in exactly one of three states: untouched, live or
  free. `Replay` runs a sequence of calls and reports the first call that
  breaks the contract.
- `FreeLinks` (`freelist.dfy`): the free list as the code stores it. That is
  the head pointer `freed` plus the `nextFree` word inside each freed slot.
  The module shows that `free` and the reuse path of `allocate` push and pop
  this chain exactly as the sequence model does, as long as no slot is freed
  twice. It also shows what a double free does to the chain.

The constructor takes an `unsigned` and stores `blockSize - 1` as `used`, so
a block size of 0 wraps `used` to `UINT_MAX`. `New` models that wrap, and
its contract says the resulting pool is `Valid` exactly when the block size
is positive. `allocate` is only specified on valid pools. The doc comment on
`allocate` says it returns `nullptr` "if the pool is full", but the code
never does. The model has no failure result, and no property rests on that
comment. `FullBlockScenario` follows a pool of `n >= 2` slots per block. It
fills block 0, frees slot (0, 1) and gets that slot back, then grows into
block 1 at slot (1, 0).

## Model

| member | source | states |
|---|---|---|
| Pools.New | pool.h:11-22 | a new pool has no block, an empty free list, cursor block -1 and `used` = blockSize - 1, and has handed out no slot; at blockSize 0 the unsigned `used` wraps to UINT_MAX; the pool satisfies the invariant exactly when blockSize > 0 |
| Pools.Allocate | pool.h:33-54 | keeps the invariant; the slot returned lies in an existing block; with a non-empty free list it returns the head and pops it, leaving block count and cursor unchanged; otherwise the slot is one never handed out before, the cursor names it and the free list stays empty; the block count grows by at most one, and by one exactly when the free list is empty and the current block is full |
| Pools.Free | pool.h:56-67 | for a slot of this pool that is not already free (no double free): keeps the invariant; the freed slot becomes the head of the free list on top of the old list; block count, cursor and block size are unchanged |
| Pools.AllocateIssues | pool.h:44-53 | a fresh slot comes strictly after (lexicographically) every slot handed out before; it is the only slot a fresh allocation adds to the handed-out set; reuse adds none |
| Pools.GrowthTestHolds | pool.h:44-49 | whenever the growth test `++block == blocks.size()` is reached it is true, so a block is always appended there |
| Pools.FirstAllocation | pool.h:22-53 | the first allocation of a new pool lands on slot (0, 0) and appends the first block |
| Pools.FreeThenAllocate | pool.h:33-67 | freeing a slot that is not already free and allocating again returns exactly that slot and the pool as it was (LIFO reuse before growth) |
| Pools.AllocateThenFree | pool.h:33-67 | popping a slot from the free list and freeing it again restores the pool |
| Pools.AllocateMany | pool.h:33-54 | repeated allocation keeps the invariant and never removes a block |
| Pools.FreshAllocationAdvances | pool.h:44-53 | a fresh allocation moves the cursor exactly one linear position forward and returns the slot at that position |
| Pools.BlocksFromCursor | pool.h:12-15 | the block count is the number of blocks up to and including the cursor's block: ceil((cursor position + 1) / blockSize) |
| Pools.FreshSlotsInOrder | pool.h:44-53 | from a new pool, the k-th allocation returns the slot at linear position k, the free list stays empty, and n allocations leave ceil(n / blockSize) blocks |
| Pools.FreshSlotsIncrease | pool.h:44-53 | from a new pool, of any two fresh allocations the earlier one returns the lexicographically smaller (block, offset) slot |
| Pools.FullBlockScenario | pool.h:33-67 | with n >= 2 slots per block: n allocations fill block 0; freeing slot (0, 1) and allocating returns (0, 1); the next allocation appends block 1 and returns (1, 0) |
| Slots.BeforeIsLinearOrder | pool.h:53 | for offsets inside a block, the lexicographic (block, offset) order is the order of linear positions (block * blockSize + offset) |
| Slots.SlotAtLinear | pool.h:53 | a slot is determined by its linear position: the decomposition into block and offset inverts it |
| Tracking.Init | pool.h:22 | a new pool with no live handle satisfies the three-state slot invariant |
| Tracking.TrackedAllocate | pool.h:33-54 | acts on the pool as `Pools.Allocate`; the handle returned was not live before, is not on the free list, lies in an existing block, and joins the live set; the three-state invariant is kept |
| Tracking.TrackedFree | pool.h:56-67 | a live handle is not on the free list, and the call acts on the pool as `Pools.Free`; the handle leaves the live set and becomes the free-list head; the block count is unchanged; the three-state invariant is kept |
| Tracking.Replay | pool.h:33-67 | a completed run ends in a state with the invariant; the block count never decreases and grows by at most the number of allocations; a reported violation always lies at a `free` call |
| Tracking.ViolationIsFirstBreach | pool.h:56-67 | a reported violation is the first call that breaks the contract: the calls before it complete, and the handle it frees is not live at that point |
| Tracking.CompletedKeepsContract | pool.h:33-67 | in a completed run every prefix completes and every `free` hands back a handle that is live at that point |
| Tracking.AllocationsNeverRepeat | pool.h:33-54 | a run of allocations always completes and hands out pairwise distinct handles, none live before; the live set grows by exactly those handles |
| Tracking.DoubleFreeIsViolation | pool.h:56-67 | freeing the same live handle twice breaks the contract at the second call |
| FreeLinks.Push | pool.h:60-67 | after `free(h)` the head is h, h's link is the old head, every other slot's link is unchanged, and no slot other than h gains a link |
| FreeLinks.Pop | pool.h:34-41 | the reuse path hands out the head and moves the head to the handed-out slot's link; the stored links are left as they were (see Left out) |
| FreeLinks.PushWalks | pool.h:60-67 | pushing a slot that is not on the free list yields a chain that walks that slot followed by the old list |
| FreeLinks.PopWalks | pool.h:34-41 | popping a chain that walks a non-empty list hands out its first slot and leaves a chain that walks the rest |
| FreeLinks.FreeIsPush | pool.h:60-67 | when the chain walks the pool's free-list sequence, `Pools.Free` and the stored push agree |
| FreeLinks.AllocateIsPop | pool.h:34-41 | when the chain walks the pool's free-list sequence, the reuse path of `Pools.Allocate` and the stored pop hand out the same slot and leave agreeing lists |
| FreeLinks.ClosedHasNoWalk | pool.h:34-41 | a chain whose head lies in a set of slots that all link inside the set never reaches null, so it walks no finite list |
| FreeLinks.DoubleFreeLoops | pool.h:60-67 | freeing a slot already on the free list sets its link to the old head; the chain then loops through it and walks no list, so the slots that followed it are lost |
| FreeLinks.ImmediateDoubleFree | pool.h:34-67 | freeing the same slot twice in a row makes it link to itself; the chain walks no list, and the next two allocations both hand out that slot |

## Left out

- Raw memory is not modelled: `malloc` of a block, `std::free` in the destructor, and the destructor `~Pool` itself (pool.h:23-26). The block list is represented by its length. A handle is the slot pair, not an address, so the promise that addresses are stable holds because a slot's identity never changes.
- Placement construction with forwarded arguments and the element destructor call (pool.h:39, pool.h:51, pool.h:63) are left out. These are C++ object-lifetime mechanics; the model only records which slots are live.
- The model assumes the element constructor never throws. In the source, `allocate` pops the free-list head (pool.h:37) or advances the cursor and may append a block (pool.h:44-48) before it constructs. If `T(args...)` then throws, the popped or fresh slot is neither live nor free and is leaked. Tracking's three-state invariant does not hold after such a throw.
- Pools works on the free list as an explicit sequence of slots. FreeLinks models the `nextFree` links stored in freed slots (pool.h:7-9, pool.h:61-66) and proves the two agree while no slot is freed twice. The byte-level overlap of the link with the element's storage is not modelled.
- Allocation failure is left out. `malloc` at pool.h:48 is unchecked, and the code never returns `nullptr`.
- `block` is a signed `int` and is compared with `(unsigned)blocks.size()`. The model uses unbounded integers, so overflow past INT_MAX blocks and truncation of the block count are not modelled. `used < blockSize <= UINT_MAX` holds, so `++used` never wraps and that increment is exact.
- The `sizeof(T) >= sizeof(PoolFreed)` layout requirement, alignment, and concurrency are left out. The class has no synchronisation.
- FreeLinks.Pop: it keeps the handed-out slot's link in the map, while pool.h:39 builds the new element over that word right after pool.h:37 reads it. No later operation reads that stale entry unless the slot was freed twice. After a double free, the model's second pop from the looped chain moves the head back to the same slot. The source instead reads the element's first bytes as the next pointer.
- Pools.Free: it requires a slot this pool has handed out that is not already on the free list. The stronger obligation that the slot is currently live is stated by Tracking.TrackedFree. What the code does on a double free is modelled by FreeLinks.DoubleFreeLoops and FreeLinks.ImmediateDoubleFree.
