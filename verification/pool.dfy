/**
 The object pool `Pool<T>` as an immutable state machine.

 The pool hands out slots from a growing list of blocks of `blockSize`
 slots each. A freed slot is pushed on an intrusive LIFO free list and is
 handed out again before any fresh storage is touched; only when the free
 list is empty does the `(block, used)` cursor advance into fresh storage,
 appending a block when it runs off the end of the last one.

 The block list is represented by its length, the free list by the
 sequence of its slots with the head at index 0.
 */
module Pools {
  import opened Slots

  /** The largest value of the source's `unsigned` (32 bits). */
  const UINT_MAX: nat := 0xFFFF_FFFF

  datatype Pool = Pool(
    blockSize: nat,     // elements per block, fixed at construction
    blocks: nat,        // number of blocks appended so far
    block: int,         // cursor: block of the most recent fresh slot (-1 before the first)
    used: nat,          // cursor: offset of the most recent fresh slot in `block`
    freed: seq<Slot>    // free list, head first
  )

  /** What `allocate` yields: the pool after the call and the slot handed out. */
  datatype Allocated = Allocated(pool: Pool, slot: Slot)

  /** Slot `s` has been handed out fresh at least once: it lies at or before the cursor. */
  predicate Issued(p: Pool, s: Slot) {
    s.off < p.blockSize && (s.blk < p.block || (s.blk == p.block && s.off <= p.used))
  }

  /** Slot `s` lies inside a block the pool has appended. */
  predicate InBlocks(p: Pool, s: Slot) {
    s.blk < p.blocks && s.off < p.blockSize
  }

  /** The pool's invariant: the cursor is inside the last block, or one before the
      first slot of a pool that has no block yet, and the free list holds only
      slots that have been handed out, each at most once (a slot on it twice
      could only come from a double free, which `Free` excludes). */
  predicate Valid(p: Pool) {
    && 0 < p.blockSize <= UINT_MAX
    && p.used < p.blockSize
    && -1 <= p.block
    && p.blocks == p.block + 1
    && (p.block == -1 ==> p.used == p.blockSize - 1)
    && (forall i :: 0 <= i < |p.freed| ==> Issued(p, p.freed[i]))
    && Distinct(p.freed)
  }

  /** The constructor `Pool(unsigned blockSize)`: no block, an empty free list, and the
      cursor one before the first slot. `used` is the unsigned `blockSize - 1`, which
      wraps to UINT_MAX when `blockSize` is 0; the pool is usable exactly when
      `blockSize` is positive. */
  function New(blockSize: nat): (p: Pool)
    requires blockSize <= UINT_MAX
    ensures p.blockSize == blockSize && p.blocks == 0 && p.freed == [] && p.block == -1
    ensures Valid(p) <==> 0 < blockSize
    ensures 0 < blockSize ==> p.used == blockSize - 1
    ensures blockSize == 0 ==> p.used == UINT_MAX
    ensures forall s :: !Issued(p, s)
  {
    Pool(blockSize, 0, -1, (blockSize + UINT_MAX) % (UINT_MAX + 1), [])
  }

  /** The block count after the cursor moved to block `next`: a block is appended
      exactly when `next` is the index one past the last block. */
  function Grow(blocks: nat, next: int): nat {
    if next == blocks then blocks + 1 else blocks
  }

  /** `allocate`: pop the head of the free list if there is one; otherwise advance the
      cursor by one slot, moving to the start of the next block (appended if new) when
      the current block is exhausted, and hand out the slot under the cursor. */
  function Allocate(p: Pool): (r: Allocated)
    requires Valid(p)
    ensures Valid(r.pool) && r.pool.blockSize == p.blockSize
    ensures InBlocks(r.pool, r.slot)
    // reuse takes priority: the head is handed out and popped, nothing else changes
    ensures |p.freed| > 0 ==>
      && r.slot == p.freed[0]
      && r.pool.freed == p.freed[1..]
      && r.pool.blocks == p.blocks && r.pool.block == p.block && r.pool.used == p.used
    // otherwise the slot is fresh: never handed out before, and the cursor now names it
    ensures |p.freed| == 0 ==>
      && r.pool.freed == []
      && !Issued(p, r.slot)
      && r.slot.blk == r.pool.block && r.slot.off == r.pool.used
    // at most one block is appended, and only when the current one is exhausted
    ensures p.blocks <= r.pool.blocks <= p.blocks + 1
    ensures r.pool.blocks == p.blocks + 1 <==> |p.freed| == 0 && p.used == p.blockSize - 1
  {
    if |p.freed| > 0 then
      Allocated(p.(freed := p.freed[1..]), p.freed[0])
    else if p.used + 1 == p.blockSize then
      var next := p.block + 1;
      Allocated(p.(blocks := Grow(p.blocks, next), block := next, used := 0), Slot(next, 0))
    else
      Allocated(p.(used := p.used + 1), Slot(p.block, p.used + 1))
  }

  /** `free`: push the slot on the head of the free list. The caller must hand back a
      slot of this pool that is not already free (no double free); that it is live,
      as opposed to merely not free, is stated on the tracked state in module
      Tracking. What the code does on a double free is modelled in module FreeLinks. */
  function Free(p: Pool, h: Slot): (r: Pool)
    requires Valid(p) && Issued(p, h) && h !in p.freed
    ensures Valid(r)
    ensures |r.freed| == |p.freed| + 1 && r.freed[0] == h && r.freed[1..] == p.freed
    ensures r.blockSize == p.blockSize && r.blocks == p.blocks
    ensures r.block == p.block && r.used == p.used
  {
    p.(freed := [h] + p.freed)
  }

  /** A fresh slot comes after every slot handed out before it, and it is the only slot
      a fresh allocation adds to those handed out; a reuse adds none. */
  lemma AllocateIssues(p: Pool)
    requires Valid(p)
    ensures |p.freed| == 0 ==> forall s :: Issued(p, s) ==> Before(s, Allocate(p).slot)
    ensures |p.freed| == 0 ==> forall s :: Issued(Allocate(p).pool, s) <==> Issued(p, s) || s == Allocate(p).slot
    ensures |p.freed| > 0 ==> forall s :: Issued(Allocate(p).pool, s) <==> Issued(p, s)
  {
  }

  /** The growth test of `allocate` always succeeds when it is reached: the cursor
      only leaves a block when that block is the last one. */
  lemma GrowthTestHolds(p: Pool)
    requires Valid(p) && |p.freed| == 0 && p.used + 1 == p.blockSize
    ensures p.block + 1 == p.blocks
    ensures Grow(p.blocks, p.block + 1) == p.blocks + 1
  {
  }

  /** The first fresh allocation of a new pool lands on slot (0, 0) and appends block 0. */
  lemma FirstAllocation(blockSize: nat)
    requires 0 < blockSize <= UINT_MAX
    ensures Allocate(New(blockSize)).slot == Slot(0, 0)
    ensures Allocate(New(blockSize)).pool.blocks == 1
  {
  }

  /** Freeing `h` and allocating again gives back exactly `h` and the pool as it was:
      reuse is LIFO and is preferred over growth. */
  lemma FreeThenAllocate(p: Pool, h: Slot)
    requires Valid(p) && Issued(p, h) && h !in p.freed
    ensures Allocate(Free(p, h)) == Allocated(p, h)
  {
    var q := Free(p, h);
    assert q.freed[1..] == p.freed;
  }

  /** Allocating from a non-empty free list and freeing the slot again restores the pool. */
  lemma AllocateThenFree(p: Pool)
    requires Valid(p) && |p.freed| > 0
    ensures Free(Allocate(p).pool, Allocate(p).slot) == p
  {
    var a := Allocate(p);
    assert Issued(a.pool, a.slot);
    assert [p.freed[0]] + p.freed[1..] == p.freed;
  }

  /** `n` allocations in a row, with the slots in the order they were handed out. */
  function AllocateMany(p: Pool, n: nat): (r: (Pool, seq<Slot>))
    requires Valid(p)
    ensures Valid(r.0) && r.0.blockSize == p.blockSize && |r.1| == n
    ensures p.blocks <= r.0.blocks
  {
    if n == 0 then (p, [])
    else
      var prev := AllocateMany(p, n - 1);
      var a := Allocate(prev.0);
      (a.pool, prev.1 + [a.slot])
  }

  /** Linear position of the cursor: the position of the most recent fresh slot,
      -1 before the first. */
  function CursorPosition(p: Pool): int {
    p.block * p.blockSize + p.used
  }

  /** A fresh allocation moves the cursor one position on and hands out the slot there. */
  lemma FreshAllocationAdvances(p: Pool)
    requires Valid(p) && |p.freed| == 0
    ensures CursorPosition(Allocate(p).pool) == CursorPosition(p) + 1
    ensures 0 <= CursorPosition(p) + 1
    ensures Allocate(p).slot == SlotAt(CursorPosition(p) + 1, p.blockSize)
  {
    var a := Allocate(p);
    var n := p.blockSize;
    if p.used + 1 == n {
      assert (p.block + 1) * n == p.block * n + n;
    }
    assert Linear(a.slot, n) == CursorPosition(a.pool);
    SlotAtLinear(a.slot, n);
  }

  /** The block count is determined by the cursor position: the blocks are exactly
      those up to and including the one the cursor is in. */
  lemma BlocksFromCursor(p: Pool)
    requires Valid(p)
    ensures p.blocks == (CursorPosition(p) + p.blockSize) / p.blockSize
  {
    var n := p.blockSize;
    assert CursorPosition(p) + n == (p.block + 1) * n + p.used by {
      assert (p.block + 1) * n == p.block * n + n;
    }
    DivModUnique(CursorPosition(p) + n, n, p.block + 1, p.used);
  }

  /** Starting from a new pool, the `k`-th allocation (counting from 0) hands out the
      slot at linear position `k`, and `n` allocations leave ceil(n / blockSize) blocks:
      fresh slots come in strictly increasing order, block after block. */
  lemma {:induction false} FreshSlotsInOrder(blockSize: nat, n: nat)
    requires 0 < blockSize <= UINT_MAX
    ensures AllocateMany(New(blockSize), n).0.freed == []
    ensures CursorPosition(AllocateMany(New(blockSize), n).0) == n - 1
    ensures AllocateMany(New(blockSize), n).0.blocks == (n + blockSize - 1) / blockSize
    ensures forall k :: 0 <= k < n ==> AllocateMany(New(blockSize), n).1[k] == SlotAt(k, blockSize)
  {
    var r := AllocateMany(New(blockSize), n);
    if n == 0 {
      assert CursorPosition(r.0) == -1 * blockSize + (blockSize - 1);
    } else {
      FreshSlotsInOrder(blockSize, n - 1);
      var prev := AllocateMany(New(blockSize), n - 1);
      var a := Allocate(prev.0);
      assert r == (a.pool, prev.1 + [a.slot]);
      FreshAllocationAdvances(prev.0);
      assert r.1[n - 1] == SlotAt(n - 1, blockSize);
      assert forall k :: 0 <= k < n - 1 ==> r.1[k] == prev.1[k];
    }
    BlocksFromCursor(r.0);
  }

  /** From a new pool, fresh slots come out in strictly increasing lexicographic
      (block, offset) order. */
  lemma FreshSlotsIncrease(blockSize: nat, n: nat, i: nat, j: nat)
    requires 0 < blockSize <= UINT_MAX
    requires i < j < n
    ensures Before(AllocateMany(New(blockSize), n).1[i], AllocateMany(New(blockSize), n).1[j])
  {
    FreshSlotsInOrder(blockSize, n);
    var slots := AllocateMany(New(blockSize), n).1;
    assert slots[i] == SlotAt(i, blockSize) && slots[j] == SlotAt(j, blockSize);
    BeforeIsLinearOrder(slots[i], slots[j], blockSize);
  }

  /** A pool of `n` >= 2 elements per block: `n` allocations fill block 0; freeing the second slot and allocating gives that slot
      back with the free list empty again; the next allocation appends block 1 and
      lands on its first slot. */
  lemma FullBlockScenario(n: nat)
    requires 2 <= n <= UINT_MAX
    ensures AllocateMany(New(n), n).0 == Pool(n, 1, 0, n - 1, [])
    ensures AllocateMany(New(n), n).1[1] == Slot(0, 1)
    ensures Allocate(Free(Pool(n, 1, 0, n - 1, []), Slot(0, 1))) == Allocated(Pool(n, 1, 0, n - 1, []), Slot(0, 1))
    ensures Allocate(Pool(n, 1, 0, n - 1, [])) == Allocated(Pool(n, 2, 1, 0, []), Slot(1, 0))
  {
    FreshSlotsInOrder(n, n);
    var full := AllocateMany(New(n), n);
    DivModUnique(2 * n - 1, n, 1, n - 1);
    assert full.0.blocks == 1;
    DivModUnique(1, n, 0, 1);
    assert full.1[1] == SlotAt(1, n);
    FreeThenAllocate(full.0, Slot(0, 1));
  }
}
