/**
 A slot is one element-sized storage location of a pool: the element at
 offset `off` of block number `blk`. It stands for the address
 `blocks[blk] + off` that the pool hands out as a handle.
 */
module Slots {

  datatype Slot = Slot(blk: nat, off: nat)

  /** Lexicographic order on slots: block first, then offset inside the block. */
  predicate Before(a: Slot, b: Slot) {
    a.blk < b.blk || (a.blk == b.blk && a.off < b.off)
  }

  /** No slot occurs twice in `xs`. */
  predicate Distinct(xs: seq<Slot>) {
    forall i, j :: 0 <= i < j < |xs| ==> xs[i] != xs[j]
  }

  /** The linear position of a slot when slots are numbered block after block, with
      `blockSize` slots per block. It is an index, not an address: blocks are separate
      allocations. */
  function Linear(s: Slot, blockSize: nat): nat {
    s.blk * blockSize + s.off
  }

  /** The slot at linear position `i`, with `blockSize` slots per block. */
  function SlotAt(i: nat, blockSize: nat): (s: Slot)
    requires 0 < blockSize
    ensures s.off < blockSize
    ensures Linear(s, blockSize) == i
  {
    Slot(i / blockSize, i % blockSize)
  }

  /** A positive multiple of `n` is at least `n`. */
  lemma MultipleAtLeast(k: int, n: int)
    requires 1 <= k && 0 <= n
    ensures k * n >= n
  {
    assert k * n == (k - 1) * n + n;
    assert (k - 1) * n >= 0;
  }

  /** Quotient and remainder are determined by any decomposition with an in-range remainder. */
  lemma DivModUnique(x: int, n: int, q: int, r: int)
    requires 0 < n && 0 <= r < n
    requires x == q * n + r
    ensures x / n == q && x % n == r
  {
    var q', r' := x / n, x % n;
    assert x == q' * n + r';
    var d := q - q';
    assert d * n == q * n - q' * n;
    assert d * n == r' - r;
    if d >= 1 {
      MultipleAtLeast(d, n);
      assert false;
    } else if d <= -1 {
      MultipleAtLeast(-d, n);
      assert false;
    }
  }

  /** Multiplying by a non-negative factor preserves order. */
  lemma MultiplyMonotone(x: int, y: int, n: int)
    requires x <= y && 0 <= n
    ensures x * n <= y * n
  {
    assert y * n - x * n == (y - x) * n;
  }

  /** A slot's position lies in the stretch of its own block. */
  lemma LinearInBlock(s: Slot, blockSize: nat)
    requires s.off < blockSize
    ensures s.blk * blockSize <= Linear(s, blockSize) < (s.blk + 1) * blockSize
  {
    assert (s.blk + 1) * blockSize == s.blk * blockSize + blockSize;
  }

  /** On in-range offsets, the lexicographic order is the order of linear positions. */
  lemma BeforeIsLinearOrder(a: Slot, b: Slot, blockSize: nat)
    requires a.off < blockSize && b.off < blockSize
    ensures Before(a, b) <==> Linear(a, blockSize) < Linear(b, blockSize)
  {
    LinearInBlock(a, blockSize);
    LinearInBlock(b, blockSize);
    if a.blk < b.blk {
      MultiplyMonotone(a.blk + 1, b.blk, blockSize);
    } else if b.blk < a.blk {
      MultiplyMonotone(b.blk + 1, a.blk, blockSize);
    }
  }

  /** Distinct in-range slots have distinct linear positions, and SlotAt inverts Linear. */
  lemma SlotAtLinear(s: Slot, blockSize: nat)
    requires s.off < blockSize
    ensures SlotAt(Linear(s, blockSize), blockSize) == s
  {
    DivModUnique(Linear(s, blockSize), blockSize, s.blk, s.off);
  }
}
