/**
 The pool together with the caller's side of the contract: the set of handles
 the caller currently holds (live). The pool itself never records this set;
 keeping it beside the pool states the precondition of `free` (only a live
 handle may be freed) and the per-slot life cycle

   untouched --allocate--> live --free--> free --allocate--> live ...

 from which the uniqueness of live handles follows.
 */
module Tracking {
  import opened Slots
  import opened Pools

  datatype State = State(pool: Pool, live: set<Slot>)

  /** What an allocation yields on the tracked state. */
  datatype Handed = Handed(state: State, handle: Slot)

  /** Every slot is in exactly one of three states: untouched (never handed out),
      live (held by the caller) or free (on the free list, exactly once). */
  ghost predicate Inv(s: State) {
    && Valid(s.pool)
    && (forall h :: h in s.live ==> Issued(s.pool, h))
    && (forall h :: Issued(s.pool, h) ==> h in s.live || h in s.pool.freed)
    && (forall i :: 0 <= i < |s.pool.freed| ==> s.pool.freed[i] !in s.live)
  }

  /** A new pool: nothing handed out, nothing live. */
  function Init(blockSize: nat): (s: State)
    requires 0 < blockSize <= UINT_MAX
    ensures Inv(s)
    ensures s.live == {} && s.pool.blocks == 0
  {
    State(New(blockSize), {})
  }

  /** `allocate` seen from the caller: the slot handed out joins the live handles.
      It was not live before, so live handles stay pairwise distinct. */
  function TrackedAllocate(s: State): (r: Handed)
    requires Inv(s)
    ensures r.handle == Allocate(s.pool).slot && r.state.pool == Allocate(s.pool).pool
    ensures Inv(r.state)
    ensures r.handle !in s.live
    ensures r.state.live == s.live + {r.handle}
    ensures r.handle !in r.state.pool.freed
    ensures InBlocks(r.state.pool, r.handle)
  {
    var a := Allocate(s.pool);
    AllocateIssues(s.pool);
    assert forall i :: 0 <= i < |a.pool.freed| ==> a.pool.freed[i] == s.pool.freed[i + 1];
    Handed(State(a.pool, s.live + {a.slot}), a.slot)
  }

  /** `free` seen from the caller, who may only hand back a live handle: the handle
      leaves the live set and becomes the head of the free list. */
  function TrackedFree(s: State, h: Slot): (r: State)
    requires Inv(s) && h in s.live
    ensures h !in s.pool.freed && r.pool == Free(s.pool, h)
    ensures Inv(r)
    ensures r.live == s.live - {h}
    ensures |r.pool.freed| == |s.pool.freed| + 1 && r.pool.freed[0] == h && h !in r.live
    ensures r.pool.blocks == s.pool.blocks
  {
    var p := Free(s.pool, h);
    assert forall i :: 1 <= i < |p.freed| ==> p.freed[i] == s.pool.freed[i - 1];
    State(p, s.live - {h})
  }

  /** One call on the pool. */
  datatype Op = Alloc | Release(handle: Slot)

  /** The outcome of a sequence of calls: every call kept to the contract, or the call
      at index `at` freed a handle that was not live (double free or foreign handle),
      which the source leaves undefined. */
  datatype Outcome = Completed(state: State, handed: seq<Slot>) | Violation(at: nat)

  /** Run a sequence of calls, collecting the handles `Alloc` calls return. */
  function Replay(s: State, ops: seq<Op>): (r: Outcome)
    requires Inv(s)
    ensures r.Completed? ==> Inv(r.state)
    ensures r.Completed? ==> s.pool.blocks <= r.state.pool.blocks <= s.pool.blocks + Allocations(ops)
    ensures r.Completed? ==> r.state.pool.blockSize == s.pool.blockSize
    ensures r.Completed? ==> |r.handed| == Allocations(ops)
    ensures r.Violation? ==> r.at < |ops| && ops[r.at].Release?
    decreases |ops|
  {
    if ops == [] then Completed(s, [])
    else
      match ops[0]
      case Alloc =>
        var a := TrackedAllocate(s);
        (match Replay(a.state, ops[1..])
         case Completed(t, hs) => Completed(t, [a.handle] + hs)
         case Violation(k) => Violation(k + 1))
      case Release(h) =>
        if h in s.live then
          (match Replay(TrackedFree(s, h), ops[1..])
           case Completed(t, hs) => Completed(t, hs)
           case Violation(k) => Violation(k + 1))
        else Violation(0)
  }

  /** A reported violation is the first call that breaks the contract: every call
      before it keeps to the contract, and the handle it frees is not live. */
  lemma {:induction false} ViolationIsFirstBreach(s: State, ops: seq<Op>)
    requires Inv(s) && Replay(s, ops).Violation?
    ensures var k := Replay(s, ops).at;
      Replay(s, ops[..k]).Completed? && ops[k].handle !in Replay(s, ops[..k]).state.live
    decreases |ops|
  {
    var k := Replay(s, ops).at;
    match ops[0]
    case Alloc =>
      var a := TrackedAllocate(s);
      ViolationIsFirstBreach(a.state, ops[1..]);
      assert ops[..k][1..] == ops[1..][..k - 1];
    case Release(h) =>
      if h in s.live {
        ViolationIsFirstBreach(TrackedFree(s, h), ops[1..]);
        assert ops[..k][1..] == ops[1..][..k - 1];
      } else {
        assert ops[..k] == [];
      }
  }

  /** Conversely, in a run that completes, every call keeps to the contract: each
      prefix completes, and each `free` hands back a handle that is live at that point. */
  lemma {:induction false} CompletedKeepsContract(s: State, ops: seq<Op>, k: nat)
    requires Inv(s) && Replay(s, ops).Completed? && k < |ops|
    ensures Replay(s, ops[..k]).Completed?
    ensures ops[k].Release? ==> ops[k].handle in Replay(s, ops[..k]).state.live
    decreases |ops|
  {
    if k == 0 {
      assert ops[..k] == [];
    } else {
      assert ops[..k][1..] == ops[1..][..k - 1];
      match ops[0]
      case Alloc =>
        CompletedKeepsContract(TrackedAllocate(s).state, ops[1..], k - 1);
      case Release(h) =>
        CompletedKeepsContract(TrackedFree(s, h), ops[1..], k - 1);
    }
  }

  /** The number of `Alloc` calls in `ops`. */
  function Allocations(ops: seq<Op>): nat {
    if ops == [] then 0 else (if ops[0].Alloc? then 1 else 0) + Allocations(ops[1..])
  }

  /** A sequence of calls that only allocates never violates the contract, hands out
      pairwise distinct slots none of which was live before, and makes exactly those
      slots live in addition. */
  lemma {:induction false} AllocationsNeverRepeat(s: State, ops: seq<Op>)
    requires Inv(s)
    requires forall i :: 0 <= i < |ops| ==> ops[i].Alloc?
    ensures Replay(s, ops).Completed?
    ensures Distinct(Replay(s, ops).handed)
    ensures forall i :: 0 <= i < |Replay(s, ops).handed| ==> Replay(s, ops).handed[i] !in s.live
    ensures forall h :: h in Replay(s, ops).state.live <==> h in s.live || h in Replay(s, ops).handed
    decreases |ops|
  {
    if ops != [] {
      var a := TrackedAllocate(s);
      AllocationsNeverRepeat(a.state, ops[1..]);
      var rest := Replay(a.state, ops[1..]);
      var r := Replay(s, ops);
      assert r.handed == [a.handle] + rest.handed;
      assert forall i :: 1 <= i < |r.handed| ==> r.handed[i] == rest.handed[i - 1];
    }
  }

  /** Freeing a live handle twice is caught as a contract violation at the second call. */
  lemma DoubleFreeIsViolation(s: State, h: Slot)
    requires Inv(s) && h in s.live
    ensures Replay(s, [Release(h), Release(h)]) == Violation(1)
  {
    var t := TrackedFree(s, h);
    assert [Release(h), Release(h)][1..] == [Release(h)];
    assert Replay(t, [Release(h)]) == Violation(0);
  }
}
