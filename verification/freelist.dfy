/**
 The free list as the code stores it: a head pointer `freed` and, inside
 every freed slot, a `nextFree` word naming the next freed slot or null.

 Module Pools represents the same list as a sequence of slots. This module
 shows the two agree for as long as no slot is freed twice (`free` pushes,
 the reuse path of `allocate` pops), and shows what the code does on a
 double free: the slot's link is overwritten, the list turns into a loop
 through that slot, and the slots that followed it are lost.
 */
module FreeLinks {
  import opened Slots
  import opened Pools

  /** A `PoolFreed*`: a freed slot, or null. */
  datatype Link = Null | To(slot: Slot)

  /** The head pointer `freed` and the `nextFree` word of each slot that has one. */
  datatype Chain = Chain(head: Link, next: map<Slot, Link>)

  /** The link that follows position `i` of a list `xs`. */
  function Successor(xs: seq<Slot>, i: nat): Link
    requires i < |xs|
  {
    if i + 1 < |xs| then To(xs[i + 1]) else Null
  }

  /** Following the chain from its head visits exactly the slots of `xs`, in order,
      and then reaches null. */
  predicate Walks(c: Chain, xs: seq<Slot>) {
    && c.head == (if xs == [] then Null else To(xs[0]))
    && forall i :: 0 <= i < |xs| ==> xs[i] in c.next && c.next[xs[i]] == Successor(xs, i)
  }

  /** `free` on the stored list: the slot's first word gets the old head, and the
      head becomes the slot. */
  function Push(c: Chain, h: Slot): (r: Chain)
    ensures r.head == To(h) && h in r.next && r.next[h] == c.head
    ensures forall s :: s in c.next && s != h ==> s in r.next && r.next[s] == c.next[s]
    ensures r.next.Keys == c.next.Keys + {h}
  {
    Chain(To(h), c.next[h := c.head])
  }

  /** The reuse path of `allocate` on the stored list: hand out the head and move the
      head to the head's `nextFree`. */
  function Pop(c: Chain): (r: (Slot, Chain))
    requires c.head.To? && c.head.slot in c.next
    ensures To(r.0) == c.head
    ensures r.1.head == c.next[r.0] && r.1.next == c.next
  {
    (c.head.slot, Chain(c.next[c.head.slot], c.next))
  }

  /** Pushing a slot that is not on the list puts it in front of the list. */
  lemma PushWalks(c: Chain, xs: seq<Slot>, h: Slot)
    requires Walks(c, xs) && h !in xs
    ensures Walks(Push(c, h), [h] + xs)
  {
    var ys := [h] + xs;
    var d := Push(c, h);
    forall i | 0 <= i < |ys|
      ensures ys[i] in d.next && d.next[ys[i]] == Successor(ys, i)
    {
      if i > 0 {
        assert ys[i] == xs[i - 1];
      }
    }
  }

  /** Popping a non-empty list hands out its first slot and leaves the rest. */
  lemma PopWalks(c: Chain, xs: seq<Slot>)
    requires Walks(c, xs) && xs != []
    ensures c.head.To? && c.head.slot in c.next
    ensures Pop(c).0 == xs[0] && Walks(Pop(c).1, xs[1..])
  {
    var d := Pop(c).1;
    forall i | 0 <= i < |xs[1..]|
      ensures xs[1..][i] in d.next && d.next[xs[1..][i]] == Successor(xs[1..], i)
    {
      assert xs[1..][i] == xs[i + 1];
    }
  }

  /** `Pools.Free` is `free` on the stored list. */
  lemma FreeIsPush(p: Pool, h: Slot, c: Chain)
    requires Valid(p) && Issued(p, h) && h !in p.freed
    requires Walks(c, p.freed)
    ensures Walks(Push(c, h), Free(p, h).freed)
  {
    PushWalks(c, p.freed, h);
  }

  /** The reuse path of `Pools.Allocate` is the pop of the stored list. */
  lemma AllocateIsPop(p: Pool, c: Chain)
    requires Valid(p) && |p.freed| > 0
    requires Walks(c, p.freed)
    ensures c.head.To? && c.head.slot in c.next
    ensures Pop(c).0 == Allocate(p).slot
    ensures Walks(Pop(c).1, Allocate(p).pool.freed)
  {
    PopWalks(c, p.freed);
  }

  /** A chain whose head lies in a set of slots that each link to another slot of
      the set never reaches null: no finite list is walked from it. */
  lemma {:induction false} ClosedHasNoWalk(d: Chain, cycle: set<Slot>, ys: seq<Slot>)
    requires d.head.To? && d.head.slot in cycle
    requires forall s :: s in cycle ==> s in d.next && d.next[s].To? && d.next[s].slot in cycle
    ensures !Walks(d, ys)
  {
    if Walks(d, ys) {
      assert ys != [];
      var j := 0;
      while j < |ys| - 1
        invariant 0 <= j < |ys|
        invariant ys[j] in cycle
      {
        assert d.next[ys[j]] == To(ys[j + 1]);
        j := j + 1;
      }
      assert false;
    }
  }

  /** Freeing a slot that is already on the list (a double free) overwrites its link
      with the old head: the chain loops through that slot and no longer walks any
      list, so the slots that followed it are lost. */
  lemma {:induction false} DoubleFreeLoops(c: Chain, xs: seq<Slot>, h: Slot, ys: seq<Slot>)
    requires Walks(c, xs) && Distinct(xs) && h in xs
    ensures Push(c, h).next[h] == c.head
    ensures !Walks(Push(c, h), ys)
  {
    var d := Push(c, h);
    var k :| 0 <= k < |xs| && xs[k] == h;
    var cycle := set i | 0 <= i <= k :: xs[i];
    forall s | s in cycle
      ensures s in d.next && d.next[s].To? && d.next[s].slot in cycle
    {
      var i :| 0 <= i <= k && xs[i] == s;
      if i == k {
        assert d.next[s] == To(xs[0]);
      } else {
        assert xs[i] != h;
        assert d.next[s] == To(xs[i + 1]);
      }
    }
    assert xs[k] in cycle;
    ClosedHasNoWalk(d, cycle, ys);
  }

  /** Freeing the same slot twice in a row makes its link point at itself: the list
      below it is lost, and the next two allocations both hand out that same slot,
      so two live handles would share one slot. */
  lemma ImmediateDoubleFree(c: Chain, xs: seq<Slot>, h: Slot, ys: seq<Slot>)
    requires Walks(c, xs) && Distinct(xs) && h !in xs
    ensures Push(Push(c, h), h).next[h] == To(h)
    ensures !Walks(Push(Push(c, h), h), ys)
    ensures Pop(Push(Push(c, h), h)).0 == h
    ensures Pop(Pop(Push(Push(c, h), h)).1).0 == h
  {
    PushWalks(c, xs, h);
    assert Distinct([h] + xs) by {
      forall i, j | 0 <= i < j < |[h] + xs|
        ensures ([h] + xs)[i] != ([h] + xs)[j]
      {
        if i > 0 {
          assert ([h] + xs)[i] == xs[i - 1];
        }
        assert ([h] + xs)[j] == xs[j - 1];
      }
    }
    DoubleFreeLoops(Push(c, h), [h] + xs, h, ys);
  }
}
