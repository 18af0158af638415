/**
 The physical frame pool that the fault handler allocates from and that the
 table returns frames to. It is a collaborator, kept abstract: a fixed number
 of frames, the set of those in use, and the physical memory behind them.
 */
module Frames {
  import opened Types

  /** The lowest frame index in `[from, capacity)` that is not in use, or
      `None` when every one of them is taken. */
  function LowestFree(inUse: set<Frame>, from: nat, capacity: nat): (r: Option<Frame>)
    decreases capacity - from
    ensures r.Some? ==> from <= r.value < capacity && r.value !in inUse
    ensures r.Some? ==> forall g :: from <= g < r.value ==> g in inUse
    ensures r.None? ==> forall g :: from <= g < capacity ==> g in inUse
  {
    if from >= capacity then None
    else if from !in inUse then Some(from)
    else LowestFree(inUse, from + 1, capacity)
  }

  /** Index of the first byte of frame `f` in physical memory (its kva). */
  function Base(f: Frame): nat
  {
    f * PGSIZE
  }

  /** The bytes of memory belonging to a frame are exactly those whose index
      divided by the page size is that frame. */
  lemma BaseOwnsPage(f: Frame, k: nat)
    ensures Base(f) <= k < Base(f) + PGSIZE <==> k / PGSIZE == f
  {
  }

  class FramePool {
    /** Number of frames the pool manages. */
    const capacity: nat
    /** Physical memory: frame `f` occupies `mem[Base(f) .. Base(f) + PGSIZE]`. */
    const mem: array<byte>
    /** Frames currently handed out. */
    var inUse: set<Frame>

    ghost predicate Valid()
      reads this
    {
      mem.Length == capacity * PGSIZE &&
      forall f :: f in inUse ==> f < capacity
    }

    constructor (capacity: nat)
      ensures Valid() && fresh(mem)
      ensures this.capacity == capacity && inUse == {}
    {
      this.capacity := capacity;
      mem := new byte[capacity * PGSIZE];
      inUse := {};
    }

    /** The frame the next allocation hands out, if any. */
    function NextFree(): Option<Frame>
      reads this
    {
      LowestFree(inUse, 0, capacity)
    }

    /** `allocate_frame`: hands out a frame not in use, or reports exhaustion.
        (vm/frame.c panics on exhaustion; here exhaustion is returned so that
        the caller's NULL check is meaningful.) */
    method Allocate() returns (f: Option<Frame>)
      requires Valid()
      modifies this
      ensures Valid()
      ensures f == old(NextFree())
      ensures f.Some? ==> f.value < capacity && f.value !in old(inUse)
      ensures f.None? ==> forall g :: 0 <= g < capacity ==> g in inUse
      ensures inUse == if f.Some? then old(inUse) + {f.value} else old(inUse)
    {
      var i := 0;
      while i < capacity
        invariant i <= capacity
        invariant LowestFree(inUse, 0, capacity) == LowestFree(inUse, i, capacity)
      {
        if i !in inUse {
          inUse := inUse + {i};
          return Some(i);
        }
        i := i + 1;
      }
      return None;
    }

    /** `palloc_free_page` on a frame: the frame must be in use. */
    method Free(f: Frame)
      requires Valid() && f in inUse
      modifies this
      ensures Valid()
      ensures inUse == old(inUse) - {f}
    {
      inUse := inUse - {f};
    }
  }
}
