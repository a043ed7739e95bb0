/**
 * The on-chip tensor queue the kernel declares as `TQue<QuePosition::VECIN, BUFFER_NUM>` and
 * `TQue<QuePosition::VECOUT, BUFFER_NUM>` (gelu_custom.cpp:8-9), reduced to what the kernel
 * relies on: `depth` slots of `capacity` elements each, and the slot lifecycle
 * alloc -> enqueue -> dequeue -> free in first-in first-out order.
 *
 * A slot is in one of three states while it is out of the free pool: held by its producer
 * (allocated, not yet enqueued), ready (enqueued, waiting for the consumer), or held by its
 * consumer (dequeued, not yet freed). A ready slot carries the tensor written into it.
 */
module SlotQueue {
  import opened Arith

  class TQue<T> {
    /** Number of slots (`BUFFER_NUM`). */
    const depth: nat
    /** Elements one slot holds. */
    const capacity: nat

    /** Slots allocated by the producer and not yet enqueued. */
    var producing: nat
    /** Enqueued tensors, oldest first. */
    var ready: seq<seq<T>>
    /** Slots dequeued by the consumer and not yet freed. */
    var consuming: nat

    /** Number of allocations and frees so far, and the largest occupancy ever reached. */
    ghost var allocs: nat
    ghost var frees: nat
    ghost var peak: nat

    /** Slots currently out of the free pool. */
    function Occupancy(): nat
      reads this
    {
      producing + |ready| + consuming
    }

    ghost predicate Valid()
      reads this
    {
      && Occupancy() <= peak <= depth
      && allocs == frees + Occupancy()
      && forall j | 0 <= j < |ready| :: |ready[j]| <= capacity
    }

    /** `pipe.InitBuffer(queue, num, len)`: `num` free slots of `len` elements. */
    constructor InitBuffer(num: nat, len: nat)
      ensures Valid()
      ensures depth == num && capacity == len
      ensures producing == 0 && ready == [] && consuming == 0
      ensures allocs == 0 && frees == 0 && peak == 0
    {
      depth, capacity := num, len;
      producing, ready, consuming := 0, [], 0;
      allocs, frees, peak := 0, 0, 0;
    }

    /**
     * `AllocTensor`: takes a free slot for the producer. With every slot taken the
     * hardware would stall the core until the consumer frees one; on a single core that
     * consumer is the caller itself, so callers must never allocate from a full queue.
     */
    method AllocTensor()
      requires Valid() && Occupancy() < depth
      modifies this
      ensures Valid()
      ensures producing == old(producing) + 1 && ready == old(ready) && consuming == old(consuming)
      ensures allocs == old(allocs) + 1 && frees == old(frees)
      ensures peak == MaxNat(old(peak), Occupancy())
    {
      producing := producing + 1;
      allocs := allocs + 1;
      peak := MaxNat(peak, Occupancy());
    }

    /** `EnQue`: hands a filled slot to the consumer; the tensor must fit the slot. */
    method EnQue(t: seq<T>)
      requires Valid() && producing >= 1 && |t| <= capacity
      modifies this
      ensures Valid()
      ensures producing == old(producing) - 1 && ready == old(ready) + [t] && consuming == old(consuming)
      ensures allocs == old(allocs) && frees == old(frees) && peak == old(peak)
    {
      producing := producing - 1;
      ready := ready + [t];
    }

    /** `DeQue`: the consumer takes the oldest ready slot. */
    method DeQue() returns (t: seq<T>)
      requires Valid() && ready != []
      modifies this
      ensures Valid()
      ensures t == old(ready)[0] && |t| <= capacity
      ensures producing == old(producing) && ready == old(ready)[1..] && consuming == old(consuming) + 1
      ensures allocs == old(allocs) && frees == old(frees) && peak == old(peak)
    {
      t := ready[0];
      ready := ready[1..];
      consuming := consuming + 1;
    }

    /** `FreeTensor`: the consumer returns a dequeued slot to the free pool. */
    method FreeTensor()
      requires Valid() && consuming >= 1
      modifies this
      ensures Valid()
      ensures producing == old(producing) && ready == old(ready) && consuming == old(consuming) - 1
      ensures allocs == old(allocs) && frees == old(frees) + 1 && peak == old(peak)
    {
      consuming := consuming - 1;
      frees := frees + 1;
    }
  }
}
