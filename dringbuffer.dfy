/**
 * DRingBuffer from fwcmatch/src/dringbuffer.h: a ring for one producer and several
 * consumers after the LMAX Disruptor.  The producer reserves slot `tail` and then
 * publishes it; a consumer claims slot `fhead` and later releases it.  The committed
 * read cursor `head` is kept one below the smallest active consumer cursor, so a
 * claimed slot cannot be handed to the producer before its consumer commits.
 *
 * The cursors are uint64_t in the source; here they are naturals that stay below
 * NULL_POS, the all-ones value that marks an idle consumer.
 */
module DisruptorRing {
  import opened Arith

  const NULL_POS: nat := 0xFFFF_FFFF_FFFF_FFFF

  class DRingBuffer<T(0)> {
    const buffer: array<T>
    /** _consumerHeads: per consumer, one past the slot it claimed, or NULL_POS when idle. */
    const consumerHeads: array<nat>
    var head: nat
    var fhead: nat
    var tail: nat

    predicate Active(id: nat)
      reads consumerHeads
      requires id < consumerHeads.Length
    {
      consumerHeads[id] != NULL_POS
    }

    /** The protocol invariant: every active consumer cursor lies in (head, fhead], and no two are equal. */
    ghost predicate Valid()
      reads this, consumerHeads
    {
      && buffer.Length > 1
      && consumerHeads.Length > 0
      && buffer != consumerHeads
      && head <= fhead <= tail < NULL_POS
      && tail - head <= buffer.Length
      && (forall i :: 0 <= i < consumerHeads.Length ==>
            consumerHeads[i] == NULL_POS || head < consumerHeads[i] <= fhead)
      && (forall i, j :: 0 <= i < j < consumerHeads.Length && consumerHeads[i] != NULL_POS ==>
            consumerHeads[i] != consumerHeads[j])
    }

    constructor (capacity: nat, maxConsumers: nat)
      requires capacity > 1
      requires maxConsumers > 0
      ensures Valid() && fresh(buffer) && fresh(consumerHeads)
      ensures buffer.Length == capacity && consumerHeads.Length == maxConsumers
      ensures head == 0 && fhead == 0 && tail == 0
      ensures forall i :: 0 <= i < maxConsumers ==> consumerHeads[i] == NULL_POS
    {
      buffer := new T[capacity];
      consumerHeads := new nat[maxConsumers](_ => NULL_POS);
      head, fhead, tail := 0, 0, 0;
    }

    function Capacity(): nat
      reads this
    {
      buffer.Length
    }

    /** size() counts from the committed head, so it includes claimed but uncommitted slots. */
    function Size(): (r: nat)
      reads this, consumerHeads
      requires Valid()
      ensures r <= Capacity()
    {
      tail - head
    }

    /** empty() compares with the claim cursor: nothing is left to claim. */
    predicate Empty()
      reads this
    {
      fhead == tail
    }

    predicate Full()
      reads this, consumerHeads
      requires Valid()
    {
      Size() == Capacity()
    }

    /** at(idx): the slot a cursor position maps to. */
    function At(idx: nat): (slot: nat)
      reads this
      requires buffer.Length > 0
      ensures slot < buffer.Length
    {
      idx % buffer.Length
    }

    /** The slot an active consumer has claimed. */
    function ClaimedSlot(id: nat): (slot: nat)
      reads this, consumerHeads
      requires Valid()
      requires id < consumerHeads.Length && Active(id)
      ensures slot < buffer.Length
    {
      At(consumerHeads[id] - 1)
    }

    method Reset()
      requires Valid()
      modifies this, consumerHeads
      ensures Valid()
      ensures head == 0 && fhead == 0 && tail == 0
      ensures forall i :: 0 <= i < consumerHeads.Length ==> consumerHeads[i] == NULL_POS
      ensures buffer[..] == old(buffer[..])
    {
      head, fhead, tail := 0, 0, 0;
      forall i | 0 <= i < consumerHeads.Length {
        consumerHeads[i] := NULL_POS;
      }
    }

    /**
     * enqueuePrepare() hands the producer slot tail mod capacity, which is never a
     * slot an active consumer has claimed and not yet committed.
     */
    method EnqueuePrepare() returns (slot: nat)
      requires Valid()
      requires !Full()
      ensures slot == tail % buffer.Length
      ensures forall id :: 0 <= id < consumerHeads.Length && Active(id) ==> slot != ClaimedSlot(id)
    {
      slot := At(tail);
      forall id | 0 <= id < consumerHeads.Length && Active(id)
        ensures slot != ClaimedSlot(id)
      {
        ModDistinct(consumerHeads[id] - 1, tail, buffer.Length);
      }
    }

    /** enqueueCommit() publishes the prepared slot; it follows an enqueuePrepare, so the ring is not full. */
    method EnqueueCommit()
      requires Valid()
      requires !Full()
      requires tail + 1 < NULL_POS
      modifies this
      ensures Valid()
      ensures tail == old(tail) + 1 && head == old(head) && fhead == old(fhead)
    {
      tail := tail + 1;
    }

    method DequeuePrepare(consumerId: nat) returns (slot: nat)
      requires Valid()
      requires consumerId < consumerHeads.Length
      requires !Active(consumerId)
      requires !Empty()
      modifies this, consumerHeads
      ensures Valid()
      ensures slot == old(fhead) % buffer.Length
      ensures fhead == old(fhead) + 1 && head == old(head) && tail == old(tail)
      ensures consumerHeads[..] == old(consumerHeads[..])[consumerId := fhead]
      ensures Active(consumerId) && ClaimedSlot(consumerId) == slot
    {
      slot := At(fhead);
      fhead := fhead + 1;
      consumerHeads[consumerId] := fhead;
    }

    /**
     * minConsumerPos(): the least cursor, folding std::min from NULL_POS.  It is
     * NULL_POS exactly when no consumer is active.
     */
    method MinConsumerPos() returns (minPos: nat)
      ensures minPos <= NULL_POS
      ensures forall i :: 0 <= i < consumerHeads.Length ==> minPos <= consumerHeads[i]
      ensures minPos == NULL_POS || exists i :: 0 <= i < consumerHeads.Length && consumerHeads[i] == minPos
      ensures minPos == NULL_POS <==> forall i :: 0 <= i < consumerHeads.Length ==> consumerHeads[i] >= NULL_POS
    {
      minPos := NULL_POS;
      for k := 0 to consumerHeads.Length
        invariant minPos <= NULL_POS
        invariant forall i :: 0 <= i < k ==> minPos <= consumerHeads[i]
        invariant minPos == NULL_POS || exists i :: 0 <= i < k && consumerHeads[i] == minPos
      {
        if consumerHeads[k] < minPos {
          minPos := consumerHeads[k];
        }
      }
    }

    /**
     * dequeueCommit(id) releases the consumer's slot and moves head to one below the
     * least remaining active cursor, or to fhead when none is left; head never decreases.
     */
    method DequeueCommit(consumerId: nat)
      requires Valid()
      requires consumerId < consumerHeads.Length
      requires Active(consumerId)
      modifies this, consumerHeads
      ensures Valid()
      ensures consumerHeads[..] == old(consumerHeads[..])[consumerId := NULL_POS]
      ensures fhead == old(fhead) && tail == old(tail)
      ensures old(head) <= head <= fhead
      ensures (forall i :: 0 <= i < consumerHeads.Length ==> consumerHeads[i] == NULL_POS) ==> head == fhead
      ensures (exists i :: 0 <= i < consumerHeads.Length && Active(i)) ==>
                (exists i :: 0 <= i < consumerHeads.Length && Active(i) && consumerHeads[i] == head + 1)
                && (forall i :: 0 <= i < consumerHeads.Length && Active(i) ==> head < consumerHeads[i])
    {
      consumerHeads[consumerId] := NULL_POS;
      var minPos := MinConsumerPos();
      assert NULL_POS == minPos || minPos > head;
      head := if NULL_POS == minPos then fhead else minPos - 1;
    }

    /** apply(func): replace every stored value by func of it. */
    method Apply(func: T -> T)
      modifies buffer
      ensures forall i :: 0 <= i < buffer.Length ==> buffer[i] == func(old(buffer[i]))
    {
      for k := 0 to buffer.Length
        invariant forall i :: 0 <= i < k ==> buffer[i] == func(old(buffer[i]))
        invariant forall i :: k <= i < buffer.Length ==> buffer[i] == old(buffer[i])
      {
        buffer[k] := func(buffer[k]);
      }
    }
  }

  /**
   * The occupancy queries on a valid ring: it has at least two slots; size() counts
   * from the committed head and empty() from the claim cursor, so the ring is empty
   * exactly when every value size() counts has been claimed, a ring holding nothing
   * is empty, and it is full and empty at once only when every slot is claimed but
   * not yet committed.
   */
  lemma OccupancyQueries<T(0)>(r: DRingBuffer<T>)
    requires r.Valid()
    ensures r.Capacity() > 1
    ensures r.Empty() <==> r.Size() == r.fhead - r.head
    ensures r.Size() == 0 ==> r.Empty()
    ensures r.Full() && r.Empty() ==> r.fhead - r.head == r.Capacity()
    ensures r.Full() <==> r.tail - r.head == r.Capacity()
  {
  }

  /** Two active consumers never hold the same slot. */
  lemma ClaimsDisjoint<T(0)>(r: DRingBuffer<T>, i: nat, j: nat)
    requires r.Valid()
    requires i < r.consumerHeads.Length && j < r.consumerHeads.Length && i != j
    requires r.Active(i) && r.Active(j)
    ensures r.ClaimedSlot(i) != r.ClaimedSlot(j)
  {
    var a, b := r.consumerHeads[i] - 1, r.consumerHeads[j] - 1;
    if a < b {
      ModDistinct(a, b, r.buffer.Length);
    } else {
      assert a != b by {
        if i < j { assert r.consumerHeads[i] != r.consumerHeads[j]; }
        else { assert r.consumerHeads[j] != r.consumerHeads[i]; }
      }
      ModDistinct(b, a, r.buffer.Length);
    }
  }

  /**
   * After one published item is claimed, empty() already holds while size() is still 1:
   * the slot is claimed but not committed.
   */
  method ClaimedButUncommitted() returns (empty: bool, size: nat, emptyAfterCommit: bool, sizeAfterCommit: nat)
    ensures empty && size == 1
    ensures emptyAfterCommit && sizeAfterCommit == 0
  {
    var ring := new DRingBuffer<int>(2, 1);
    var slot := ring.EnqueuePrepare();
    ring.buffer[slot] := 7;
    ring.EnqueueCommit();
    slot := ring.DequeuePrepare(0);
    empty, size := ring.Empty(), ring.Size();
    ring.DequeueCommit(0);
    emptyAfterCommit, sizeAfterCommit := ring.Empty(), ring.Size();
  }
}
