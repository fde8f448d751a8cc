/**
 * WFSimpleRingBuffer from fwcmatch/src/wfringbuffer.h: the single-producer /
 * single-consumer ring.  The atomic head and tail are plain fields here; the
 * model describes one thread's sequential view of push, pop and clear.
 */
module WaitFreeRing {
  import opened SimpleRing

  class WFSimpleRingBuffer<T(0)> {
    const buffer: array<T>
    /** _capacity: one slot more than the constructor argument. */
    const slots: nat
    var head: nat
    var tail: nat

    ghost predicate Valid()
      reads this
    {
      buffer.Length == slots && slots > 0 && head < slots && tail < slots
    }

    /** Number of pushed values not yet popped. */
    function Occupancy(): (r: nat)
      reads this
      requires Valid()
      ensures r < slots
      ensures r == 0 <==> head == tail
    {
      if head <= tail then tail - head else tail + slots - head
    }

    /** The queued values, oldest first. */
    ghost function Contents(): (r: seq<T>)
      reads this, buffer
      requires Valid()
      ensures |r| == Occupancy()
    {
      RingSlice(buffer[..], head, Occupancy())
    }

    constructor (capacity: nat)
      ensures Valid() && fresh(buffer)
      ensures slots == capacity + 1 && Contents() == []
    {
      buffer := new T[capacity + 1];
      slots := capacity + 1;
      head, tail := 0, 0;
    }

    /** capacity(): the number of slots, one more than the constructor argument. */
    function Capacity(): (r: nat)
      reads this
      requires Valid()
      ensures r == buffer.Length && r > Occupancy()
    {
      buffer.Length
    }

    function Increment(idx: nat): (r: nat)
      reads this
      requires Valid()
      requires idx < slots
      ensures r < slots
      ensures r == if idx + 1 == slots then 0 else idx + 1
    {
      (idx + 1) % slots
    }

    /** push() stores at tail unless advancing tail would meet head. */
    method Push(v: T) returns (ok: bool)
      requires Valid()
      modifies this, buffer
      ensures Valid()
      ensures ok <==> old(Occupancy()) < slots - 1
      ensures ok <==> old(Increment(tail)) != old(head)
      ensures ok ==> Contents() == old(Contents()) + [v]
      ensures ok ==> buffer[..] == old(buffer[..])[old(tail) := v] && tail == old(Increment(tail))
      ensures !ok ==> buffer[..] == old(buffer[..]) && tail == old(tail)
      ensures head == old(head)
    {
      var nextTail := Increment(tail);
      if nextTail != head {
        ghost var before := Contents();
        buffer[tail] := v;
        tail := nextTail;
        forall k | 0 <= k < |before|
          ensures Contents()[k] == before[k]
        {
          assert Wrap(head + k, slots) != old(tail);
        }
        assert Contents() == before + [v];
        return true;
      }
      return false;
    }

    /** pop(v) reads the oldest value into v; on an empty ring v keeps its value. */
    method Pop(v: T) returns (ok: bool, out: T)
      requires Valid()
      modifies this
      ensures Valid()
      ensures ok <==> old(head) != old(tail)
      ensures ok ==> out == old(Contents())[0] && out == buffer[old(head)]
      ensures ok ==> Contents() == old(Contents())[1..] && head == old(Increment(head))
      ensures !ok ==> out == v && head == old(head)
      ensures tail == old(tail) && buffer[..] == old(buffer[..])
    {
      out := v;
      if head != tail {
        out := buffer[head];
        head := Increment(head);
        return true, out;
      }
      return false, out;
    }

    /** clear() empties the ring; the stored values stay in place. */
    method Clear()
      requires Valid()
      modifies this
      ensures Valid() && Contents() == []
      ensures head == 0 && tail == 0
      ensures buffer[..] == old(buffer[..])
    {
      head := 0;
      tail := 0;
    }
  }

  /** The first n naturals in order: the values a test pushes. */
  function Iota(n: nat): (r: seq<nat>)
    ensures |r| == n && forall k :: 0 <= k < n ==> r[k] == k
  {
    if n == 0 then [] else Iota(n - 1) + [n - 1]
  }

  /**
   * A ring built for `capacity` values accepts exactly that many pushes before the
   * first refusal, and gives them back in the order they were pushed.
   */
  method FillThenDrain(capacity: nat) returns (accepted: nat, drained: seq<nat>)
    ensures accepted == capacity
    ensures drained == Iota(capacity)
  {
    var ring := new WFSimpleRingBuffer<nat>(capacity);
    accepted := Fill(ring, capacity);
    drained := Drain(ring);
  }

  /** Push 0, 1, 2, ... into an empty ring until a push is refused. */
  method Fill(ring: WFSimpleRingBuffer<nat>, capacity: nat) returns (accepted: nat)
    requires ring.Valid() && ring.slots == capacity + 1 && ring.Contents() == []
    modifies ring, ring.buffer
    ensures ring.Valid() && accepted == capacity && ring.Contents() == Iota(capacity)
  {
    accepted := 0;
    var ok := true;
    while ok
      invariant ring.Valid()
      invariant accepted <= capacity
      invariant ring.Contents() == Iota(accepted)
      invariant !ok ==> accepted == capacity
      decreases capacity - accepted + (if ok then 1 else 0)
    {
      ok := ring.Push(accepted);
      if ok {
        accepted := accepted + 1;
      }
    }
  }

  /** Pop until the ring reports empty: the values come out oldest first. */
  method Drain(ring: WFSimpleRingBuffer<nat>) returns (drained: seq<nat>)
    requires ring.Valid()
    modifies ring
    ensures ring.Valid() && ring.Contents() == [] && drained == old(ring.Contents())
  {
    ghost var all := ring.Contents();
    drained := [];
    var more := true;
    var v: nat := 0;
    while more
      invariant ring.Valid()
      invariant drained + ring.Contents() == all
      invariant !more ==> ring.Contents() == []
      decreases ring.Occupancy() + (if more then 1 else 0)
    {
      ghost var rest := ring.Contents();
      more, v := ring.Pop(v);
      if more {
        assert rest == [v] + rest[1..];
        assert (drained + [v]) + rest[1..] == drained + ([v] + rest[1..]);
        drained := drained + [v];
      }
    }
  }
}
