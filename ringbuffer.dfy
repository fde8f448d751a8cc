/**
 * SimpleRingBuffer from fwcmatch/src/ringbuffer.h, the single-threaded ring the
 * block pool keeps its free pointers in.
 *
 * The class is modelled as written: size() and capacity() are declared to return
 * bool, so every comparison in empty(), full() and increment() sees 0 or 1 instead
 * of the counters.  A second class, CountingRingBuffer, is the same code with
 * size_t results, which is what the class evidently means; the block pool uses it.
 */
module SimpleRing {

  /** The index step written in increment(): `if(++idx >= capacity()) idx = 0`. */
  function Increment(idx: nat, capacity: nat): (r: nat)
    ensures r == 0 || r == idx + 1
    ensures r < capacity || (capacity == 0 && r == 0)
  {
    if idx + 1 >= capacity then 0 else idx + 1
  }

  /** A bool converted to an integer in a comparison, as C++ does. */
  function BoolToNat(b: bool): nat
  {
    if b then 1 else 0
  }

  /** The ring exactly as written, with bool size() and capacity(). */
  class SimpleRingBuffer<T(0)> {
    const buffer: array<T>
    var head: nat
    var tail: nat
    var size: nat

    /** What the written code can reach: both cursors stay 0 and at most one value is held. */
    ghost predicate Valid()
      reads this
    {
      head == 0 && tail == 0 && size <= 1 && (size == 1 ==> buffer.Length > 0)
    }

    constructor (capacity: nat)
      ensures Valid() && fresh(buffer)
      ensures buffer.Length == capacity && size == 0
    {
      buffer := new T[capacity];
      head, tail, size := 0, 0, 0;
    }

    /** size() as declared: the counter converted to bool. */
    function Size(): (r: bool)
      reads this
      ensures r <==> size > 0
    {
      size != 0
    }

    /** capacity() as declared: the slot count converted to bool. */
    function Capacity(): (r: bool)
      reads this
      ensures r <==> buffer.Length > 0
    {
      buffer.Length != 0
    }

    /** empty() compares 0 with the bool size(), which is 0 exactly when nothing is held. */
    predicate Empty()
      reads this
      ensures Empty() <==> size == 0
    {
      0 == BoolToNat(Size())
    }

    /** full() compares two bools, so a ring with slots is "full" as soon as it holds anything. */
    predicate Full()
      reads this
      ensures buffer.Length > 0 ==> (Full() <==> size > 0)
      ensures buffer.Length == 0 ==> (Full() <==> size == 0)
    {
      Size() == Capacity()
    }

    /** increment() as written compares against the bool capacity, i.e. against 0 or 1. */
    function IncrementAsWritten(idx: nat): (r: nat)
      reads this
      ensures r == 0
    {
      Increment(idx, BoolToNat(Capacity()))
    }

    method Clear()
      modifies this
      ensures head == 0 && tail == 0 && size == 0
      ensures buffer[..] == old(buffer[..])
      ensures Valid()
    {
      head, tail, size := 0, 0, 0;
    }

    method Push(v: T)
      requires Valid()
      requires !Full()
      modifies this, buffer
      ensures Valid()
      ensures buffer[..] == old(buffer[..])[old(tail) := v]
      ensures tail == IncrementAsWritten(old(tail)) && head == old(head)
      ensures size == old(size) + 1
      ensures !Empty() && Top() == v
    {
      buffer[tail] := v;
      tail := IncrementAsWritten(tail);
      size := size + 1;
    }

    method Pop()
      requires Valid()
      requires !Empty()
      modifies this
      ensures Valid()
      ensures head == IncrementAsWritten(old(head)) && tail == old(tail)
      ensures size == old(size) - 1
      ensures buffer[..] == old(buffer[..])
    {
      head := IncrementAsWritten(head);
      size := size - 1;
    }

    function Top(): (r: T)
      reads this, buffer
      requires Valid()
      requires !Empty()
      ensures r == buffer[head] && r == buffer[0]
    {
      buffer[head]
    }
  }

  /**
   * The written ring with two slots is already full after one push, so the second
   * push that a two-block pool performs in reset() fails the assertion.
   */
  method TwoSlotsHoldOne<T(0)>(v: T) returns (fullAfterOne: bool, held: nat)
    ensures fullAfterOne && held == 1
  {
    var ring := new SimpleRingBuffer<T>(2);
    ring.Push(v);
    fullAfterOne := ring.Full();
    held := ring.size;
  }

  /** The counting ring with two slots holds two values and returns them first in, first out. */
  method TwoSlotsHoldTwo<T(0)>(x: T, y: T) returns (fullAfterTwo: bool, first: T, second: T)
    ensures fullAfterTwo && first == x && second == y
  {
    var ring := new CountingRingBuffer<T>(2);
    ring.Push(x);
    ring.Push(y);
    fullAfterTwo := ring.Full();
    first := ring.Top();
    ring.Pop();
    second := ring.Top();
  }

  /** Where a value of slot k of a ring sits, for cursors below 2 * capacity. */
  function Wrap(i: nat, n: nat): (r: nat)
    requires i < 2 * n
    ensures r < n && (r == i || r == i - n)
  {
    if i < n then i else i - n
  }

  /** The n values of a ring stored in s, starting at slot head. */
  function RingSlice<T>(s: seq<T>, head: nat, n: nat): (r: seq<T>)
    requires n <= |s| && (|s| > 0 ==> head < |s|)
    ensures |r| == n
    ensures forall k :: 0 <= k < n ==> r[k] == s[Wrap(head + k, |s|)]
  {
    seq(n, (k: int) requires 0 <= k < n => s[Wrap(head + k, |s|)])
  }

  /** The ring with size() and capacity() returning size_t: a bounded FIFO queue. */
  class CountingRingBuffer<T(0)> {
    const buffer: array<T>
    var head: nat
    var tail: nat
    var size: nat

    ghost predicate Valid()
      reads this
    {
      && size <= buffer.Length
      && (buffer.Length == 0 ==> head == 0 && tail == 0)
      && (buffer.Length > 0 ==> head < buffer.Length && tail == Wrap(head + size, buffer.Length))
    }

    /** The queued values, oldest first. */
    ghost function Contents(): (r: seq<T>)
      reads this, buffer
      requires Valid()
      ensures |r| == size
    {
      RingSlice(buffer[..], head, size)
    }

    constructor (capacity: nat)
      ensures Valid() && fresh(buffer)
      ensures buffer.Length == capacity && Contents() == []
    {
      buffer := new T[capacity];
      head, tail, size := 0, 0, 0;
    }

    function Size(): nat
      reads this
    {
      size
    }

    function Capacity(): nat
      reads this
    {
      buffer.Length
    }

    predicate Empty()
      reads this
    {
      0 == Size()
    }

    predicate Full()
      reads this
    {
      Size() == Capacity()
    }

    method Clear()
      requires Valid()
      modifies this
      ensures Valid() && Contents() == []
      ensures head == 0 && tail == 0
      ensures buffer[..] == old(buffer[..])
    {
      head, tail, size := 0, 0, 0;
    }

    method Push(v: T)
      requires Valid()
      requires !Full()
      modifies this, buffer
      ensures Valid()
      ensures Contents() == old(Contents()) + [v]
      ensures buffer[..] == old(buffer[..])[old(tail) := v]
    {
      ghost var before := Contents();
      buffer[tail] := v;
      tail := Increment(tail, buffer.Length);
      size := size + 1;
      forall k | 0 <= k < |before|
        ensures Contents()[k] == before[k]
      {
        assert Wrap(head + k, buffer.Length) != old(tail);
      }
      assert Contents() == before + [v];
    }

    method Pop()
      requires Valid()
      requires !Empty()
      modifies this
      ensures Valid()
      ensures Contents() == old(Contents())[1..]
      ensures buffer[..] == old(buffer[..])
    {
      head := Increment(head, buffer.Length);
      size := size - 1;
    }

    function Top(): (r: T)
      reads this, buffer
      requires Valid()
      requires !Empty()
      ensures r == Contents()[0]
    {
      buffer[head]
    }
  }
}
