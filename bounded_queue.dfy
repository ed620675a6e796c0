/**
 * The bounded single-producer single-consumer queue: a circular buffer of
 * `capacity` slots with two cursors, `first` (the next slot to pop) and
 * `nextWrite` (the next slot to push into). One slot always stays unused, so
 * equal cursors mean "empty" and a `nextWrite` one step behind `first` means
 * "full". Every operation is modelled as one sequential step; the atomic
 * loads and stores and their memory ordering are not part of the model.
 */
module BoundedQueue {

  /** The buffer size the default constructor uses. */
  const DefaultCapacity: int := 16

  /** The cyclic successor of a cursor in a buffer of `capacity` slots. */
  function Advance(index: int, capacity: int): (r: int)
    ensures 0 <= index < capacity ==> 0 <= r < capacity && r == (index + 1) % capacity
  {
    if index + 1 < capacity then index + 1 else 0
  }

  /** A cursor value allowed in a buffer of `capacity` slots. */
  predicate InBuffer(index: int, capacity: int)
  {
    0 <= index < capacity || index == 0 == capacity
  }

  /**
   * The elements held between the cursors `first` (inclusive) and `next`
   * (exclusive), wrapping around the end of the buffer.
   */
  ghost function Window<V>(buf: seq<V>, first: int, next: int): seq<V>
    requires InBuffer(first, |buf|) && InBuffer(next, |buf|)
  {
    if first <= next then buf[first..next] else buf[first..] + buf[..next]
  }

  /** The number of queued elements is the cursor distance modulo the buffer size, at most one less than the buffer size. */
  lemma WindowLength<V>(buf: seq<V>, first: int, next: int)
    requires 0 <= first < |buf| && 0 <= next < |buf|
    ensures |Window(buf, first, next)| == (next - first) % |buf|
    ensures |Window(buf, first, next)| <= |buf| - 1
  {
    var n := |buf|;
    if first <= next {
      assert (next - first) % n == next - first;
    } else {
      assert next - first + n == (next - first) % n by {
        assert 0 <= next - first + n < n;
      }
    }
  }

  /** Equal cursors and only equal cursors delimit an empty window. */
  lemma WindowEmpty<V>(buf: seq<V>, first: int, next: int)
    requires InBuffer(first, |buf|) && InBuffer(next, |buf|)
    ensures Window(buf, first, next) == [] <==> first == next
  {
    if first > next {
      assert |Window(buf, first, next)| == |buf| - first + next;
    }
  }

  /** The window is full exactly when advancing `next` would reach `first`. */
  lemma WindowFull<V>(buf: seq<V>, first: int, next: int)
    requires 0 <= first < |buf| && 0 <= next < |buf|
    ensures |Window(buf, first, next)| == |buf| - 1 <==> Advance(next, |buf|) == first
  {
    WindowLength(buf, first, next);
  }

  /** Writing a value at `next` and advancing `next` appends that value to the window. */
  lemma WindowPush<V>(buf: seq<V>, first: int, next: int, v: V)
    requires 0 <= first < |buf| && 0 <= next < |buf|
    requires Advance(next, |buf|) != first
    ensures Window(buf[next := v], first, Advance(next, |buf|)) == Window(buf, first, next) + [v]
  {
    var b := buf[next := v];
    var n' := Advance(next, |buf|);
    if first <= next {
      if n' == 0 {
        assert first > 0;
        calc {
          Window(b, first, n');
          b[first..] + b[..0];
          { assert b[..0] == []; }
          b[first..];
          { assert b[first..] == buf[first..next] + [v]; }
          buf[first..next] + [v];
        }
      } else {
        assert b[first..n'] == buf[first..next] + [v];
      }
    } else {
      assert n' == next + 1 < first;
      assert b[first..] == buf[first..];
      assert b[..n'] == buf[..next] + [v];
    }
  }

  /** Advancing `first` over a non-empty window removes its head, which is the element at `first`. */
  lemma WindowPop<V>(buf: seq<V>, first: int, next: int)
    requires 0 <= first < |buf| && 0 <= next < |buf|
    requires first != next
    ensures Window(buf, first, next) != [] && Window(buf, first, next)[0] == buf[first]
    ensures Window(buf, Advance(first, |buf|), next) == Window(buf, first, next)[1..]
  {
    var f' := Advance(first, |buf|);
    if first < next {
      assert buf[first..next][1..] == buf[f'..next];
    } else if f' == 0 {
      assert buf[first..] == [buf[first]];
      assert Window(buf, first, next) == [buf[first]] + buf[..next];
      assert Window(buf, f', next) == buf[..next];
    } else {
      assert (buf[first..] + buf[..next])[1..] == buf[f'..] + buf[..next];
    }
  }

  /**
   * What the source's Push hands back to its caller: on the success path the
   * function ends without a return statement, so no value is returned at all.
   */
  datatype Returned = Value(b: bool) | FellOffEnd

  /** Push as written: `false` when full, and no return value otherwise. */
  function PushReturnAsWritten(first: int, nextWrite: int, capacity: int): (r: Returned)
    requires InBuffer(first, capacity) && InBuffer(nextWrite, capacity)
    ensures r == Value(false) <==> first == Advance(nextWrite, capacity)
    ensures r != Value(true)
  {
    if first == Advance(nextWrite, capacity) then Value(false) else FellOffEnd
  }

  /** On a fresh queue of the default size the first push, which must succeed, returns no value. */
  lemma PushAsWrittenOmitsTrue()
    ensures PushReturnAsWritten(0, 0, DefaultCapacity) == FellOffEnd
  {
  }

  class Queue<V(0)> {
    /** The buffer size; the usable capacity is one less. */
    const capacity: int
    /** The circular buffer. */
    const data: array<V>
    /** The slot of the first queued element. */
    var first: int
    /** The slot one past the last queued element. */
    var nextWrite: int

    ghost predicate Valid()
      reads this
    {
      data.Length == capacity && InBuffer(first, capacity) && InBuffer(nextWrite, capacity)
    }

    /** The queued elements, oldest first. */
    ghost function Contents(): seq<V>
      reads this, data
      requires Valid()
    {
      Window(data[..], first, nextWrite)
    }

    /** A queue over a buffer of `DefaultCapacity` slots. */
    constructor Default()
      ensures Valid() && fresh(data)
      ensures capacity == DefaultCapacity && first == 0 && nextWrite == 0
      ensures Contents() == []
    {
      capacity := DefaultCapacity;
      data := new V[DefaultCapacity];
      first, nextWrite := 0, 0;
    }

    /** A queue over a buffer of `capacity` slots; a negative size is not a valid array size. */
    constructor (capacity: int)
      requires capacity >= 0
      ensures Valid() && fresh(data)
      ensures this.capacity == capacity && first == 0 && nextWrite == 0
      ensures Contents() == []
    {
      this.capacity := capacity;
      data := new V[capacity];
      first, nextWrite := 0, 0;
    }

    /** The usable capacity: one less than the buffer size, and never exceeded by the contents. */
    function GetCapacity(): (r: int)
      reads this, data
      requires Valid()
      ensures r == capacity - 1
      ensures capacity > 0 ==> |Contents()| <= r
    {
      if capacity > 0 then WindowLength(data[..], first, nextWrite); capacity - 1
      else capacity - 1
    }

    function IsEmpty(): (r: bool)
      reads this, data
      requires Valid()
      ensures r <==> Contents() == []
    {
      WindowEmpty(data[..], first, nextWrite);
      first == nextWrite
    }

    function IsFull(): (r: bool)
      reads this, data
      requires Valid()
      ensures r <==> capacity == 0 || |Contents()| == GetCapacity()
    {
      if capacity > 0 then WindowFull(data[..], first, nextWrite); first == Advance(nextWrite, capacity)
      else first == Advance(nextWrite, capacity)
    }

    /**
     * Push as intended: fails on a full queue and changes nothing; otherwise
     * stores `value` in slot `nextWrite`, advances `nextWrite` and returns true.
     */
    method Push(value: V) returns (ok: bool)
      requires Valid()
      modifies this, data
      ensures Valid() && first == old(first)
      ensures ok <==> !old(IsFull())
      ensures ok ==> nextWrite == Advance(old(nextWrite), capacity)
      ensures ok ==> data[..] == old(data[..])[old(nextWrite) := value]
      ensures ok ==> Contents() == old(Contents()) + [value]
      ensures !ok ==> nextWrite == old(nextWrite) && data[..] == old(data[..])
    {
      var next := Advance(nextWrite, capacity);
      if first == next {
        return false;
      }
      WindowPush(data[..], first, nextWrite, value);
      data[nextWrite] := value;
      nextWrite := next;
      return true;
    }

    /**
     * Fails on an empty queue, handing back `value` unchanged; otherwise
     * hands back the element at `first` and advances `first`.
     */
    method Pop(value: V) returns (ok: bool, out: V)
      requires Valid()
      modifies this
      ensures Valid() && nextWrite == old(nextWrite)
      ensures ok <==> old(Contents()) != []
      ensures ok ==> out == old(Contents())[0] && out == data[old(first)]
      ensures ok ==> first == Advance(old(first), capacity) && Contents() == old(Contents())[1..]
      ensures !ok ==> out == value && first == old(first)
    {
      WindowEmpty(data[..], first, nextWrite);
      if first == nextWrite {
        return false, value;
      }
      WindowPop(data[..], first, nextWrite);
      out := data[first];
      first := Advance(first, capacity);
      ok := true;
    }
  }
}
