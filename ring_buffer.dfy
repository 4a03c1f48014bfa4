/**
 * The fixed-capacity ring buffer of src/lists/ring_buffer.rs.
 *
 * A preallocated buffer and two counters that only grow: `write` counts the
 * successful pushes, `read` the successful gets, and slot `k % capacity`
 * holds the `k`-th pushed value while it is queued. The counters are unbounded here.
 */
module RingBuffers {
  import opened Prelude

  /** The capacity `new()` allocates. */
  const DefaultCapacity: nat := 10

  /** The errors of `StateError`. */
  datatype StateError = Empty | Full

  /** The `count` values a buffer holds from counter `from` on, oldest first. */
  function Window<T>(buffer: seq<T>, from: nat, count: nat): (w: seq<T>)
    requires count <= |buffer|
    ensures |w| == count
    decreases count
  {
    if count == 0 then [] else [buffer[from % |buffer|]] + Window(buffer, from + 1, count - 1)
  }

  /** The `k`-th value of a window sits in slot `(from + k) % capacity`. */
  lemma {:induction false} WindowAt<T>(buffer: seq<T>, from: nat, count: nat, k: nat)
    requires count <= |buffer| && k < count
    ensures Window(buffer, from, count)[k] == buffer[(from + k) % |buffer|]
    decreases count
  {
    if k > 0 {
      WindowAt(buffer, from + 1, count - 1, k - 1);
    }
  }

  lemma MulMonotone(x: int, y: int, m: nat)
    requires x <= y
    ensures x * m <= y * m
  {
  }

  /** Two counters less than `m` apart never share a slot. */
  lemma SlotsDiffer(a: nat, b: nat, m: nat)
    requires a < b < a + m
    ensures a % m != b % m
  {
    var qa, qb := a / m, b / m;
    assert a == qa * m + a % m;
    assert b == qb * m + b % m;
    if qb <= qa {
      MulMonotone(qb, qa, m);
    } else {
      MulMonotone(qa + 1, qb, m);
    }
  }

  /**
   * Writing slot `write % |buffer|` of a buffer that is not full appends to
   * its window and leaves the queued values in place.
   */
  lemma {:induction false} WindowAfterWrite<T>(buffer: seq<T>, read: nat, write: nat, v: T)
    requires read <= write < read + |buffer|
    ensures Window(buffer[write % |buffer| := v], read, write - read + 1)
         == Window(buffer, read, write - read) + [v]
    decreases write - read
  {
    var written := buffer[write % |buffer| := v];
    if read < write {
      SlotsDiffer(read, write, |buffer|);
      WindowAfterWrite(buffer, read + 1, write, v);
      assert Window(written, read, write - read + 1)
          == [buffer[read % |buffer|]] + (Window(buffer, read + 1, write - read - 1) + [v]);
    }
  }

  /** Reading the oldest value shifts the window by one. */
  lemma WindowAfterRead<T>(buffer: seq<T>, read: nat, count: nat)
    requires 0 < count <= |buffer|
    ensures Window(buffer, read, count)[0] == buffer[read % |buffer|]
    ensures Window(buffer, read + 1, count - 1) == Window(buffer, read, count)[1..]
  {
  }

  class RingBuffer<T> {
    var buffer: array<T>
    var read: nat
    var write: nat

    /** The queued values, oldest first. */
    ghost var Contents: seq<T>

    /** Between zero and capacity values are queued, and they sit in the slots from `read` on. */
    ghost predicate Valid()
      reads this, buffer
    {
      read <= write <= read + buffer.Length &&
      Contents == Window(buffer[..], read, write - read)
    }

    /** `new()`: capacity 10, every slot holding the default value. */
    constructor New(default: T)
      ensures Valid() && fresh(buffer)
      ensures buffer.Length == DefaultCapacity && read == 0 && write == 0
      ensures buffer[..] == seq(DefaultCapacity, _ => default)
      ensures Contents == []
    {
      buffer := new T[DefaultCapacity](_ => default);
      read := 0;
      write := 0;
      Contents := [];
    }

    /** `new_with_cap(cap)`: capacity `cap`, every slot holding the default value. */
    constructor NewWithCap(cap: nat, default: T)
      ensures Valid() && fresh(buffer)
      ensures buffer.Length == cap && read == 0 && write == 0
      ensures buffer[..] == seq(cap, _ => default)
      ensures Contents == []
    {
      buffer := new T[cap](_ => default);
      read := 0;
      write := 0;
      Contents := [];
    }

    predicate IsFull()
      requires Valid()
      reads this, buffer
      ensures IsFull() <==> |Contents| == buffer.Length
    {
      write - read == buffer.Length
    }

    predicate IsEmpty()
      requires Valid()
      reads this, buffer
      ensures IsEmpty() <==> Contents == []
    {
      write - read == 0
    }

    /**
     * Stores `value` in slot `write % capacity` and counts it, or reports
     * `Full` and changes nothing.
     */
    method Push(value: T) returns (r: Result<(), StateError>)
      requires Valid()
      modifies this, buffer
      ensures Valid() && buffer == old(buffer) && read == old(read)
      ensures old(IsFull()) ==> r == Err(Full) && write == old(write) && buffer[..] == old(buffer[..])
      ensures !old(IsFull()) ==>
                r == Ok(()) && write == old(write) + 1 &&
                buffer[..] == old(buffer[..])[old(write) % buffer.Length := value]
      ensures Contents == if r.Ok? then old(Contents) + [value] else old(Contents)
      ensures buffer.Length == 0 ==> r == Err(Full)
    {
      if IsFull() {
        return Err(Full);
      }
      var len := buffer.Length;
      buffer[write % len] := value;
      write := write + 1;
      WindowAfterWrite(old(buffer[..]), read, old(write), value);
      Contents := Contents + [value];
      return Ok(());
    }

    /**
     * Returns the value in slot `read % capacity` and counts it as read, or
     * reports `Empty` and changes nothing.
     */
    method Get() returns (r: Result<T, StateError>)
      requires Valid()
      modifies this
      ensures Valid() && buffer == old(buffer) && write == old(write)
      ensures old(IsEmpty()) ==> r == Err(Empty) && read == old(read)
      ensures !old(IsEmpty()) ==> r == Ok(buffer[old(read) % buffer.Length]) && read == old(read) + 1
      ensures r.Ok? ==> old(Contents) != [] && r.value == old(Contents)[0]
      ensures Contents == if r.Ok? then old(Contents)[1..] else old(Contents)
      ensures buffer.Length == 0 ==> r == Err(Empty)
    {
      if IsEmpty() {
        return Err(Empty);
      }
      var len := buffer.Length;
      var value := buffer[read % len];
      read := read + 1;
      WindowAfterRead(buffer[..], old(read), write - old(read));
      Contents := Contents[1..];
      return Ok(value);
    }
  }

  /**
   * The second half of the walk-through below: with only 3 queued in a
   * buffer of capacity 3 whose next write goes to slot 0, push 4 and 5 into
   * the freed slots, find it full for 6, and get everything back in order.
   */
  method WrapAround(rb: RingBuffer<int>) returns (pushes: seq<Result<(), StateError>>, gets: seq<Result<int, StateError>>)
    requires rb.Valid() && rb.buffer.Length == 3 && rb.Contents == [3] && rb.write == 3
    modifies rb, rb.buffer
    ensures pushes == [Ok(()), Ok(()), Err(Full)]
    ensures gets == [Ok(3), Ok(4), Ok(5), Err(Empty)]
  {
    var p4 := rb.Push(4);
    var p5 := rb.Push(5);
    var p6 := rb.Push(6);
    var g3 := rb.Get();
    var g4 := rb.Get();
    var g5 := rb.Get();
    var g6 := rb.Get();
    pushes := [p4, p5, p6];
    gets := [g3, g4, g5, g6];
  }

  /**
   * The first half of the walk-through below: a new buffer of capacity 3;
   * get from empty; push 1, 2, 3; get twice.
   */
  method FillThenGetTwo() returns (rb: RingBuffer<int>, pushes: seq<Result<(), StateError>>, gets: seq<Result<int, StateError>>)
    ensures fresh(rb) && fresh(rb.buffer)
    ensures rb.Valid() && rb.buffer.Length == 3 && rb.Contents == [3] && rb.write == 3
    ensures pushes == [Ok(()), Ok(()), Ok(())]
    ensures gets == [Err(Empty), Ok(1), Ok(2)]
  {
    rb := new RingBuffer<int>.NewWithCap(3, 0);
    var g0 := rb.Get();
    var p1 := rb.Push(1);
    var p2 := rb.Push(2);
    var p3 := rb.Push(3);
    var g1 := rb.Get();
    var g2 := rb.Get();
    pushes := [p1, p2, p3];
    gets := [g0, g1, g2];
  }

  /** The test scenario of src/lib.rs, values coming out in order across the wrap-around. */
  method Scenario() returns (pushes: seq<Result<(), StateError>>, gets: seq<Result<int, StateError>>)
    ensures pushes == [Ok(()), Ok(()), Ok(()), Ok(()), Ok(()), Err(Full)]
    ensures gets == [Err(Empty), Ok(1), Ok(2), Ok(3), Ok(4), Ok(5), Err(Empty)]
  {
    var rb, firstPushes, firstGets := FillThenGetTwo();
    var laterPushes, laterGets := WrapAround(rb);
    pushes := firstPushes + laterPushes;
    gets := firstGets + laterGets;
  }
}
