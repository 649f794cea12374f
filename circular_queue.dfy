/** The fixed-capacity circular byte queue used for the director's input and
    output buffers (`queue_t` with initializeQueue, full, empty, room, count,
    put and get).

    The first half of the module gives the meaning of a queue as the sequence
    of bytes it holds, oldest first: what one put and one get do to that
    sequence, what a run of puts and a run of gets do, and the FIFO property.
    The second half is the queue itself, a class over a flat array with a
    start index and a count, whose methods are proved against that meaning. */
module CircularQueue {

  /** A C `char` moved through the queues, as its 8-bit pattern. */
  newtype byte = b: int | 0 <= b < 256

  /** Capacity of both the input and the output queue. */
  const QUEUE_SIZE: int := 2048

  /** The `min` macro. */
  function Min(x: int, y: int): int {
    if x < y then x else y
  }

  /** An index into the array one past its end at most, wrapped back to the
      start: the queue's index arithmetic. */
  function Wrap(k: int): int {
    if k >= QUEUE_SIZE then k - QUEUE_SIZE else k
  }

  /** Free slots left in a queue holding `q`. */
  function Room(q: seq<byte>): int {
    QUEUE_SIZE - |q|
  }

  // ---------------------------------------------------------------------
  // Meaning of put and get on the queue's contents
  // ---------------------------------------------------------------------

  /** put: a full queue drops the byte, any other queue appends it at the tail. */
  function Enqueue(q: seq<byte>, ch: byte): seq<byte>
    requires |q| <= QUEUE_SIZE
  {
    if |q| == QUEUE_SIZE then q else q + [ch]
  }

  /** get: an empty queue yields the sentinel 0 and stays empty, any other
      queue yields its head and loses it. */
  function Dequeue(q: seq<byte>): (byte, seq<byte>) {
    if |q| == 0 then (0, q) else (q[0], q[1..])
  }

  /** The bytes of `s` that one put each, in order, can store in a queue
      holding `q`: those that fit in its room, the rest are dropped. */
  function Fits(q: seq<byte>, s: seq<byte>): seq<byte>
    requires |q| <= QUEUE_SIZE
  {
    s[..Min(|s|, Room(q))]
  }

  /** The queue after putting every byte of `s`, one at a time, in order. */
  function EnqueueAll(q: seq<byte>, s: seq<byte>): (r: seq<byte>)
    requires |q| <= QUEUE_SIZE
    ensures |q| <= |r| <= QUEUE_SIZE
    decreases |s|
  {
    if s == [] then q else EnqueueAll(Enqueue(q, s[0]), s[1..])
  }

  /** The bytes returned by `n` gets in a row, and what is left afterwards. */
  function DequeueAll(q: seq<byte>, n: nat): (seq<byte>, seq<byte>) {
    if n == 0 then ([], q)
    else
      var (ch, rest) := Dequeue(q);
      var (out, left) := DequeueAll(rest, n - 1);
      ([ch] + out, left)
  }

  /** `k` sentinel bytes. */
  function Zeros(k: nat): (z: seq<byte>)
    ensures |z| == k && forall i :: 0 <= i < k ==> z[i] == 0
  {
    if k == 0 then [] else Zeros(k - 1) + [0]
  }

  /** A run of puts stores exactly the bytes that fit, in order, after what
      the queue already held; everything past the room is dropped. */
  lemma {:induction false} EnqueueAllKeepsWhatFits(q: seq<byte>, s: seq<byte>)
    requires |q| <= QUEUE_SIZE
    ensures EnqueueAll(q, s) == q + Fits(q, s)
    ensures |EnqueueAll(q, s)| == |q| + Min(|s|, Room(q)) <= QUEUE_SIZE
    decreases |s|
  {
    if s != [] {
      var q1 := Enqueue(q, s[0]);
      EnqueueAllKeepsWhatFits(q1, s[1..]);
      if |q| < QUEUE_SIZE {
        var m := Min(|s|, Room(q));
        assert Fits(q1, s[1..]) == s[1..m];
        assert [s[0]] + s[1..m] == s[..m];
        assert q1 + s[1..m] == q + s[..m];
      }
    }
  }

  /** Putting one more byte of `s` stores it exactly when the bytes before
      it left the queue with room. */
  lemma FitsOneMore(q: seq<byte>, s: seq<byte>, i: nat)
    requires |q| <= QUEUE_SIZE && i < |s|
    ensures |q + Fits(q, s[..i])| < QUEUE_SIZE ==> Fits(q, s[..i + 1]) == Fits(q, s[..i]) + [s[i]]
    ensures |q + Fits(q, s[..i])| == QUEUE_SIZE ==> Fits(q, s[..i + 1]) == Fits(q, s[..i])
  {
    assert s[..i + 1][..i] == s[..i];
  }

  /** A run of `n` gets returns the first `n` bytes in FIFO order; each get
      past the end returns the sentinel 0 and leaves the queue empty. */
  lemma {:induction false} DequeueAllTakesPrefix(q: seq<byte>, n: nat)
    ensures n <= |q| ==> DequeueAll(q, n) == (q[..n], q[n..])
    ensures n > |q| ==> DequeueAll(q, n) == (q + Zeros(n - |q|), [])
  {
    if n > 0 {
      DequeueAllTakesPrefix(Dequeue(q).1, n - 1);
      if |q| == 0 {
        assert q == [] && Dequeue(q) == (0, []);
        assert DequeueAll(q, n).0 == [0] + Zeros(n - 1);
        assert [0] + Zeros(n - 1) == q + Zeros(n);
      } else {
        if n <= |q| {
          assert q[..n] == [q[0]] + q[1..][..n - 1];
        } else {
          assert q == [q[0]] + q[1..];
          assert DequeueAll(q[1..], n - 1).0 == q[1..] + Zeros(n - |q|);
          assert [q[0]] + (q[1..] + Zeros(n - |q|)) == q + Zeros(n - |q|);
        }
      }
    }
  }

  /** FIFO: when the puts do not exceed the capacity, gets return the bytes
      in the order they were put, and the count afterwards is the number of
      bytes put minus the number of bytes got. */
  lemma FifoOrder(q: seq<byte>, xs: seq<byte>, k: nat)
    requires |q| + |xs| <= QUEUE_SIZE
    requires k <= |q| + |xs|
    ensures DequeueAll(EnqueueAll(q, xs), k).0 == (q + xs)[..k]
    ensures |DequeueAll(EnqueueAll(q, xs), k).1| == |q| + |xs| - k
  {
    EnqueueAllKeepsWhatFits(q, xs);
    assert Fits(q, xs) == xs;
    DequeueAllTakesPrefix(q + xs, k);
  }

  // ---------------------------------------------------------------------
  // The queue: a flat array, a start index and a count
  // ---------------------------------------------------------------------

  class Queue {
    const size: int
    const elements: array<byte>
    var start: int
    var count: int
    /** The bytes held, oldest first. */
    ghost var Contents: seq<byte>

    /** The queue invariant: the indices stay in range and slot `i` of the
        contents sits at `(start + i) mod size` in the array (one wrap at
        most, since start and i are both below size). */
    ghost predicate Valid()
      reads this, elements
    {
      size == QUEUE_SIZE && elements.Length == size &&
      0 <= start < size && 0 <= count <= size && |Contents| == count &&
      forall i :: 0 <= i < count ==> Contents[i] == elements[Wrap(start + i)]
    }

    /** initializeQueue: an empty queue of capacity QUEUE_SIZE. */
    constructor Init()
      ensures Valid() && fresh(elements)
      ensures start == 0 && count == 0 && Contents == []
    {
      size := QUEUE_SIZE;
      elements := new byte[QUEUE_SIZE];
      start, count := 0, 0;
      Contents := [];
    }

    function Full(): (b: bool)
      reads this, elements
      requires Valid()
      ensures b <==> |Contents| == QUEUE_SIZE
      ensures b <==> Room(Contents) == 0
    {
      count == size
    }

    function Empty(): (b: bool)
      reads this, elements
      requires Valid()
      ensures b <==> Contents == []
    {
      count == 0
    }

    function RoomLeft(): (r: int)
      reads this, elements
      requires Valid()
      ensures r == Room(Contents) && 0 <= r <= QUEUE_SIZE
    {
      size - count
    }

    function Count(): (r: int)
      reads this, elements
      requires Valid()
      ensures r == |Contents| && 0 <= r <= QUEUE_SIZE
    {
      count
    }

    /** put: a full queue reports and drops the byte; otherwise the byte goes
        to slot `(start + count) mod size` and the count grows by one. */
    method Put(ch: byte)
      requires Valid()
      modifies this, elements
      ensures Valid()
      ensures Contents == Enqueue(old(Contents), ch)
      ensures start == old(start)
      ensures old(count) == size ==> count == old(count) && elements[..] == old(elements[..])
      ensures old(count) < size ==>
        count == old(count) + 1 &&
        elements[(old(start) + old(count)) % size] == ch &&
        forall k :: 0 <= k < size && k != (old(start) + old(count)) % size ==> elements[k] == old(elements[k])
    {
      if Full() {
        // "Queue full" is reported on the serial console; the byte is dropped.
      } else {
        var index := start + count;
        count := count + 1;
        if index >= size {
          index := index - size;
        }
        elements[index] := ch;
        Contents := Contents + [ch];
      }
    }

    /** get: an empty queue reports and returns 0; otherwise the byte at
        `start` is returned, `start` advances modulo size and the count drops
        by one. */
    method Get() returns (ch: byte)
      requires Valid()
      modifies this
      ensures Valid()
      ensures (ch, Contents) == Dequeue(old(Contents))
      ensures old(count) == 0 ==> ch == 0 && start == old(start) && count == 0
      ensures old(count) > 0 ==>
        ch == elements[old(start)] && start == (old(start) + 1) % size && count == old(count) - 1
    {
      if Empty() {
        // "Queue empty" is reported on the serial console.
        return 0;
      } else {
        ch := elements[start];
        start := start + 1;
        count := count - 1;
        if start == size {
          start := 0;
        }
        Contents := Contents[1..];
      }
    }
  }
}
