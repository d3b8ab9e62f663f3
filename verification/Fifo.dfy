/** The ring buffer. */
module Fifo {
  import opened Bytes

  /** fifo_next: one place on, round the ring. */
  function Next(pos: nat, length: nat): (r: nat)
    requires pos < length
    ensures r == if pos + 1 == length then 0 else pos + 1
  {
    assert pos + 1 < length ==> (pos + 1) % length == pos + 1;
    (pos + 1) % length
  }

  class Ring {
    const buf: array<Byte>
    const length: nat
    var head: nat
    var tail: nat

    ghost predicate Valid()
      reads this
    {
      2 <= length <= buf.Length && head < length && tail < length
    }

    /** The bytes in the ring, the oldest first. */
    ghost function Contents(): (s: seq<Byte>)
      requires Valid()
      reads this, buf
      ensures |s| < length
    {
      if head <= tail then buf[head..tail] else buf[head..length] + buf[..tail]
    }

    constructor (buf: array<Byte>, length: nat)
      requires 2 <= length <= buf.Length
      ensures Valid() && Contents() == [] && this.buf == buf && this.length == length
    {
      this.buf := buf;
      this.length := length;
      head, tail := 0, 0;
    }

    method Full() returns (r: bool)
      requires Valid()
      ensures r <==> |Contents()| == length - 1
    {
      r := Next(tail, length) == head;
    }

    method Empty() returns (r: bool)
      requires Valid()
      ensures r <==> Contents() == []
    {
      r := head == tail;
    }

    method Get() returns (b: Byte)
      requires Valid() && Contents() != []
      modifies this`head
      ensures Valid() && [b] + Contents() == old(Contents())
    {
      ghost var before := Contents();
      assert head < tail ==> buf[head..tail] == [buf[head]] + buf[head + 1..tail];
      assert head > tail ==> buf[head..length] == [buf[head]] + buf[head + 1..length];
      b := buf[head];
      head := Next(head, length);
      assert before[0] == b && Contents() == before[1..];
    }

    /** A byte is added at the end; in a full ring the oldest byte is lost. */
    method Put(b: Byte)
      requires Valid()
      modifies this`head, this`tail, buf
      ensures Valid()
      ensures Contents() == (if old(|Contents()|) == length - 1 then old(Contents()[1..]) else old(Contents())) + [b]
      ensures old(|Contents()|) < length - 1 ==> head == old(head)
    {
      var full := Full();
      while full
        invariant Valid() && tail == old(tail) && buf[..] == old(buf[..])
        invariant full <==> |Contents()| == length - 1
        invariant Contents() == if old(|Contents()|) == length - 1 && !full then old(Contents()[1..]) else old(Contents())
        invariant old(|Contents()|) < length - 1 ==> head == old(head)
        decreases |Contents()|
      {
        var lost := Get();
        full := Full();
      }
      Store(b);
    }

    method Store(b: Byte)
      requires Valid() && |Contents()| < length - 1
      modifies this`tail, buf
      ensures Valid() && Contents() == old(Contents()) + [b]
    {
      buf[tail] := b;
      tail := Next(tail, length);
    }
  }
}
