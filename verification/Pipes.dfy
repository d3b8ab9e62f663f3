/** A pipe between one reader and one writer that put each other to sleep and wake each other. */
module Pipes {
  import opened Bytes
  import opened Fifo
  import opened Limits

  const PIPE_SIZE := 4096

  /** A pipe's ring holds one byte less than its size. */
  const CAPACITY := PIPE_SIZE - 1

  /** A task inside pipe_read has left bytes to go; woken says that it resumes behind task_block. */
  datatype Reader = NotReading | Reading(left: nat, woken: bool) | ReadSleeping(left: nat)

  datatype Writer = NotWriting | Writing(rest: seq<Byte>, woken: bool) | WriteSleeping(rest: seq<Byte>)

  /** read and written record every byte that left and entered the ring. */
  datatype State = State(ring: seq<Byte>, rxwaiter: bool, txwaiter: bool, reader: Reader, writer: Writer,
                         read: seq<Byte>, written: seq<Byte>)

  const INITIAL := State([], false, false, NotReading, NotWriting, [], [])

  /** The reader runs until it has all its bytes or finds the ring empty. */
  function AfterRead(s: State): State
    requires s.reader.Reading?
  {
    var k := Min(s.reader.left, |s.ring|);
    var done := k == s.reader.left;
    s.(ring := s.ring[k..], read := s.read + s.ring[..k],
       reader := if done then NotReading else ReadSleeping(s.reader.left - k),
       rxwaiter := s.rxwaiter || !done,
       txwaiter := s.txwaiter && k == 0,
       writer := if s.txwaiter && k > 0 && s.writer.WriteSleeping? then Writing(s.writer.rest, true) else s.writer)
  }

  /** The writer runs until it has written everything or finds the ring full. */
  function AfterWrite(s: State): State
    requires s.writer.Writing? && |s.ring| <= CAPACITY
  {
    var k := Min(|s.writer.rest|, CAPACITY - |s.ring|);
    var done := k == |s.writer.rest|;
    s.(ring := s.ring + s.writer.rest[..k], written := s.written + s.writer.rest[..k],
       writer := if done then NotWriting else WriteSleeping(s.writer.rest[k..]),
       txwaiter := s.txwaiter || !done,
       rxwaiter := s.rxwaiter && k == 0,
       reader := if s.rxwaiter && k > 0 && s.reader.ReadSleeping? then Reading(s.reader.left, true) else s.reader)
  }

  datatype Event = CallRead(count: nat) | RunReader | CallWrite(data: seq<Byte>) | RunWriter

  ghost predicate Step(s: State, e: Event, s': State) {
    match e
    case CallRead(count) => s.reader.NotReading? && s' == s.(reader := Reading(count, false))
    case RunReader => s.reader.Reading? && s' == AfterRead(s)
    case CallWrite(data) => s.writer.NotWriting? && s' == s.(writer := Writing(data, false))
    case RunWriter => s.writer.Writing? && |s.ring| <= CAPACITY && s' == AfterWrite(s)
  }

  // ---------- what every step keeps ----------

  /** Nothing is lost, doubled or reordered between writer and reader. */
  ghost predicate Conserved(s: State) {
    s.read + s.ring == s.written && |s.ring| <= CAPACITY
  }

  /** The waiter fields say who sleeps; the reader sleeps only at an empty ring, the writer only at a full one, and one who
      was woken finds what it slept for. */
  ghost predicate Waiting(s: State) {
    && (s.rxwaiter <==> s.reader.ReadSleeping?)
    && (s.txwaiter <==> s.writer.WriteSleeping?)
    && (s.reader.ReadSleeping? ==> s.ring == [] && s.reader.left > 0)
    && (s.writer.WriteSleeping? ==> |s.ring| == CAPACITY && s.writer.rest != [])
    && (s.reader.Reading? && s.reader.woken ==> s.ring != [] && s.reader.left > 0)
    && (s.writer.Writing? && s.writer.woken ==> |s.ring| < CAPACITY && s.writer.rest != [])
  }

  ghost predicate Inv(s: State) {
    Conserved(s) && Waiting(s)
  }

  lemma ReadKeeps(s: State)
    requires Inv(s) && s.reader.Reading?
    ensures Inv(AfterRead(s))
  {
    var s', k := AfterRead(s), Min(s.reader.left, |s.ring|);
    assert s.ring == s.ring[..k] + s.ring[k..];
    assert s'.read + s'.ring == s.read + s.ring;
  }

  lemma WriteKeeps(s: State)
    requires Inv(s) && s.writer.Writing?
    ensures Inv(AfterWrite(s))
  {
    var s', k := AfterWrite(s), Min(|s.writer.rest|, CAPACITY - |s.ring|);
    assert s'.read + s'.ring == s.written + s.writer.rest[..k];
  }

  lemma StepKeeps(s: State, e: Event, s': State)
    requires Inv(s) && Step(s, e, s')
    ensures Inv(s')
  {
    match e {
      case CallRead(count) =>
      case CallWrite(data) =>
      case RunReader =>
        hide AfterRead;
        ReadKeeps(s);
      case RunWriter =>
        hide AfterWrite;
        WriteKeeps(s);
    }
  }

  /** Reader and writer are never both asleep. */
  lemma NeverBothAsleep(s: State)
    requires Inv(s)
    ensures !(s.reader.ReadSleeping? && s.writer.WriteSleeping?)
  {}

  ghost predicate Run(ss: seq<State>, es: seq<Event>) {
    |ss| == |es| + 1 && ss[0] == INITIAL && forall n | 0 <= n < |es| :: Step(ss[n], es[n], ss[n + 1])
  }

  /** Over every run the bytes read are the first of the bytes written, in order, and the rest is in the ring. */
  lemma {:induction false} RunConserves(ss: seq<State>, es: seq<Event>, n: nat)
    requires Run(ss, es) && n < |ss|
    ensures Inv(ss[n])
    ensures |ss[n].read| <= |ss[n].written| && ss[n].read == ss[n].written[..|ss[n].read|]
    ensures ss[n].ring == ss[n].written[|ss[n].read|..]
  {
    hide Step;
    if n > 0 {
      RunConserves(ss, es, n - 1);
      StepKeeps(ss[n - 1], es[n - 1], ss[n]);
    }
  }

  /** Whoever sleeps is woken by the other's next run: a sleeping reader by any byte written, a sleeping writer by any
      byte read. */
  lemma OtherWakes(s: State)
    requires Inv(s)
    ensures s.reader.ReadSleeping? && s.writer.Writing? && s.writer.rest != [] ==> AfterWrite(s).reader == Reading(s.reader.left, true)
    ensures s.writer.WriteSleeping? && s.reader.Reading? && s.reader.left > 0 ==> AfterRead(s).writer == Writing(s.writer.rest, true)
  {}

  // ---------- a call ends only when it has moved all its bytes ----------

  /** What the writer's call has still to put in, and how many bytes the reader's has still to get. */
  function ToWrite(w: Writer): seq<Byte> {
    if w.NotWriting? then [] else w.rest
  }

  function ToRead(r: Reader): nat {
    if r.NotReading? then 0 else r.left
  }

  lemma {:induction false} WriteGoesOn(ss: seq<State>, es: seq<Event>, m: nat, n: nat)
    requires Run(ss, es) && m < n < |ss| && es[m].CallWrite? && forall k | m < k < n :: !ss[k].writer.NotWriting?
    ensures ss[n].written + ToWrite(ss[n].writer) == ss[m].written + es[m].data
    decreases n
  {
    assert Step(ss[n - 1], es[n - 1], ss[n]);
    if m < n - 1 {
      WriteGoesOn(ss, es, m, n - 1);
    }
  }

  lemma {:induction false} ReadGoesOn(ss: seq<State>, es: seq<Event>, m: nat, n: nat)
    requires Run(ss, es) && m < n < |ss| && es[m].CallRead? && forall k | m < k < n :: !ss[k].reader.NotReading?
    ensures ss[m].read <= ss[n].read && |ss[n].read| + ToRead(ss[n].reader) == |ss[m].read| + es[m].count
    decreases n
  {
    assert Step(ss[n - 1], es[n - 1], ss[n]);
    if m < n - 1 {
      ReadGoesOn(ss, es, m, n - 1);
    }
  }

  /** Over every run, when a call of write is over, exactly its bytes have gone into the pipe since it began. */
  lemma WriteCompletes(ss: seq<State>, es: seq<Event>, m: nat, n: nat)
    requires Run(ss, es) && m < n < |ss| && es[m].CallWrite?
    requires ss[n].writer.NotWriting? && forall k | m < k < n :: !ss[k].writer.NotWriting?
    ensures ss[n].written == ss[m].written + es[m].data
  {
    hide Step;
    WriteGoesOn(ss, es, m, n);
  }

  /** Over every run, when a call of read is over, it has taken exactly as many bytes as it asked for. */
  lemma ReadCompletes(ss: seq<State>, es: seq<Event>, m: nat, n: nat)
    requires Run(ss, es) && m < n < |ss| && es[m].CallRead?
    requires ss[n].reader.NotReading? && forall k | m < k < n :: !ss[k].reader.NotReading?
    ensures ss[m].read <= ss[n].read && |ss[n].read| == |ss[m].read| + es[m].count
  {
    hide Step;
    ReadGoesOn(ss, es, m, n);
  }

  // ---------- the code ----------

  class Pipe {
    const fifo: Ring
    var rxwaiter: bool
    var txwaiter: bool

    ghost predicate Valid()
      reads this, fifo, fifo.buf
    {
      fifo.Valid() && fifo.length == PIPE_SIZE
    }

    /** The ring and the waiter fields are those of s. */
    ghost predicate Shows(s: State)
      requires Valid()
      reads this, fifo, fifo.buf
    {
      fifo.Contents() == s.ring && rxwaiter == s.rxwaiter && txwaiter == s.txwaiter
    }

    constructor ()
      ensures Valid() && Shows(INITIAL) && fresh(fifo) && fresh(fifo.buf)
    {
      var buf := new Byte[PIPE_SIZE];
      fifo := new Ring(buf, PIPE_SIZE);
      rxwaiter, txwaiter := false, false;
    }

    /** pipe_read from its start, or from behind task_block when woken, until it returns or sleeps. The ring is never read
        when it is empty. */
    method Read(left: nat, woken: bool, ghost s: State) returns (got: seq<Byte>, sleeps: bool)
      requires Valid() && Shows(s) && Inv(s) && s.reader == Reading(left, woken)
      modifies this, fifo`head
      ensures Valid() && Step(s, RunReader, AfterRead(s)) && Shows(AfterRead(s))
      ensures s.read + got == AfterRead(s).read && got + fifo.Contents() == s.ring
      ensures AfterRead(s).reader == if sleeps then ReadSleeping(left - |got|) else NotReading
      ensures |got| <= left && (!sleeps <==> |got| == left)
    {
      hide Ring.Contents, Ring.Valid, Conserved;
      got := [];
      ghost var before := fifo.Contents();
      var behindBlock := woken;
      while |got| < left
        invariant Valid() && |got| <= left && got + fifo.Contents() == before && !rxwaiter
        invariant behindBlock ==> got == [] && fifo.Contents() != []
        invariant txwaiter == (old(txwaiter) && got == [])
      {
        if !behindBlock {
          var empty := fifo.Empty();
          if empty {
            rxwaiter := true;
            return got, true;
          }
        }
        behindBlock := false;
        var b: Byte := fifo.Get();
        got := got + [b];
        if txwaiter {
          txwaiter := false;
        }
      }
      sleeps := false;
    }

    /** pipe_write likewise. No byte in the ring is ever overwritten. */
    method Write(data: seq<Byte>, woken: bool, ghost s: State) returns (nr: nat, sleeps: bool)
      requires Valid() && Shows(s) && Inv(s) && s.writer == Writing(data, woken)
      modifies this, fifo`head, fifo`tail, fifo.buf
      ensures Valid() && Step(s, RunWriter, AfterWrite(s)) && Shows(AfterWrite(s))
      ensures nr <= |data| && AfterWrite(s).written == s.written + data[..nr] && fifo.Contents() == s.ring + data[..nr]
      ensures AfterWrite(s).writer == if sleeps then WriteSleeping(data[nr..]) else NotWriting
      ensures !sleeps <==> nr == |data|
    {
      hide Ring.Contents, Ring.Valid;
      nr := 0;
      ghost var before := fifo.Contents();
      var behindBlock := woken;
      while nr < |data|
        invariant Valid() && nr <= |data| && fifo.Contents() == before + data[..nr] && !txwaiter
        invariant behindBlock ==> nr == 0 && |fifo.Contents()| < CAPACITY
        invariant rxwaiter == (old(rxwaiter) && nr == 0)
      {
        if !behindBlock {
          var full := fifo.Full();
          if full {
            txwaiter := true;
            return nr, true;
          }
        }
        behindBlock := false;
        fifo.Put(data[nr]);
        nr := nr + 1;
        if rxwaiter {
          rxwaiter := false;
        }
      }
      sleeps := false;
    }
  }
}
