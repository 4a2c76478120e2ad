/**
 The bounded buffer between one writing and one reading thread.

 Each method is one critical section: what a thread does from taking the lock, or from
 waking up with it, until it releases the lock or goes to sleep.
 */
module Fifo {
  import opened Bytes

  datatype Status = Success | NetworkError | Timeout | InvalidParameter | NotEnoughMemory

  /** How a critical section ends: the call returns, or its thread sleeps. */
  datatype Outcome = Returns(er: Status) | Sleeps

  /**
   The shared state.  A thread is asleep from its wait until the condition is signalled, its
   deadline passes or it wakes up by itself.
   */
  datatype Buffer = Buffer(
    storage: seq<Byte>, maxSize: nat, readerClosed: bool, writerClosed: bool, readerAsleep: bool, writerAsleep: bool)
  {
    predicate Full() { |storage| == maxSize }

    predicate Bounded() { |storage| <= maxSize }
  }

  function Min(a: nat, b: nat): nat {
    if a < b then a else b
  }

  /** The number of bytes one section of `Write` moves. */
  function Accepted(b: Buffer, data: seq<Byte>, done: nat): nat
    requires b.Bounded() && done <= |data|
  {
    Min(|data| - done, b.maxSize - |b.storage|)
  }

  /** A whole section of `Write` with `done` bytes written before. */
  function AfterWrite(b: Buffer, data: seq<Byte>, done: nat): Buffer
    requires b.Bounded() && done <= |data|
  {
    var n := Accepted(b, data, done);
    b.(storage := b.storage + data[done..done + n],
       readerAsleep := b.readerAsleep && n == 0,
       writerAsleep := WriteOutcome(b, data, done).Sleeps?)
  }

  function WriteOutcome(b: Buffer, data: seq<Byte>, done: nat): Outcome
    requires b.Bounded() && done <= |data|
  {
    if done + Accepted(b, data, done) == |data| then Returns(Success)
    else if b.readerClosed then Returns(NetworkError)
    else Sleeps
  }

  /** A whole section of `Read` that still wants `want` bytes. */
  function AfterRead(b: Buffer, want: nat): Buffer {
    var n := Min(want, |b.storage|);
    b.(storage := b.storage[n..],
       writerAsleep := b.writerAsleep && n == 0,
       readerAsleep := ReadOutcome(b, want).Sleeps?)
  }

  function ReadOutcome(b: Buffer, want: nat): Outcome {
    if want <= |b.storage| || b.writerClosed then Returns(Success) else Sleeps
  }

  function AfterClose(b: Buffer, read: bool, write: bool): Buffer {
    b.(readerClosed := b.readerClosed || read, writerAsleep := b.writerAsleep && !read,
       writerClosed := b.writerClosed || write, readerAsleep := b.readerAsleep && !write)
  }

  class FifoBuffer {
    const maxSize: nat
    var storage: seq<Byte>
    var readerClosed: bool
    var writerClosed: bool
    var readerAsleep: bool
    var writerAsleep: bool

    function Value(): Buffer
      reads this
    {
      Buffer(storage, maxSize, readerClosed, writerClosed, readerAsleep, writerAsleep)
    }

    predicate Valid()
      reads this
    {
      Value().Bounded()
    }

    constructor (maxSize: nat)
      ensures Valid() && Value() == Buffer([], maxSize, false, false, false, false)
    {
      this.maxSize := maxSize;
      storage := [];
      readerClosed, writerClosed, readerAsleep, writerAsleep := false, false, false, false;
    }

    /** One section of `Write`; the writer holds the lock and is not asleep. */
    method WriteSection(data: seq<Byte>, done: nat) returns (written: nat, outcome: Outcome)
      requires Valid() && done <= |data| && !writerAsleep
      modifies this
      ensures Valid() && Value() == AfterWrite(old(Value()), data, done)
      ensures written == done + Accepted(old(Value()), data, done) && outcome == WriteOutcome(old(Value()), data, done)
    {
      written := done;
      while written < |data|
        invariant Valid() && done <= written <= |data| && !writerAsleep
        invariant storage == old(storage) + data[done..written]
        invariant readerAsleep == (old(readerAsleep) && written == done)
        invariant readerClosed == old(readerClosed) && writerClosed == old(writerClosed)
      {
        if |storage| == maxSize {
          if readerClosed {
            return written, Returns(NetworkError);
          }
          writerAsleep := true;
          return written, Sleeps;
        }
        var now := Min(|data| - written, maxSize - |storage|);
        storage := storage + data[written..written + now];
        readerAsleep := false;
        written := written + now;
      }
      outcome := Returns(Success);
    }

    /** One section of `Read`, with `got` read before; the reader holds the lock and is not asleep. */
    method ReadSection(cbBuf: nat, got: seq<Byte>) returns (data: seq<Byte>, outcome: Outcome)
      requires Valid() && |got| <= cbBuf && !readerAsleep
      modifies this
      ensures Valid() && Value() == AfterRead(old(Value()), cbBuf - |got|)
      ensures data == got + old(storage)[..Min(cbBuf - |got|, |old(storage)|)]
      ensures outcome == ReadOutcome(old(Value()), cbBuf - |got|)
    {
      data := got;
      ghost var n := 0;
      while |data| < cbBuf
        invariant Valid() && !readerAsleep && n <= |old(storage)| && |got| + n <= cbBuf
        invariant data == got + old(storage)[..n] && storage == old(storage)[n..]
        invariant writerAsleep == (old(writerAsleep) && n == 0)
        invariant readerClosed == old(readerClosed) && writerClosed == old(writerClosed)
        decreases cbBuf - |data|
      {
        if storage == [] {
          if writerClosed {
            return data, Returns(Success);
          }
          readerAsleep := true;
          return data, Sleeps;
        }
        var now := Min(cbBuf - |data|, |storage|);
        data := data + storage[..now];
        storage := storage[now..];
        writerAsleep := false;
        n := n + now;
      }
      outcome := Returns(Success);
    }

    /** Closes one end or both. */
    method Close(read: bool, write: bool)
      requires Valid()
      modifies this
      ensures Valid() && Value() == AfterClose(old(Value()), read, write)
    {
      if read {
        readerClosed := true;
        writerAsleep := false;
      }
      if write {
        writerClosed := true;
        readerAsleep := false;
      }
    }
  }
}
