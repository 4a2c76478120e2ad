/**
 Every interleaving of one writing and one reading thread on a bounded buffer, with any
 thread closing either end.  An action is a call, one critical section, a timeout or a wakeup.
 */
module FifoRuns {
  import opened Options
  import opened Bytes
  import opened Fifo

  /** A call of `Write` in progress; `waited` once it has slept. */
  datatype Writer = NoWrite | Writing(data: seq<Byte>, done: nat, timed: bool, waited: bool)

  datatype Reader = NoRead | Reading(want: nat, got: seq<Byte>, timed: bool, waited: bool)

  /** What a call that has returned did. */
  datatype Written = Written(data: seq<Byte>, done: nat, er: Status)

  datatype Read = Read(want: nat, got: seq<Byte>, er: Status)

  datatype System = System(buffer: Buffer, writer: Writer, reader: Reader, writeLog: seq<Written>, readLog: seq<Read>)

  datatype Action =
    | CallWrite(source: Option<seq<Byte>>, writeTimed: bool)
    | RunWrite
    | WriteTimesOut
    | WriteFindsNoMemory
    | CallRead(target: Option<nat>, readTimed: bool)
    | RunRead
    | ReadTimesOut
    | CloseEnds(read: bool, write: bool)
    | WakeWriter
    | WakeReader

  function Start(maxSize: nat): System {
    System(Buffer([], maxSize, false, false, false, false), NoWrite, NoRead, [], [])
  }

  /** A call of `Write` returns. */
  function EndWrite(s: System, b: Buffer, done: nat, er: Status): System
    requires s.writer.Writing?
  {
    s.(buffer := b.(writerAsleep := false), writer := NoWrite,
       writeLog := s.writeLog + [Written(s.writer.data, done, er)])
  }

  function EndRead(s: System, b: Buffer, got: seq<Byte>, er: Status): System
    requires s.reader.Reading?
  {
    s.(buffer := b.(readerAsleep := false), reader := NoRead, readLog := s.readLog + [Read(s.reader.want, got, er)])
  }

  /** The checks before the lock is taken. */
  function BeginWrite(s: System, source: Option<seq<Byte>>, timed: bool): System {
    if source.None? then s.(writeLog := s.writeLog + [Written([], 0, InvalidParameter)])
    else if s.buffer.writerClosed then s.(writeLog := s.writeLog + [Written(source.value, 0, NetworkError)])
    else if source.value == [] then s.(writeLog := s.writeLog + [Written([], 0, Success)])
    else s.(writer := Writing(source.value, 0, timed, false))
  }

  function BeginRead(s: System, target: Option<nat>, timed: bool): System {
    if target.None? then s.(readLog := s.readLog + [Read(0, [], InvalidParameter)])
    else if s.buffer.readerClosed then s.(readLog := s.readLog + [Read(target.value, [], NetworkError)])
    else if target.value == 0 then s.(readLog := s.readLog + [Read(0, [], Success)])
    else s.(reader := Reading(target.value, [], timed, false))
  }

  /** One section of the writing thread. */
  function WriterRuns(s: System): System
    requires s.buffer.Bounded() && s.writer.Writing? && s.writer.done <= |s.writer.data|
  {
    var b := AfterWrite(s.buffer, s.writer.data, s.writer.done);
    var done := s.writer.done + Accepted(s.buffer, s.writer.data, s.writer.done);
    match WriteOutcome(s.buffer, s.writer.data, s.writer.done)
    case Returns(er) => EndWrite(s, b, done, er)
    case Sleeps => s.(buffer := b, writer := s.writer.(done := done, waited := true))
  }

  /** One section of the reading thread. */
  function ReaderRuns(s: System): System
    requires s.reader.Reading? && |s.reader.got| <= s.reader.want
  {
    var want := s.reader.want - |s.reader.got|;
    var got := s.reader.got + s.buffer.storage[..Min(want, |s.buffer.storage|)];
    match ReadOutcome(s.buffer, want)
    case Returns(er) => EndRead(s, AfterRead(s.buffer, want), got, er)
    case Sleeps => s.(buffer := AfterRead(s.buffer, want), reader := s.reader.(got := got, waited := true))
  }

  predicate Enabled(s: System, a: Action) {
    match a
    case CallWrite(_, _) => s.writer.NoWrite?
    case RunWrite => s.writer.Writing? && !s.buffer.writerAsleep
    case WriteTimesOut => s.writer.Writing? && s.writer.timed && s.writer.waited
    case WriteFindsNoMemory => s.writer.Writing? && !s.buffer.writerAsleep && !s.buffer.Full()
    case CallRead(_, _) => s.reader.NoRead?
    case RunRead => s.reader.Reading? && !s.buffer.readerAsleep
    case ReadTimesOut => s.reader.Reading? && s.reader.timed && s.reader.waited
    case _ => true
  }

  function Do(s: System, a: Action): System
    requires Calls(s) && Enabled(s, a)
  {
    match a
    case CallWrite(source, timed) => BeginWrite(s, source, timed)
    case RunWrite => WriterRuns(s)
    case WriteTimesOut => EndWrite(s, s.buffer, s.writer.done, Timeout)
    case WriteFindsNoMemory => EndWrite(s, s.buffer, s.writer.done, NotEnoughMemory)
    case CallRead(target, timed) => BeginRead(s, target, timed)
    case RunRead => ReaderRuns(s)
    case ReadTimesOut => EndRead(s, s.buffer, s.reader.got, Timeout)
    case CloseEnds(read, write) => s.(buffer := AfterClose(s.buffer, read, write))
    case WakeWriter => s.(buffer := s.buffer.(writerAsleep := false))
    case WakeReader => s.(buffer := s.buffer.(readerAsleep := false))
  }

  /** A run; an action that is not enabled is passed over. */
  ghost function Run(s: System, actions: seq<Action>): System
    requires Good(s)
    ensures Good(Run(s, actions))
    decreases |actions|
  {
    if actions == [] then s
    else if Enabled(s, actions[0]) then StepKeeps(s, actions[0]); Run(Do(s, actions[0]), actions[1..])
    else Run(s, actions[1..])
  }

  /** Bytes put into the buffer by returned calls. */
  ghost function Sent(writeLog: seq<Written>): seq<Byte> {
    if writeLog == [] then []
    else
      var w := writeLog[|writeLog| - 1];
      Sent(writeLog[..|writeLog| - 1]) + w.data[..Min(w.done, |w.data|)]
  }

  /** Bytes handed out by returned calls. */
  ghost function Received(readLog: seq<Read>): seq<Byte> {
    if readLog == [] then [] else Received(readLog[..|readLog| - 1]) + readLog[|readLog| - 1].got
  }

  /** All bytes ever put into the buffer, in order. */
  ghost function Inserted(s: System): seq<Byte> {
    Sent(s.writeLog) + if s.writer.Writing? then s.writer.data[..Min(s.writer.done, |s.writer.data|)] else []
  }

  /** All bytes ever taken out of the buffer, in order. */
  ghost function Delivered(s: System): seq<Byte> {
    Received(s.readLog) + if s.reader.Reading? then s.reader.got else []
  }

  /** Calls in progress have something left to do. */
  predicate Calls(s: System) {
    && s.buffer.Bounded()
    && (s.writer.Writing? ==> s.writer.done < |s.writer.data|)
    && (s.reader.Reading? ==> |s.reader.got| < s.reader.want)
  }

  /** A thread sleeps only while there is nothing it could do. */
  predicate SleepsRightly(s: System) {
    && (s.buffer.writerAsleep ==> s.writer.Writing? && s.writer.waited && s.buffer.Full() && !s.buffer.readerClosed)
    && (s.buffer.readerAsleep ==>
      s.reader.Reading? && s.reader.waited && s.buffer.storage == [] && !s.buffer.writerClosed)
  }

  /** What a returned call has reported: all of it, if it was successful. */
  predicate TrueWrite(w: Written) {
    w.done <= |w.data| && (w.er == Success ==> w.done == |w.data|)
  }

  /** A successful read was a full one, unless the write end is closed. */
  predicate TrueRead(r: Read, writerClosed: bool) {
    |r.got| <= r.want && (r.er == Success && |r.got| < r.want ==> writerClosed)
  }

  predicate Honest(s: System) {
    && (forall w :: w in s.writeLog ==> TrueWrite(w))
    && (forall r :: r in s.readLog ==> TrueRead(r, s.buffer.writerClosed))
  }

  /** Nothing is lost, doubled or reordered. */
  ghost predicate Conserved(s: System) {
    Inserted(s) == Delivered(s) + s.buffer.storage
  }

  /** The invariant of every run. */
  ghost predicate Good(s: System) {
    Calls(s) && SleepsRightly(s) && Honest(s) && Conserved(s)
  }

  lemma StartIsGood(maxSize: nat)
    ensures Good(Start(maxSize))
  {
  }

  lemma Assoc(a: seq<Byte>, b: seq<Byte>, c: seq<Byte>)
    ensures (a + b) + c == a + (b + c)
  {
  }

  lemma SentMore(writeLog: seq<Written>, w: Written)
    ensures Sent(writeLog + [w]) == Sent(writeLog) + w.data[..Min(w.done, |w.data|)]
  {
    assert (writeLog + [w])[..|writeLog|] == writeLog;
  }

  lemma ReceivedMore(readLog: seq<Read>, r: Read)
    ensures Received(readLog + [r]) == Received(readLog) + r.got
  {
    assert (readLog + [r])[..|readLog|] == readLog;
  }

  lemma EndWriteInserted(s: System, b: Buffer, done: nat, er: Status)
    requires s.writer.Writing? && done <= |s.writer.data|
    ensures Inserted(EndWrite(s, b, done, er)) == Sent(s.writeLog) + s.writer.data[..done]
    ensures Delivered(EndWrite(s, b, done, er)) == Delivered(s)
  {
    SentMore(s.writeLog, Written(s.writer.data, done, er));
  }

  lemma EndReadDelivered(s: System, b: Buffer, got: seq<Byte>, er: Status)
    requires s.reader.Reading?
    ensures Delivered(EndRead(s, b, got, er)) == Received(s.readLog) + got
    ensures Inserted(EndRead(s, b, got, er)) == Inserted(s)
  {
    ReceivedMore(s.readLog, Read(s.reader.want, got, er));
  }

  lemma WriteConserves(s: System)
    requires Calls(s) && Conserved(s) && s.writer.Writing?
    ensures Conserved(WriterRuns(s))
  {
    var data, done := s.writer.data, s.writer.done;
    var n := Accepted(s.buffer, data, done);
    assert data[..done] + data[done..done + n] == data[..done + n];
    Assoc(Sent(s.writeLog), data[..done], data[done..done + n]);
    Assoc(Delivered(s), s.buffer.storage, data[done..done + n]);
    match WriteOutcome(s.buffer, data, done)
    case Returns(er) => EndWriteInserted(s, AfterWrite(s.buffer, data, done), done + n, er);
    case Sleeps =>
  }

  lemma ReadConserves(s: System)
    requires Calls(s) && Conserved(s) && s.reader.Reading?
    ensures Conserved(ReaderRuns(s))
  {
    var want := s.reader.want - |s.reader.got|;
    var n := Min(want, |s.buffer.storage|);
    var got := s.reader.got + s.buffer.storage[..n];
    assert s.buffer.storage[..n] + s.buffer.storage[n..] == s.buffer.storage;
    Assoc(Received(s.readLog), s.reader.got, s.buffer.storage[..n]);
    Assoc(Delivered(s), s.buffer.storage[..n], s.buffer.storage[n..]);
    match ReadOutcome(s.buffer, want)
    case Returns(er) => EndReadDelivered(s, AfterRead(s.buffer, want), got, er);
    case Sleeps =>
  }

  lemma BeginInserts(s: System, source: Option<seq<Byte>>, timed: bool)
    requires s.writer.NoWrite?
    ensures Inserted(BeginWrite(s, source, timed)) == Inserted(s)
    ensures Delivered(BeginWrite(s, source, timed)) == Delivered(s)
  {
    var t := BeginWrite(s, source, timed);
    if t.writer.NoWrite? {
      var w := t.writeLog[|s.writeLog|];
      assert t.writeLog == s.writeLog + [w] && w.data[..Min(w.done, |w.data|)] == [];
      SentMore(s.writeLog, w);
    } else {
      assert source.value[..0] == [];
    }
  }

  lemma BeginDelivers(s: System, target: Option<nat>, timed: bool)
    requires s.reader.NoRead?
    ensures Delivered(BeginRead(s, target, timed)) == Delivered(s)
    ensures Inserted(BeginRead(s, target, timed)) == Inserted(s)
  {
    var t := BeginRead(s, target, timed);
    if t.reader.NoRead? {
      var r := t.readLog[|s.readLog|];
      assert t.readLog == s.readLog + [r] && r.got == [];
      ReceivedMore(s.readLog, r);
    }
  }

  lemma EndConserves(s: System, er: Status)
    requires Calls(s) && Conserved(s)
    ensures s.writer.Writing? ==> Conserved(EndWrite(s, s.buffer, s.writer.done, er))
    ensures s.reader.Reading? ==> Conserved(EndRead(s, s.buffer, s.reader.got, er))
  {
    if s.writer.Writing? {
      EndWriteInserted(s, s.buffer, s.writer.done, er);
    }
    if s.reader.Reading? {
      EndReadDelivered(s, s.buffer, s.reader.got, er);
    }
  }

  lemma StepControls(s: System, a: Action)
    requires Calls(s) && SleepsRightly(s) && Enabled(s, a)
    ensures Calls(Do(s, a)) && SleepsRightly(Do(s, a))
  {
  }

  lemma StepHonest(s: System, a: Action)
    requires Calls(s) && SleepsRightly(s) && Honest(s) && Enabled(s, a)
    ensures Honest(Do(s, a))
  {
  }

  /** Every action keeps the invariant. */
  lemma StepKeeps(s: System, a: Action)
    requires Good(s) && Enabled(s, a)
    ensures Good(Do(s, a))
  {
    StepControls(s, a);
    StepHonest(s, a);
    if a.RunWrite? {
      WriteConserves(s);
    } else if a.RunRead? {
      ReadConserves(s);
    } else if a.CallWrite? {
      BeginInserts(s, a.source, a.writeTimed);
    } else if a.CallRead? {
      BeginDelivers(s, a.target, a.readTimed);
    } else {
      EndConserves(s, if a.WriteFindsNoMemory? then NotEnoughMemory else Timeout);
    }
  }

  // ---------- no wakeup is lost ----------

  predicate BothAsleep(s: System) {
    s.buffer.writerAsleep && s.buffer.readerAsleep
  }

  lemma {:induction false} CapacityKept(s: System, actions: seq<Action>)
    requires Good(s)
    ensures Run(s, actions).buffer.maxSize == s.buffer.maxSize
    decreases |actions|
  {
    if actions != [] {
      if Enabled(s, actions[0]) {
        StepKeeps(s, actions[0]);
        CapacityKept(Do(s, actions[0]), actions[1..]);
      } else {
        CapacityKept(s, actions[1..]);
      }
    }
  }

  lemma RunFirst(s: System, a: Action, rest: seq<Action>)
    requires Good(s) && Enabled(s, a)
    ensures Good(Do(s, a)) && Run(s, [a] + rest) == Run(Do(s, a), rest)
  {
    StepKeeps(s, a);
    assert ([a] + rest)[1..] == rest;
  }

  /** Two actions on the way to where both threads sleep. */
  lemma TwoSteps(s: System, a: Action, b: Action, rest: seq<Action>)
    requires Good(s) && Enabled(s, a) && Enabled(Do(s, a), b)
    ensures Good(Do(s, a)) && Good(Do(Do(s, a), b)) && Run(s, [a] + ([b] + rest)) == Run(Do(Do(s, a), b), rest)
  {
    RunFirst(s, a, [b] + rest);
    RunFirst(Do(s, a), b, rest);
  }

  /** A run of a buffer without room in which both threads fall asleep. */
  lemma NoRoomSticks() returns (actions: seq<Action>)
    ensures Good(Start(0)) && BothAsleep(Run(Start(0), actions))
  {
    var write, read := CallWrite(Some([0]), false), CallRead(Some(1), false);
    var s := Do(Do(Start(0), write), RunWrite);
    TwoSteps(Start(0), write, RunWrite, [read] + ([RunRead] + []));
    TwoSteps(s, read, RunRead, []);
    actions := [write] + ([RunWrite] + ([read] + ([RunRead] + [])));
  }

  /** Some run ends with both threads asleep. */
  ghost predicate CanStick(s: System)
    requires Good(s)
  {
    exists actions :: BothAsleep(Run(s, actions))
  }

  /** The two threads can come to wait for each other just when the buffer has no room at all. */
  lemma StuckOnlyWithoutRoom(maxSize: nat)
    ensures Good(Start(maxSize)) && (CanStick(Start(maxSize)) <==> maxSize == 0)
  {
    var s := Start(maxSize);
    if maxSize == 0 {
      var actions := NoRoomSticks();
      assert BothAsleep(Run(s, actions));
    } else {
      forall actions ensures !BothAsleep(Run(s, actions)) {
        CapacityKept(s, actions);
      }
    }
  }

  // ---------- the end of the stream ----------

  /** Once the write end is closed and no write is in progress, nothing more is put in. */
  lemma {:induction false} ClosedForGood(s: System, actions: seq<Action>)
    requires Good(s) && s.buffer.writerClosed && s.writer.NoWrite?
    ensures Inserted(Run(s, actions)) == Inserted(s)
    decreases |actions|
  {
    if actions != [] {
      var a := actions[0];
      if Enabled(s, a) {
        StepKeeps(s, a);
        ClosedStep(s, a);
        ClosedForGood(Do(s, a), actions[1..]);
      } else {
        ClosedForGood(s, actions[1..]);
      }
    }
  }

  lemma ClosedStep(s: System, a: Action)
    requires Good(s) && s.buffer.writerClosed && s.writer.NoWrite? && Enabled(s, a)
    ensures var t := Do(s, a); Inserted(t) == Inserted(s) && t.buffer.writerClosed && t.writer.NoWrite?
  {
    if a.CallWrite? {
      BeginInserts(s, a.source, a.writeTimed);
    }
  }

  /** What a successful short read tells: the write end is closed, and all bytes put in were delivered. */
  lemma ShortReadIsEnd(s: System, actions: seq<Action>)
    requires Good(s) && Enabled(s, RunRead)
    requires var t := Do(s, RunRead);
      t.reader.NoRead? && var r := t.readLog[|s.readLog|]; r.er == Success && |r.got| < r.want
    ensures var t := Do(s, RunRead);
      && t.buffer.writerClosed && t.buffer.storage == [] && Good(t) && Inserted(t) == Delivered(t)
      && (s.writer.NoWrite? ==> Inserted(Run(t, actions)) == Delivered(t))
  {
    StepKeeps(s, RunRead);
    var t := Do(s, RunRead);
    if s.writer.NoWrite? {
      ClosedForGood(t, actions);
    }
  }

  // ---------- progress ----------

  predicate IsSection(a: Action) {
    a.RunWrite? || a.RunRead?
  }

  /** What is left to do: bytes to move, and threads to put to rest. */
  function Effort(s: System): int {
    (if s.writer.Writing? then 3 * (|s.writer.data| - s.writer.done) + (if s.buffer.writerAsleep then 1 else 2)
      else 0) +
    (if s.reader.Reading? then 3 * (s.reader.want - |s.reader.got|) + (if s.buffer.readerAsleep then 1 else 2) else 0)
  }

  /** Every section that runs brings the two calls closer to their end or to sleep. */
  lemma SectionsEnd(s: System, a: Action)
    requires Good(s) && IsSection(a) && Enabled(s, a)
    ensures 0 <= Effort(Do(s, a)) < Effort(s)
  {
  }

  /** No section can run. */
  predicate AtRest(s: System) {
    !Enabled(s, RunWrite) && !Enabled(s, RunRead)
  }

  /** Both ends are open and the reader wants exactly what is stored or still to be written. */
  predicate Matched(s: System) {
    && !s.buffer.readerClosed && !s.buffer.writerClosed
    && (if s.writer.Writing? then |s.writer.data| - s.writer.done else 0) + |s.buffer.storage|
       == if s.reader.Reading? then s.reader.want - |s.reader.got| else 0
  }

  /** The reports the two calls should end with. */
  function DueWrites(s: System): seq<Written> {
    s.writeLog + if s.writer.Writing? then [Written(s.writer.data, |s.writer.data|, Success)] else []
  }

  function DueReads(s: System): seq<Read>
    requires Calls(s)
  {
    s.readLog +
    if s.reader.Reading? then
      [Read(s.reader.want,
            s.reader.got + s.buffer.storage + if s.writer.Writing? then s.writer.data[s.writer.done..] else [],
            Success)]
    else []
  }

  lemma MatchedWriter(s: System)
    requires Good(s) && Matched(s) && Enabled(s, RunWrite)
    ensures Matched(WriterRuns(s)) && Calls(WriterRuns(s))
    ensures DueWrites(WriterRuns(s)) == DueWrites(s) && DueReads(WriterRuns(s)) == DueReads(s)
  {
    var data, done := s.writer.data, s.writer.done;
    var n := Accepted(s.buffer, data, done);
    assert data[done..] == data[done..done + n] + data[done + n..];
    if s.reader.Reading? {
      var got, storage := s.reader.got, s.buffer.storage;
      assert got + storage + data[done..] == got + (storage + data[done..done + n]) + data[done + n..];
    }
  }

  lemma MatchedReader(s: System)
    requires Good(s) && Matched(s) && Enabled(s, RunRead)
    ensures Matched(ReaderRuns(s)) && Calls(ReaderRuns(s))
    ensures DueWrites(ReaderRuns(s)) == DueWrites(s) && DueReads(ReaderRuns(s)) == DueReads(s)
  {
    var got, storage := s.reader.got, s.buffer.storage;
    var n := Min(s.reader.want - |got|, |storage|);
    assert n == |storage| && storage[..n] == storage && storage[n..] == [];
    assert got + storage + [] == got + storage;
  }

  lemma MatchedStep(s: System, a: Action)
    requires Good(s) && Matched(s) && IsSection(a) && Enabled(s, a)
    ensures Good(Do(s, a)) && Matched(Do(s, a)) && Do(s, a).buffer.maxSize == s.buffer.maxSize
    ensures DueWrites(Do(s, a)) == DueWrites(s) && DueReads(Do(s, a)) == DueReads(s)
  {
    StepKeeps(s, a);
    if a.RunWrite? {
      MatchedWriter(s);
    } else {
      MatchedReader(s);
    }
  }

  /**
   Two matched calls that cannot go on have both ended, if there is any room in the buffer:
   successfully, the read with the bytes stored before and those of the write.
   */
  lemma {:induction false} MatchedCallsEnd(s: System, actions: seq<Action>)
    requires Good(s) && Matched(s) && s.buffer.maxSize > 0
    requires (forall a :: a in actions ==> IsSection(a)) && AtRest(Run(s, actions))
    ensures var t := Run(s, actions);
      && t.writer.NoWrite? && t.reader.NoRead? && t.buffer.storage == []
      && t.writeLog == DueWrites(s) && t.readLog == DueReads(s)
    decreases |actions|
  {
    if actions == [] {
      assert !BothAsleep(s);
    } else if Enabled(s, actions[0]) {
      MatchedStep(s, actions[0]);
      MatchedCallsEnd(Do(s, actions[0]), actions[1..]);
    } else {
      MatchedCallsEnd(s, actions[1..]);
    }
  }

  // ---------- which calls are refused ----------

  /** Some call closes the read end, or the write end. */
  ghost predicate ClosedBy(actions: seq<Action>, read: bool) {
    exists a :: a in actions && a.CloseEnds? && (if read then a.read else a.write)
  }

  lemma ClosedByFirst(actions: seq<Action>, read: bool)
    requires actions != []
    ensures ClosedBy(actions, read) <==>
      (actions[0].CloseEnds? && (if read then actions[0].read else actions[0].write)) || ClosedBy(actions[1..], read)
  {
    assert forall a :: a in actions <==> a == actions[0] || a in actions[1..];
    assert actions[0] in actions;
  }

  lemma StepCloses(s: System, a: Action)
    requires Calls(s) && Enabled(s, a)
    ensures Do(s, a).buffer.readerClosed == (s.buffer.readerClosed || (a.CloseEnds? && a.read))
    ensures Do(s, a).buffer.writerClosed == (s.buffer.writerClosed || (a.CloseEnds? && a.write))
  {
  }

  /** An end is closed just when it was, or when a call in the run closed it. */
  lemma {:induction false} EndsClosed(s: System, actions: seq<Action>)
    requires Good(s)
    ensures Run(s, actions).buffer.readerClosed <==> s.buffer.readerClosed || ClosedBy(actions, true)
    ensures Run(s, actions).buffer.writerClosed <==> s.buffer.writerClosed || ClosedBy(actions, false)
    decreases |actions|
  {
    if actions != [] {
      ClosedByFirst(actions, true);
      ClosedByFirst(actions, false);
      if Enabled(s, actions[0]) {
        StepKeeps(s, actions[0]);
        StepCloses(s, actions[0]);
        EndsClosed(Do(s, actions[0]), actions[1..]);
      } else {
        EndsClosed(s, actions[1..]);
      }
    }
  }

  /** With the end closed, or a null pointer, a call is refused at once, and nothing moves. */
  lemma ClosedEndRefuses(s: System, data: seq<Byte>, want: nat, timed: bool)
    requires Good(s)
    ensures s.writer.NoWrite? ==>
      Do(s, CallWrite(None, timed)) == s.(writeLog := s.writeLog + [Written([], 0, InvalidParameter)])
    ensures s.reader.NoRead? ==>
      Do(s, CallRead(None, timed)) == s.(readLog := s.readLog + [Read(0, [], InvalidParameter)])
    ensures s.writer.NoWrite? && s.buffer.writerClosed ==>
      Do(s, CallWrite(Some(data), timed)) == s.(writeLog := s.writeLog + [Written(data, 0, NetworkError)])
    ensures s.reader.NoRead? && s.buffer.readerClosed ==>
      Do(s, CallRead(Some(want), timed)) == s.(readLog := s.readLog + [Read(want, [], NetworkError)])
  {
  }

  /** A read in progress, or the report of it, at place `n` of the log. */
  ghost predicate ReadServed(t: System, n: nat, want: nat, timed: bool) {
    if |t.readLog| == n then t.reader.Reading? && t.reader.want == want && t.reader.timed == timed
    else |t.readLog| > n && var r := t.readLog[n]; r.want == want && (r.er == Success || (timed && r.er == Timeout))
  }

  lemma ReadServedStep(t: System, a: Action, n: nat, want: nat, timed: bool)
    requires Good(t) && Enabled(t, a) && ReadServed(t, n, want, timed)
    ensures ReadServed(Do(t, a), n, want, timed)
  {
  }

  lemma {:induction false} ReadServedRun(t: System, actions: seq<Action>, n: nat, want: nat, timed: bool)
    requires Good(t) && ReadServed(t, n, want, timed)
    ensures ReadServed(Run(t, actions), n, want, timed)
    decreases |actions|
  {
    if actions != [] {
      if Enabled(t, actions[0]) {
        StepKeeps(t, actions[0]);
        ReadServedStep(t, actions[0], n, want, timed);
        ReadServedRun(Do(t, actions[0]), actions[1..], n, want, timed);
      } else {
        ReadServedRun(t, actions[1..], n, want, timed);
      }
    }
  }

  /**
   A read call made while the read end is open is never refused, whatever happens to the write
   end and later: it is in progress, or was successful, or its time ran out.
   */
  lemma OpenReadServed(s: System, want: nat, timed: bool, actions: seq<Action>)
    requires Good(s) && s.reader.NoRead? && !s.buffer.readerClosed
    ensures var t := Do(s, CallRead(Some(want), timed));
      Good(t) && ReadServed(Run(t, actions), |s.readLog|, want, timed)
  {
    StepKeeps(s, CallRead(Some(want), timed));
    ReadServedRun(Do(s, CallRead(Some(want), timed)), actions, |s.readLog|, want, timed);
  }

  /** A write in progress, or the report of it; it is refused only once the read end is closed. */
  ghost predicate WriteServed(t: System, n: nat, data: seq<Byte>, timed: bool) {
    if |t.writeLog| == n then t.writer.Writing? && t.writer.data == data && t.writer.timed == timed
    else
      && |t.writeLog| > n
      && var w := t.writeLog[n];
      && w.data == data && w.er != InvalidParameter
      && (w.er == NetworkError ==> t.buffer.readerClosed) && (w.er == Timeout ==> timed)
  }

  lemma WriteServedStep(t: System, a: Action, n: nat, data: seq<Byte>, timed: bool)
    requires Good(t) && Enabled(t, a) && WriteServed(t, n, data, timed)
    ensures WriteServed(Do(t, a), n, data, timed)
  {
  }

  lemma {:induction false} WriteServedRun(t: System, actions: seq<Action>, n: nat, data: seq<Byte>, timed: bool)
    requires Good(t) && WriteServed(t, n, data, timed)
    ensures WriteServed(Run(t, actions), n, data, timed)
    decreases |actions|
  {
    if actions != [] {
      if Enabled(t, actions[0]) {
        StepKeeps(t, actions[0]);
        WriteServedStep(t, actions[0], n, data, timed);
        WriteServedRun(Do(t, actions[0]), actions[1..], n, data, timed);
      } else {
        WriteServedRun(t, actions[1..], n, data, timed);
      }
    }
  }

  /** A write call made while the write end is open is refused only if the read end is closed. */
  lemma OpenWriteServed(s: System, data: seq<Byte>, timed: bool, actions: seq<Action>)
    requires Good(s) && s.writer.NoWrite? && !s.buffer.writerClosed
    ensures var t := Do(s, CallWrite(Some(data), timed));
      Good(t) && WriteServed(Run(t, actions), |s.writeLog|, data, timed)
  {
    StepKeeps(s, CallWrite(Some(data), timed));
    WriteServedRun(Do(s, CallWrite(Some(data), timed)), actions, |s.writeLog|, data, timed);
  }

  // ---------- what is stored can be read ----------

  /** A read took the first `n` bytes of the storage and is over. */
  ghost predicate TookFirst(s: System, t: System, want: nat, n: nat)
    requires n <= |s.buffer.storage|
  {
    && t.reader.NoRead? && t.readLog == s.readLog + [Read(want, s.buffer.storage[..n], Success)]
    && t.buffer.storage == s.buffer.storage[n..] && t.writer == s.writer && t.writeLog == s.writeLog
    && t.buffer.readerClosed == s.buffer.readerClosed && t.buffer.writerClosed == s.buffer.writerClosed
  }

  lemma SectionTakes(s: System)
    requires Calls(s) && s.reader.Reading? && s.reader.got == []
    requires s.reader.want <= |s.buffer.storage| || s.buffer.writerClosed
    ensures TookFirst(s, ReaderRuns(s), s.reader.want, Min(s.reader.want, |s.buffer.storage|))
  {
    var first := s.buffer.storage[..Min(s.reader.want, |s.buffer.storage|)];
    assert s.reader.got + first == first;
  }

  /** A call and its first section; a call for nothing has no section. */
  lemma CallAndSection(s: System, want: nat, timed: bool)
    requires Good(s) && s.reader.NoRead? && !s.buffer.readerClosed
    ensures var t := Do(s, CallRead(Some(want), timed));
      && (want > 0 ==> Calls(t) && Enabled(t, RunRead))
      && Run(s, [CallRead(Some(want), timed), RunRead]) == if want == 0 then t else Do(t, RunRead)
  {
    var call := CallRead(Some(want), timed);
    RunFirst(s, call, [RunRead]);
    assert [call, RunRead] == [call] + [RunRead] && [RunRead][1..] == [];
    if want > 0 {
      RunFirst(Do(s, call), RunRead, []);
      assert [RunRead] + [] == [RunRead];
    }
  }

  /** A read that finds enough, or the write end closed, ends at once with the first bytes of the storage. */
  lemma ReadStored(s: System, want: nat, timed: bool)
    requires Good(s) && s.reader.NoRead? && !s.buffer.readerClosed
    requires want <= |s.buffer.storage| || s.buffer.writerClosed
    ensures TookFirst(s, Run(s, [CallRead(Some(want), timed), RunRead]), want, Min(want, |s.buffer.storage|))
  {
    CallAndSection(s, want, timed);
    if want == 0 {
      assert s.buffer.storage[0..] == s.buffer.storage && s.buffer.storage[..0] == [];
    } else {
      var c := s.(reader := Reading(want, [], timed, false));
      assert Do(s, CallRead(Some(want), timed)) == c && Do(c, RunRead) == ReaderRuns(c);
      SectionTakes(c);
    }
  }

  /** One read after the other. */
  function Reads(wants: seq<nat>): seq<Action> {
    if wants == [] then [] else [CallRead(Some(wants[0]), true), RunRead] + Reads(wants[1..])
  }

  function Asked(wants: seq<nat>): nat {
    if wants == [] then 0 else wants[0] + Asked(wants[1..])
  }

  lemma {:induction false} RunTogether(s: System, a: seq<Action>, b: seq<Action>)
    requires Good(s)
    ensures Run(s, a + b) == Run(Run(s, a), b)
    decreases |a|
  {
    if a == [] {
      assert a + b == b;
    } else {
      assert (a + b)[1..] == a[1..] + b;
      if Enabled(s, a[0]) {
        StepKeeps(s, a[0]);
        RunTogether(Do(s, a[0]), a[1..], b);
      } else {
        RunTogether(s, a[1..], b);
      }
    }
  }

  /** The reports of reads of given sizes from a storage that gets no more. */
  ghost function Drained(storage: seq<Byte>, wants: seq<nat>): seq<Read> {
    if wants == [] then []
    else
      var n := Min(wants[0], |storage|);
      [Read(wants[0], storage[..n], Success)] + Drained(storage[n..], wants[1..])
  }

  /**
   After the write end was closed and the last write has ended, reads of any sizes deliver what
   is stored; if they ask for enough, all that was ever put in has been delivered.
   */
  lemma {:induction false} ReadsDrain(s: System, wants: seq<nat>)
    requires Good(s) && s.reader.NoRead? && s.writer.NoWrite? && !s.buffer.readerClosed && s.buffer.writerClosed
    ensures var t := Run(s, Reads(wants));
      && t.reader.NoRead? && t.writer.NoWrite? && t.readLog == s.readLog + Drained(s.buffer.storage, wants)
      && t.buffer.storage == s.buffer.storage[Min(Asked(wants), |s.buffer.storage|)..]
      && t.writeLog == s.writeLog
    decreases |wants|
  {
    if wants == [] {
      assert s.buffer.storage[0..] == s.buffer.storage;
    } else {
      var one := [CallRead(Some(wants[0]), true), RunRead];
      ReadStored(s, wants[0], true);
      ReadsDrain(Run(s, one), wants[1..]);
      RunTogether(s, one, Reads(wants[1..]));
      DrainedMore(s.readLog, s.buffer.storage, wants);
    }
  }

  lemma DrainedMore(log: seq<Read>, storage: seq<Byte>, wants: seq<nat>)
    requires wants != []
    ensures var n, rest := Min(wants[0], |storage|), wants[1..];
      && (log + [Read(wants[0], storage[..n], Success)]) + Drained(storage[n..], rest) == log + Drained(storage, wants)
      && storage[n..][Min(Asked(rest), |storage[n..]|)..] == storage[Min(Asked(wants), |storage|)..]
  {
    var n, rest := Min(wants[0], |storage|), wants[1..];
    var first := [Read(wants[0], storage[..n], Success)];
    ReadsAssoc(log, first, Drained(storage[n..], rest));
    assert Drained(storage, wants) == first + Drained(storage[n..], rest);
    DropTwice(storage, n, Min(Asked(rest), |storage| - n));
  }

  lemma ReadsAssoc(a: seq<Read>, b: seq<Read>, c: seq<Read>)
    ensures (a + b) + c == a + (b + c)
  {
  }

  lemma DropTwice(s: seq<Byte>, n: nat, m: nat)
    requires n + m <= |s|
    ensures s[n..][m..] == s[n + m..]
  {
  }

  /** So if the reads ask for enough, all that was ever put in has been delivered. */
  lemma AllDelivered(s: System, wants: seq<nat>)
    requires Good(s) && s.reader.NoRead? && s.writer.NoWrite? && !s.buffer.readerClosed && s.buffer.writerClosed
    requires Asked(wants) >= |s.buffer.storage|
    ensures Delivered(Run(s, Reads(wants))) == Inserted(s)
  {
    ReadsDrain(s, wants);
    assert Inserted(Run(s, Reads(wants))) == Inserted(s);
  }
}
