/**
 Two serializers at the ends of one buffer: a thread that writes arrays, one call of the buffer
 behind the other, and a thread that reads them, in every interleaving of their sections.
 */
module SerializerRuns {
  import opened Options
  import opened Bytes
  import opened Fifo
  import opened FifoRuns
  import opened Serializer

  /** The buffer, the calls that its writer has still to make, and the sizes its reader has still to read. */
  datatype Session = Session(system: System, calls: seq<seq<Byte>>, wants: seq<nat>)

  /** The two threads go on, or something else happens to the buffer. */
  datatype Move = WriterMoves | ReaderMoves | Happens(action: Action)

  /** All calls of the buffer that some items need. */
  function CallsOf(little: bool, items: seq<Item>): seq<seq<Byte>> {
    if items == [] then []
    else
      var last := items[|items| - 1];
      CallsOf(little, items[..|items| - 1]) + WriteCalls(little, last.size, last.mem)
  }

  /** The number of bytes that each item is read with. */
  function Sizes(items: seq<Item>): (sizes: seq<nat>)
    ensures |sizes| == |items|
  {
    if items == [] then [] else Sizes(items[..|items| - 1]) + [|items[|items| - 1].mem|]
  }

  ghost function Begin(maxSize: nat, little: bool, items: seq<Item>): (x: Session)
    ensures Good(x.system)
  {
    FifoRuns.StartIsGood(maxSize);
    Session(FifoRuns.Start(maxSize), CallsOf(little, items), Sizes(items))
  }

  /** A thread makes no further call after one that failed. */
  predicate WritesWell(log: seq<Written>) {
    log == [] || log[|log| - 1].er == Fifo.Success
  }

  predicate ReadsWell(log: seq<Read>) {
    log == [] || log[|log| - 1].er == Fifo.Success
  }

  /** What may happen beside the two threads: a deadline, an end that is closed, a wakeup, a lack of memory. */
  predicate FromOutside(a: Action) {
    !a.CallWrite? && !a.RunWrite? && !a.CallRead? && !a.RunRead?
  }

  predicate CanMove(x: Session, m: Move) {
    match m
    case WriterMoves =>
      Enabled(x.system, RunWrite) || (x.system.writer.NoWrite? && x.calls != [] && WritesWell(x.system.writeLog))
    case ReaderMoves =>
      Enabled(x.system, RunRead) || (x.system.reader.NoRead? && x.wants != [] && ReadsWell(x.system.readLog))
    case Happens(a) => FromOutside(a) && Enabled(x.system, a)
  }

  /** The action of a move. */
  function ActionOf(x: Session, m: Move): Action
    requires CanMove(x, m)
  {
    match m
    case WriterMoves => if x.system.writer.Writing? then RunWrite else CallWrite(Some(x.calls[0]), true)
    case ReaderMoves => if x.system.reader.Reading? then RunRead else CallRead(Some(x.wants[0]), true)
    case Happens(a) => a
  }

  function Moved(x: Session, m: Move): Session
    requires Calls(x.system) && CanMove(x, m)
  {
    Session(Do(x.system, ActionOf(x, m)),
            if ActionOf(x, m).CallWrite? then x.calls[1..] else x.calls,
            if ActionOf(x, m).CallRead? then x.wants[1..] else x.wants)
  }

  /** A session goes on; a move that is not possible is passed over. */
  ghost function After(x: Session, moves: seq<Move>): (y: Session)
    requires Good(x.system)
    ensures Good(y.system)
    decreases |moves|
  {
    if moves == [] then x
    else if CanMove(x, moves[0]) then
      StepKeeps(x.system, ActionOf(x, moves[0]));
      After(Moved(x, moves[0]), moves[1..])
    else After(x, moves[1..])
  }

  // ---------- the calls of a thread ----------

  /** The data of the calls that were made, in order, the one in progress included. */
  function Made(x: Session): seq<seq<Byte>> {
    seq(|x.system.writeLog|, i requires 0 <= i < |x.system.writeLog| => x.system.writeLog[i].data) +
    if x.system.writer.Writing? then [x.system.writer.data] else []
  }

  /** Only the last call may have failed, and then none is in progress. */
  ghost predicate StopsAtFailure(x: Session) {
    && (forall i :: 0 <= i < |x.system.writeLog| - 1 ==> x.system.writeLog[i].er == Fifo.Success)
    && (x.system.writer.Writing? ==> WritesWell(x.system.writeLog))
  }

  /** What one action does to the calls of the writer: none, or the one in progress ends. */
  lemma NoCallMade(s: System, a: Action)
    requires Calls(s) && Enabled(s, a) && !a.CallWrite?
    ensures var t := Do(s, a);
      || (t.writeLog == s.writeLog && t.writer.Writing? == s.writer.Writing? &&
          (t.writer.Writing? ==> t.writer.data == s.writer.data))
      || (s.writer.Writing? && t.writer.NoWrite? &&
          |t.writeLog| == |s.writeLog| + 1 && t.writeLog[..|s.writeLog|] == s.writeLog &&
          t.writeLog[|s.writeLog|].data == s.writer.data)
  {
  }

  lemma CallsKept(x: Session, m: Move)
    requires Good(x.system) && CanMove(x, m) && StopsAtFailure(x)
    ensures StopsAtFailure(Moved(x, m)) && Made(Moved(x, m)) + Moved(x, m).calls == Made(x) + x.calls
  {
    var y := Moved(x, m);
    if ActionOf(x, m).CallWrite? {
      assert x.calls == [x.calls[0]] + x.calls[1..];
      assert Made(y) == Made(x) + [x.calls[0]];
    } else {
      NoCallMade(x.system, ActionOf(x, m));
      assert Made(y) == Made(x);
    }
  }

  /**
   Whatever happens, the calls made are the first ones of those due, and all but the last one
   were successful.
   */
  lemma {:induction false} CallsAreDue(x: Session, moves: seq<Move>)
    requires Good(x.system) && StopsAtFailure(x)
    ensures var y := After(x, moves); StopsAtFailure(y) && Made(y) + y.calls == Made(x) + x.calls
    decreases |moves|
  {
    if moves != [] {
      if CanMove(x, moves[0]) {
        StepKeeps(x.system, ActionOf(x, moves[0]));
        CallsKept(x, moves[0]);
        CallsAreDue(Moved(x, moves[0]), moves[1..]);
      } else {
        CallsAreDue(x, moves[1..]);
      }
    }
  }

  /** How the calls in a log were answered. */
  function Answers(log: seq<Written>): nat -> Fifo.Status {
    (x: nat) => if x < |log| then log[x].er else Fifo.Success
  }

  /** In every session the calls of the writer are as `FifoSerializer.Write` promises, with the answers of the log. */
  lemma CallsAsPromised(maxSize: nat, little: bool, items: seq<Item>, moves: seq<Move>)
    ensures var y := After(Begin(maxSize, little, items), moves);
      UpToFailure(CallsOf(little, items), Made(y), Answers(y.system.writeLog))
  {
    var x := Begin(maxSize, little, items);
    assert Made(x) == [] && Made(x) + x.calls == x.calls;
    CallsAreDue(x, moves);
  }

  // ---------- both ends finish ----------

  function Sum(wants: seq<nat>): nat {
    if wants == [] then 0 else wants[0] + Sum(wants[1..])
  }

  /** The bytes that are stored or still to be written. */
  function Coming(x: Session): seq<Byte> {
    x.system.buffer.storage + (Unwritten(x.system.writer) + Flat(x.calls))
  }

  function Unwritten(w: Writer): seq<Byte> {
    if w.Writing? && w.done <= |w.data| then w.data[w.done..] else []
  }

  /** What the read in progress still wants. */
  function Lacking(s: System): nat
    requires Calls(s)
  {
    if s.reader.Reading? then s.reader.want - |s.reader.got| else 0
  }

  /** Both ends are open, nothing has failed, and the reader wants what is coming. */
  predicate Agreed(x: Session) {
    && Calls(x.system) && !x.system.buffer.readerClosed && !x.system.buffer.writerClosed
    && WritesWell(x.system.writeLog) && ReadsWell(x.system.readLog)
    && |Coming(x)| == Lacking(x.system) + Sum(x.wants)
  }

  /** Successful reads of the given sizes cut a stream in pieces. */
  function Cut(stream: seq<Byte>, wants: seq<nat>): seq<Read>
    requires |stream| >= Sum(wants)
  {
    if wants == [] then []
    else [Read(wants[0], stream[..wants[0]], Fifo.Success)] + Cut(stream[wants[0]..], wants[1..])
  }

  /** The reports with which all calls should end. */
  function DueWrites(x: Session): seq<Written> {
    FifoRuns.DueWrites(x.system) + Logged(x.calls)
  }

  function DueReads(x: Session): seq<Read>
    requires Agreed(x)
  {
    x.system.readLog + Outstanding(x.system.reader, Coming(x), x.wants)
  }

  predicate Reaches(reader: Reader, stream: seq<Byte>, wants: seq<nat>) {
    if reader.Reading? then |reader.got| <= reader.want && |stream| >= reader.want - |reader.got| + Sum(wants)
    else |stream| >= Sum(wants)
  }

  /** The reports of the read in progress and of those to come. */
  function Outstanding(reader: Reader, stream: seq<Byte>, wants: seq<nat>): seq<Read>
    requires Reaches(reader, stream, wants)
  {
    if reader.NoRead? then Cut(stream, wants)
    else
      var n := reader.want - |reader.got|;
      [Read(reader.want, reader.got + stream[..n], Fifo.Success)] + Cut(stream[n..], wants)
  }

  /** A move of one of the threads, or a wakeup. */
  predicate Undisturbed(m: Move) {
    m.WriterMoves? || m.ReaderMoves? || m.action.WakeWriter? || m.action.WakeReader?
  }

  /** The two threads still have to come to the same end. */
  ghost predicate SameEnd(x: Session, y: Session) {
    && Agreed(x) && Agreed(y) && DueWrites(x) == DueWrites(y) && DueReads(x) == DueReads(y)
    && x.system.buffer.maxSize == y.system.buffer.maxSize
  }

  lemma WriterCalls(x: Session)
    requires Good(x.system) && Agreed(x) && CanMove(x, WriterMoves) && x.system.writer.NoWrite?
    ensures SameEnd(x, Moved(x, WriterMoves))
  {
    var y := Moved(x, WriterMoves);
    var first, rest := x.calls[0], x.calls[1..];
    assert Coming(y) == Coming(x);
    assert Logged(x.calls) == [Written(first, |first|, Fifo.Success)] + Logged(rest);
  }

  lemma MovedOver(w: Writer, after: Writer, storage: seq<Byte>, more: seq<Byte>, n: nat, behind: seq<Byte>)
    requires w.Writing? && w.done + n <= |w.data| && more == storage + w.data[w.done..w.done + n]
    requires Unwritten(after) == w.data[w.done + n..]
    ensures more + (Unwritten(after) + behind) == storage + (Unwritten(w) + behind)
  {
    assert w.data[w.done..] == w.data[w.done..w.done + n] + w.data[w.done + n..];
  }

  lemma WriterPuts(s: System, n: nat)
    requires Good(s) && s.writer.Writing? && !s.buffer.readerClosed
    requires n == Accepted(s.buffer, s.writer.data, s.writer.done)
    ensures var t := WriterRuns(s);
      && t.buffer.storage == s.buffer.storage + s.writer.data[s.writer.done..s.writer.done + n]
      && Unwritten(t.writer) == s.writer.data[s.writer.done + n..]
  {
  }

  lemma WriterComes(x: Session)
    requires Good(x.system) && Agreed(x) && Enabled(x.system, RunWrite)
    ensures Coming(Moved(x, WriterMoves)) == Coming(x)
  {
    var s, t := x.system, WriterRuns(x.system);
    var n := Accepted(s.buffer, s.writer.data, s.writer.done);
    WriterPuts(s, n);
    MovedOver(s.writer, t.writer, s.buffer.storage, t.buffer.storage, n, Flat(x.calls));
    assert Moved(x, WriterMoves) == x.(system := t);
  }

  lemma WriterReports(s: System)
    requires Good(s) && Enabled(s, RunWrite) && !s.buffer.readerClosed && WritesWell(s.writeLog)
    ensures FifoRuns.DueWrites(Do(s, RunWrite)) == FifoRuns.DueWrites(s) && WritesWell(Do(s, RunWrite).writeLog)
  {
  }

  lemma WriterGoesOn(x: Session)
    requires Good(x.system) && Agreed(x) && Enabled(x.system, RunWrite)
    ensures SameEnd(x, Moved(x, WriterMoves))
  {
    StepControls(x.system, RunWrite);
    WriterComes(x);
    WriterReports(x.system);
  }

  lemma CallOutstanding(log: seq<Read>, stream: seq<Byte>, wants: seq<nat>)
    requires wants != [] && |stream| >= Sum(wants)
    ensures var w, rest := wants[0], wants[1..];
      log + Outstanding(NoRead, stream, wants)
      == if w == 0 then (log + [Read(0, [], Fifo.Success)]) + Outstanding(NoRead, stream, rest)
         else log + Outstanding(Reading(w, [], true, false), stream, rest)
  {
    var w := wants[0];
    assert w == 0 ==> stream[..w] == [] && stream[w..] == stream;
    assert [] + stream[..w] == stream[..w];
  }

  lemma ReaderCalls(x: Session)
    requires Good(x.system) && Agreed(x) && CanMove(x, ReaderMoves) && x.system.reader.NoRead?
    ensures SameEnd(x, Moved(x, ReaderMoves))
  {
    assert Coming(Moved(x, ReaderMoves)) == Coming(x);
    CallOutstanding(x.system.readLog, Coming(x), x.wants);
  }

  /** What a read in progress took makes no difference to its report. */
  lemma TakenOutstanding(r: Reader, stream: seq<Byte>, wants: seq<nat>, n: nat)
    requires r.Reading? && Reaches(r, stream, wants) && n <= r.want - |r.got|
    ensures Reaches(r.(got := r.got + stream[..n]), stream[n..], wants)
    ensures Outstanding(r.(got := r.got + stream[..n]), stream[n..], wants) == Outstanding(r, stream, wants)
  {
    var m := r.want - |r.got|;
    assert stream[n..][..m - n] == stream[n..m] && stream[..m] == stream[..n] + stream[n..m];
    assert r.got + stream[..n] + stream[n..m] == r.got + stream[..m];
    assert stream[n..][m - n..] == stream[m..];
  }

  lemma CutFront(storage: seq<Byte>, behind: seq<Byte>, n: nat)
    requires n <= |storage|
    ensures (storage + behind)[n..] == storage[n..] + behind && (storage + behind)[..n] == storage[..n]
  {
  }

  lemma ReaderTakes(x: Session, n: nat)
    requires Good(x.system) && Agreed(x) && Enabled(x.system, RunRead)
    requires n == Min(Lacking(x.system), |x.system.buffer.storage|)
    ensures n <= |Coming(x)| && Coming(Moved(x, ReaderMoves)) == Coming(x)[n..]
    ensures x.system.buffer.storage[..n] == Coming(x)[..n]
  {
    CutFront(x.system.buffer.storage, Unwritten(x.system.writer) + Flat(x.calls), n);
  }

  lemma ReaderReports(s: System, n: nat)
    requires Good(s) && Enabled(s, RunRead) && !s.buffer.writerClosed && n == Min(Lacking(s), |s.buffer.storage|)
    ensures var t, got := Do(s, RunRead), s.reader.got + s.buffer.storage[..n];
      if |got| == s.reader.want
      then t.reader.NoRead? && t.readLog == s.readLog + [Read(s.reader.want, got, Fifo.Success)]
      else t.reader == s.reader.(got := got, waited := true) && t.readLog == s.readLog
  {
  }

  lemma EndOutstanding(log: seq<Read>, r: Reader, stream: seq<Byte>, wants: seq<nat>)
    requires r.Reading? && |r.got| == r.want && Reaches(r, stream, wants)
    ensures log + Outstanding(r, stream, wants)
         == (log + [Read(r.want, r.got, Fifo.Success)]) + Outstanding(NoRead, stream, wants)
  {
    assert r.got + stream[..0] == r.got && stream[0..] == stream;
  }

  /** A section of the reader leaves the outstanding reports as they are. */
  lemma SameOutstanding(s: System, t: System, n: nat, coming: seq<Byte>, wants: seq<nat>)
    requires s.reader.Reading? && Reaches(s.reader, coming, wants) && n <= s.reader.want - |s.reader.got|
    requires var got := s.reader.got + coming[..n];
      if |got| == s.reader.want
      then t.reader.NoRead? && t.readLog == s.readLog + [Read(s.reader.want, got, Fifo.Success)]
      else t.reader == s.reader.(got := got, waited := true) && t.readLog == s.readLog
    ensures Reaches(t.reader, coming[n..], wants)
    ensures t.readLog + Outstanding(t.reader, coming[n..], wants) == s.readLog + Outstanding(s.reader, coming, wants)
  {
    var taken := s.reader.(got := s.reader.got + coming[..n]);
    TakenOutstanding(s.reader, coming, wants, n);
    if |taken.got| == taken.want {
      EndOutstanding(s.readLog, taken, coming[n..], wants);
    }
  }

  lemma ReaderAgrees(x: Session)
    requires Good(x.system) && Agreed(x) && Enabled(x.system, RunRead)
    ensures Agreed(Moved(x, ReaderMoves))
  {
    var n := Min(Lacking(x.system), |x.system.buffer.storage|);
    StepControls(x.system, RunRead);
    ReaderTakes(x, n);
    ReaderReports(x.system, n);
  }

  lemma ReaderGoesOn(x: Session)
    requires Good(x.system) && Agreed(x) && Enabled(x.system, RunRead)
    ensures SameEnd(x, Moved(x, ReaderMoves))
  {
    var s, n := x.system, Min(Lacking(x.system), |x.system.buffer.storage|);
    ReaderAgrees(x);
    ReaderTakes(x, n);
    ReaderReports(s, n);
    SameOutstanding(s, Do(s, RunRead), n, Coming(x), x.wants);
    assert Moved(x, ReaderMoves) == x.(system := Do(s, RunRead));
  }

  lemma UndisturbedStep(x: Session, m: Move)
    requires Good(x.system) && Agreed(x) && CanMove(x, m) && Undisturbed(m)
    ensures SameEnd(x, Moved(x, m)) && Good(Moved(x, m).system)
  {
    StepKeeps(x.system, ActionOf(x, m));
    match m
    case WriterMoves =>
      if x.system.writer.Writing? { WriterGoesOn(x); } else { WriterCalls(x); }
    case ReaderMoves =>
      if x.system.reader.Reading? { ReaderGoesOn(x); } else { ReaderCalls(x); }
    case Happens(a) =>
  }

  lemma {:induction false} UndisturbedRun(x: Session, moves: seq<Move>)
    requires Good(x.system) && Agreed(x) && forall m :: m in moves ==> Undisturbed(m)
    ensures SameEnd(x, After(x, moves))
    decreases |moves|
  {
    if moves != [] {
      if CanMove(x, moves[0]) {
        UndisturbedStep(x, moves[0]);
        UndisturbedRun(Moved(x, moves[0]), moves[1..]);
      } else {
        UndisturbedRun(x, moves[1..]);
      }
    }
  }

  /** Neither thread can go on. */
  predicate Still(x: Session) {
    !CanMove(x, WriterMoves) && !CanMove(x, ReaderMoves)
  }

  /** No call is in progress or still to be made, and no byte is left over. */
  predicate Finished(x: Session) {
    && x.system.writer.NoWrite? && x.calls == [] && x.system.reader.NoRead? && x.wants == []
    && x.system.buffer.storage == []
  }

  /** With any room in the buffer, or no bytes to move, threads that agree and cannot go on have finished. */
  lemma StillMeansDone(x: Session)
    requires Good(x.system) && Agreed(x) && Still(x) && (x.system.buffer.maxSize > 0 || Coming(x) == [])
    ensures Finished(x) && x.system.writeLog == DueWrites(x) && x.system.readLog == DueReads(x)
  {
  }

  /** Nothing moves through a buffer without room. */
  lemma NoRoomStep(x: Session, m: Move)
    requires Good(x.system) && Agreed(x) && CanMove(x, m) && Undisturbed(m) && x.system.buffer.maxSize == 0
    ensures Coming(Moved(x, m)) == Coming(x)
  {
    match m
    case WriterMoves =>
      if x.system.writer.Writing? { WriterComes(x); }
    case ReaderMoves =>
      if x.system.reader.Reading? { ReaderTakes(x, 0); }
    case Happens(a) =>
  }

  lemma {:induction false} NoRoomRun(x: Session, moves: seq<Move>)
    requires Good(x.system) && Agreed(x) && (forall m :: m in moves ==> Undisturbed(m))
    requires x.system.buffer.maxSize == 0
    ensures Coming(After(x, moves)) == Coming(x)
    decreases |moves|
  {
    if moves != [] {
      if CanMove(x, moves[0]) {
        UndisturbedStep(x, moves[0]);
        NoRoomStep(x, moves[0]);
        NoRoomRun(Moved(x, moves[0]), moves[1..]);
      } else {
        NoRoomRun(x, moves[1..]);
      }
    }
  }

  /** What is left to do in a session: in the calls in progress, and to make further ones. */
  function Work(x: Session): int {
    Effort(x.system) + 3 * (|Flat(x.calls)| + |x.calls| + Sum(x.wants) + |x.wants|)
  }

  /** The moves of the two threads come to an end. */
  lemma MovesEnd(x: Session, m: Move)
    requires Good(x.system) && (m.WriterMoves? || m.ReaderMoves?) && CanMove(x, m)
    ensures 0 <= Work(Moved(x, m)) < Work(x)
  {
    var a := ActionOf(x, m);
    if IsSection(a) {
      SectionsEnd(x.system, a);
    }
  }

  // ---------- whole arrays ----------

  lemma {:induction false} FlatTogether(a: seq<seq<Byte>>, b: seq<seq<Byte>>)
    ensures Flat(a + b) == Flat(a) + Flat(b)
  {
    if a == [] {
      assert a + b == b;
    } else {
      FlatTogether(a[1..], b);
      assert (a + b)[1..] == a[1..] + b && (a + b)[0] == a[0];
    }
  }

  lemma {:induction false} SumTogether(a: seq<nat>, b: seq<nat>)
    ensures Sum(a + b) == Sum(a) + Sum(b)
  {
    if a == [] {
      assert a + b == b;
    } else {
      SumTogether(a[1..], b);
      assert (a + b)[1..] == a[1..] + b && (a + b)[0] == a[0];
    }
  }

  /** The log that the calls for some items should leave, and the bytes they send. */
  lemma {:induction false} CallsLogged(little: bool, items: seq<Item>)
    ensures Logged(CallsOf(little, items)) == LogOf(little, items)
    ensures |Flat(CallsOf(little, items))| == Sum(Sizes(items))
  {
    if items != [] {
      var others, last := items[..|items| - 1], items[|items| - 1];
      var calls := WriteCalls(little, last.size, last.mem);
      CallsLogged(little, others);
      FlatTogether(CallsOf(little, others), calls);
      WireLength(little, last);
      SumTogether(Sizes(others), [|last.mem|]);
      assert Sum([|last.mem|]) == |last.mem| by { assert [|last.mem|][1..] == []; }
      assert Logged(CallsOf(little, others) + calls) == Logged(CallsOf(little, others)) + Logged(calls);
    }
  }

  lemma {:induction false} SizesAt(items: seq<Item>)
    ensures forall i :: 0 <= i < |items| ==> Sizes(items)[i] == |items[i].mem|
  {
    if items != [] {
      SizesAt(items[..|items| - 1]);
    }
  }

  /** Every piece is a successful read of its size. */
  lemma {:induction false} CutWell(stream: seq<Byte>, wants: seq<nat>)
    requires |stream| >= Sum(wants)
    ensures |Cut(stream, wants)| == |wants|
    ensures forall i :: 0 <= i < |wants| ==>
      var r := Cut(stream, wants)[i]; r.er == Fifo.Success && r.want == |r.got| == wants[i]
  {
    if wants != [] {
      CutWell(stream[wants[0]..], wants[1..]);
    }
  }

  lemma BeginAgrees(maxSize: nat, little: bool, items: seq<Item>)
    ensures var x := Begin(maxSize, little, items);
      && Agreed(x) && DueWrites(x) == LogOf(little, items)
      && DueReads(x) == Cut(Coming(x), Sizes(items))
  {
    var x := Begin(maxSize, little, items);
    CallsLogged(little, items);
    assert Coming(x) == Flat(x.calls);
  }

  /** All reads were successful and full ones, of the sizes of the items. */
  lemma AllRead(stream: seq<Byte>, items: seq<Item>)
    requires |stream| >= Sum(Sizes(items))
    ensures var log := Cut(stream, Sizes(items)); |log| == |items| && ReadLike(items, log)
  {
    CutWell(stream, Sizes(items));
    SizesAt(items);
  }

  lemma {:induction false} SizesTotal(items: seq<Item>)
    ensures Sum(Sizes(items)) == TotalSize(items)
  {
    if items != [] {
      SizesTotal(items[..|items| - 1]);
      SumTogether(Sizes(items[..|items| - 1]), [|items[|items| - 1].mem|]);
      assert [|items[|items| - 1].mem|][1..] == [];
    }
  }

  /** All calls for the items were successful, and every array arrived with its numbers. */
  ghost predicate AllArrived(s: System, writer: bool, reader: bool, items: seq<Item>) {
    && s.writeLog == LogOf(writer, items) && |s.readLog| == |items| && ReadLike(items, s.readLog)
    && forall i :: 0 <= i < |items| ==> Arrived(writer, reader, items[i], s.readLog[i].got)
  }

  /**
   A thread that writes some arrays and one that reads them, in any order of their sections, with
   any wakeups: when neither can go on, both have finished, without a failure, and every array
   arrived, just when the buffer has any room or there is no byte to send.
   */
  lemma ArraysArrive(maxSize: nat, writer: bool, reader: bool, items: seq<Item>, moves: seq<Move>)
    requires (forall m :: m in moves ==> Undisturbed(m)) && Still(After(Begin(maxSize, writer, items), moves))
    ensures var y := After(Begin(maxSize, writer, items), moves);
      && (Finished(y) <==> maxSize > 0 || TotalSize(items) == 0)
      && (Finished(y) ==> AllArrived(y.system, writer, reader, items))
  {
    var x := Begin(maxSize, writer, items);
    var y := After(x, moves);
    BeginAgrees(maxSize, writer, items);
    SizesTotal(items);
    UndisturbedRun(x, moves);
    if maxSize == 0 {
      NoRoomRun(x, moves);
    }
    if maxSize > 0 || TotalSize(items) == 0 {
      StillMeansDone(y);
      AllRead(Coming(x), items);
      StreamOfItems(y.system, writer, reader, items);
    }
  }
}
