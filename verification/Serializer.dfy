/**
 The serializer on top of the bounded buffer: arrays of numbers of 1, 2, 4 or 8 bytes travel
 in network byte order, whatever the byte order of the two hosts.
 */
module Serializer {
  import opened Options
  import opened Bytes
  import Fifo
  import FifoRuns

  datatype Mode = Serialize | Deserialize

  datatype Status = Success | NoSupport | InvalidParameter | CallFailed | FromBuffer(er: Fifo.Status)

  function Reverse(e: seq<Byte>): (r: seq<Byte>)
    ensures |r| == |e|
  {
    if e == [] then [] else Reverse(e[1..]) + [e[0]]
  }

  /** Conversion between host and network order, in either direction (`htons` and its kin). */
  function Swap(little: bool, e: seq<Byte>): (r: seq<Byte>)
    ensures |r| == |e|
  {
    if little then Reverse(e) else e
  }

  /** The number a big-endian, or a little-endian, host sees in some bytes of memory. */
  function BigEndian(e: seq<Byte>): nat {
    if e == [] then 0 else BigEndian(e[..|e| - 1]) * 256 + e[|e| - 1]
  }

  function LittleEndian(e: seq<Byte>): nat {
    if e == [] then 0 else e[0] + 256 * LittleEndian(e[1..])
  }

  function Number(little: bool, e: seq<Byte>): nat {
    if little then LittleEndian(e) else BigEndian(e)
  }

  /** The elements of an array, each converted. */
  function Pieces(little: bool, size: nat, mem: seq<Byte>): seq<seq<Byte>>
    requires size > 0
  {
    if |mem| < size then [] else [Swap(little, mem[..size])] + Pieces(little, size, mem[size..])
  }

  function Flat(pieces: seq<seq<Byte>>): seq<Byte> {
    if pieces == [] then [] else pieces[0] + Flat(pieces[1..])
  }

  /** The array as a whole, converted. */
  function Converted(little: bool, size: nat, mem: seq<Byte>): seq<Byte>
    requires size > 0
  {
    Flat(Pieces(little, size, mem))
  }

  /** The numbers in an array. */
  function Numbers(little: bool, size: nat, mem: seq<Byte>): seq<nat>
    requires size > 0
  {
    if |mem| < size then [] else [Number(little, mem[..size])] + Numbers(little, size, mem[size..])
  }

  predicate Known(size: nat) {
    size == 1 || size == 2 || size == 4 || size == 8
  }

  /** The calls of the buffer that write an array: a byte array at once, others one by one. */
  function WriteCalls(little: bool, size: nat, mem: seq<Byte>): seq<seq<Byte>>
    requires Known(size)
  {
    if size == 1 then [mem] else Pieces(little, size, mem)
  }

  /** The calls that were made are the first ones of those due, and only the last one may have failed. */
  ghost predicate UpToFailure(due: seq<seq<Byte>>, calls: seq<seq<Byte>>, answer: nat -> Fifo.Status) {
    calls <= due && forall x :: 0 <= x < |calls| - 1 ==> answer(x) == Fifo.Success
  }

  /** The first `n` calls were successful. */
  ghost predicate AllWell(n: nat, answer: nat -> Fifo.Status) {
    forall x :: 0 <= x < n ==> answer(x) == Fifo.Success
  }

  function IsArray(size: nat, count: nat, mem: seq<Byte>): bool {
    if count == 0 then mem == [] else size <= |mem| && IsArray(size, count - 1, mem[size..])
  }

  /** An array of `count` elements, as it is given to `Write`. */
  datatype TypedArray = TypedArray(size: nat, count: nat, mem: seq<Byte>)

  /** Bytes in some arrays. */
  function TotalSize(arrays: seq<TypedArray>): nat {
    if arrays == [] then 0 else TotalSize(arrays[..|arrays| - 1]) + |arrays[|arrays| - 1].mem|
  }

  lemma TotalMore(arrays: seq<TypedArray>, a: TypedArray)
    ensures TotalSize(arrays + [a]) == TotalSize(arrays) + |a.mem|
  {
    assert (arrays + [a])[..|arrays|] == arrays;
  }

  class FifoSerializer {
    const mode: Mode
    const little: bool
    var written: int
    var read: int
    ghost var sent: seq<TypedArray>
    ghost var got: seq<FifoRuns.Read>

    /** The counters are those of the arrays given to `Write` and of the bytes successful reads got. */
    ghost predicate Counted()
      reads this
    {
      written == TotalSize(sent) && read == |FifoRuns.Received(got)|
    }

    constructor (mode: Mode, little: bool)
      ensures this.mode == mode && this.little == little && Counted() && sent == [] && got == []
    {
      this.mode := mode;
      this.little := little;
      written, read, sent, got := 0, 0, [], [];
    }

    /** The loops of `Write`; `answer` is what the buffer answers to each call. */
    method WriteElements(size: nat, mem: seq<Byte>, answer: nat -> Fifo.Status)
      returns (er: Status, calls: seq<seq<Byte>>)
      requires size > 0
      ensures UpToFailure(Pieces(little, size, mem), calls, answer)
      ensures er == Success ==>
        calls == Pieces(little, size, mem) && AllWell(|calls|, answer)
      ensures er != Success ==>
        calls != [] && er == FromBuffer(answer(|calls| - 1)) && answer(|calls| - 1) != Fifo.Success
    {
      var rest := mem;
      er, calls := Success, [];
      while |rest| >= size && er == Success
        invariant calls + Pieces(little, size, rest) == Pieces(little, size, mem)
        invariant forall x :: 0 <= x < |calls| - 1 ==> answer(x) == Fifo.Success
        invariant er == Success ==> AllWell(|calls|, answer)
        invariant er != Success ==>
          calls != [] && er == FromBuffer(answer(|calls| - 1)) && answer(|calls| - 1) != Fifo.Success
        decreases |rest|
      {
        var result := answer(|calls|);
        calls := calls + [Swap(little, rest[..size])];
        rest := rest[size..];
        if result != Fifo.Success {
          er := FromBuffer(result);
        }
      }
    }

    /** Writes an array of `count` elements; the counter advances even when the buffer fails. */
    method Write(ptr: Option<seq<Byte>>, size: nat, count: nat, answer: nat -> Fifo.Status)
      returns (er: Status, calls: seq<seq<Byte>>)
      requires Counted() && (ptr.Some? ==> IsArray(size, count, ptr.value))
      modifies this`written, this`sent
      ensures Counted()
      ensures sent == old(sent) + if mode == Serialize && ptr.Some? then [TypedArray(size, count, ptr.value)] else []
      ensures mode != Serialize ==> er == NoSupport && calls == []
      ensures mode == Serialize && ptr.None? ==> er == InvalidParameter && calls == []
      ensures mode == Serialize && ptr.Some? && !Known(size) ==> er == InvalidParameter && calls == []
      ensures mode == Serialize && ptr.Some? && Known(size) ==>
        UpToFailure(WriteCalls(little, size, ptr.value), calls, answer)
      ensures er == Success ==>
        ptr.Some? && Known(size) && calls == WriteCalls(little, size, ptr.value) && AllWell(|calls|, answer)
      ensures er == Success && size == 1 ==> calls == [ptr.value]
      ensures er == Success && size in {2, 4, 8} ==> InNetworkOrder(Numbers(little, size, ptr.value), calls)
      ensures mode == Serialize && ptr.Some? && Known(size) && er != Success ==>
        calls != [] && er == FromBuffer(answer(|calls| - 1)) && answer(|calls| - 1) != Fifo.Success
    {
      if mode != Serialize {
        return NoSupport, [];
      }
      if ptr.None? {
        return InvalidParameter, [];
      }
      if size == 1 {
        calls := [ptr.value];
        er := if answer(0) == Fifo.Success then Success else FromBuffer(answer(0));
      } else if Known(size) {
        er, calls := WriteElements(size, ptr.value, answer);
      } else {
        er, calls := InvalidParameter, [];
      }
      ArrayLength(size, count, ptr.value);
      if size == 2 || size == 4 || size == 8 {
        NetworkOrder(little, size, ptr.value);
      }
      TotalMore(sent, TypedArray(size, count, ptr.value));
      written := written + size * count;
      sent := sent + [TypedArray(size, count, ptr.value)];
    }

    /** The loops of `Read`. */
    method Convert(size: nat, mem: seq<Byte>) returns (data: seq<Byte>)
      requires size > 0
      ensures data == Converted(little, size, mem)
    {
      var rest := mem;
      data := [];
      while |rest| >= size
        invariant data + Converted(little, size, rest) == Converted(little, size, mem)
        decreases |rest|
      {
        data := data + Swap(little, rest[..size]);
        rest := rest[size..];
      }
    }

    /** Reads an array; `answer` is how the read of the buffer ended. */
    method Read(target: bool, size: nat, count: nat, answer: FifoRuns.Read) returns (er: Status, data: seq<Byte>)
      requires Counted() && answer.want == size * count && |answer.got| <= answer.want
      modifies this`read, this`got
      ensures Counted()
      ensures got == old(got) + if mode == Deserialize && target && answer.er == Fifo.Success then [answer] else []
      ensures mode != Deserialize ==> er == NoSupport
      ensures mode == Deserialize && !target ==> er == InvalidParameter
      ensures mode == Deserialize && target && answer.er != Fifo.Success ==> er == FromBuffer(answer.er)
      ensures mode == Deserialize && target && answer.er == Fifo.Success ==>
        er == if |answer.got| != answer.want then CallFailed else if Known(size) then Success else InvalidParameter
      ensures er == Success ==>
        Known(size) && data == if size == 1 then answer.got else Converted(little, size, answer.got)
      ensures er == Success && size in {2, 4, 8} ==>
        Numbers(little, size, data) == Numbers(false, size, answer.got)
    {
      data := answer.got;
      if mode != Deserialize {
        return NoSupport, data;
      }
      if !target {
        return InvalidParameter, data;
      }
      if answer.er != Fifo.Success {
        return FromBuffer(answer.er), data;
      }
      FifoRuns.ReceivedMore(got, answer);
      read := read + |answer.got|;
      got := got + [answer];
      if |answer.got| != size * count {
        return CallFailed, data;
      }
      if !Known(size) {
        return InvalidParameter, data;
      }
      if size != 1 {
        ReadsNetworkOrder(little, size, data);
        data := Convert(size, data);
      }
      er := Success;
    }
  }

  lemma {:induction false} ArrayLength(size: nat, count: nat, mem: seq<Byte>)
    requires IsArray(size, count, mem)
    ensures |mem| == size * count
  {
    if count > 0 {
      ArrayLength(size, count - 1, mem[size..]);
      assert size * count == size + size * (count - 1);
    }
  }

  // ---------- byte order ----------

  lemma {:induction false} ReverseEnds(e: seq<Byte>)
    requires e != []
    ensures Reverse(e) == [e[|e| - 1]] + Reverse(e[..|e| - 1])
  {
    if |e| > 1 {
      ReverseEnds(e[1..]);
      assert e[1..][..|e| - 2] == e[..|e| - 1][1..];
    }
  }

  lemma {:induction false} ReverseTwice(e: seq<Byte>)
    ensures Reverse(Reverse(e)) == e
  {
    if e != [] {
      ReverseEnds(e);
      var r := Reverse(e);
      assert r[1..] == Reverse(e[..|e| - 1]);
      ReverseTwice(e[..|e| - 1]);
      assert e == e[..|e| - 1] + [e[|e| - 1]];
    }
  }

  /** What the two kinds of host see in the same bytes. */
  lemma {:induction false} ReversedNumber(e: seq<Byte>)
    ensures LittleEndian(Reverse(e)) == BigEndian(e)
  {
    if e != [] {
      ReverseEnds(e);
      assert Reverse(e)[1..] == Reverse(e[..|e| - 1]);
      ReversedNumber(e[..|e| - 1]);
    }
  }

  /** An element written by one host and read by another is the same number. */
  lemma ElementTravels(writer: bool, reader: bool, e: seq<Byte>)
    ensures Number(reader, Swap(reader, Swap(writer, e))) == Number(writer, e)
    ensures writer == reader ==> Swap(reader, Swap(writer, e)) == e
  {
    ReverseTwice(e);
    ReversedNumber(e);
    ReversedNumber(Reverse(e));
  }

  /** The wire has numbers in network byte order, whichever the host. */
  ghost predicate InNetworkOrder(numbers: seq<nat>, pieces: seq<seq<Byte>>) {
    |pieces| == |numbers| && forall x :: 0 <= x < |pieces| ==> BigEndian(pieces[x]) == numbers[x]
  }

  /** Conversion gives the bytes of the host's number, the most significant one first. */
  lemma SwapIsBigEndian(little: bool, e: seq<Byte>)
    ensures BigEndian(Swap(little, e)) == Number(little, e)
  {
    ReverseTwice(e);
    ReversedNumber(Reverse(e));
  }

  lemma {:induction false} NetworkOrder(little: bool, size: nat, mem: seq<Byte>)
    requires size > 0
    ensures InNetworkOrder(Numbers(little, size, mem), Pieces(little, size, mem))
    ensures forall x :: 0 <= x < |Pieces(little, size, mem)| ==> |Pieces(little, size, mem)[x]| == size
    decreases |mem|
  {
    if |mem| >= size {
      SwapIsBigEndian(little, mem[..size]);
      NetworkOrder(little, size, mem[size..]);
    }
  }

  lemma Times(x: nat, size: nat)
    requires x > 0
    ensures x * size == size + (x - 1) * size && (x - 1) * size >= 0
  {
  }

  lemma SliceBehind(mem: seq<Byte>, size: nat, at: nat)
    requires size <= |mem| && at + size <= |mem[size..]|
    ensures mem[size..][at..at + size] == mem[size + at..size + at + size]
  {
  }

  /** The numbers in an array are those of its elements, each `size` bytes long. */
  lemma {:induction false} NumbersAt(little: bool, size: nat, count: nat, mem: seq<Byte>, x: nat)
    requires size > 0 && IsArray(size, count, mem) && x < count
    ensures |Numbers(little, size, mem)| == count && 0 <= x * size <= x * size + size <= |mem|
    ensures Numbers(little, size, mem)[x] == Number(little, mem[x * size..x * size + size])
    decreases count
  {
    if count == 1 {
      assert mem[size..] == [];
    } else if x == 0 {
      NumbersAt(little, size, count - 1, mem[size..], 0);
    } else {
      NumbersAt(little, size, count - 1, mem[size..], x - 1);
      Times(x, size);
      SliceBehind(mem, size, (x - 1) * size);
    }
  }

  /** What a reading host sees after the conversion are the big-endian numbers on the wire. */
  lemma {:induction false} ReadsNetworkOrder(little: bool, size: nat, wire: seq<Byte>)
    requires size > 0
    ensures Numbers(little, size, Converted(little, size, wire)) == Numbers(false, size, wire)
    decreases |wire|
  {
    if |wire| >= size {
      ConvertedHead(little, size, wire);
      ReadsNetworkOrder(little, size, wire[size..]);
      SwapIsBigEndian(little, Swap(little, wire[..size]));
      ElementTravels(little, little, wire[..size]);
    }
  }

  /** A little-endian host sends 258, in memory 2 and 1, as 1 and 2; a big-endian host as it is. */
  lemma ShortOnTheWire()
    ensures WriteCalls(true, 2, [2, 1]) == [[1, 2]] && WriteCalls(false, 2, [1, 2]) == [[1, 2]]
  {
    var a, b: seq<Byte> := [2, 1], [1, 2];
    assert a[..2] == a && a[2..] == [] && b[..2] == b && b[2..] == [];
    assert a[1..] == [1] && Reverse([1]) == [1] && Reverse(a) == [1] + [2];
    assert Pieces(true, 2, []) == [] && Pieces(false, 2, []) == [];
    assert Reverse(a) == b && Pieces(true, 2, a) == [b] && Pieces(false, 2, b) == [b];
  }

  lemma {:induction false} ConvertedLength(little: bool, size: nat, mem: seq<Byte>, count: nat)
    requires size > 0 && IsArray(size, count, mem)
    ensures |Converted(little, size, mem)| == |mem| && IsArray(size, count, Converted(little, size, mem))
    decreases count
  {
    if count > 0 {
      ConvertedLength(little, size, mem[size..], count - 1);
      ConvertedHead(little, size, mem);
    }
  }

  lemma ConvertedHead(little: bool, size: nat, mem: seq<Byte>)
    requires 0 < size <= |mem|
    ensures var c := Converted(little, size, mem);
      |c| >= size && c[..size] == Swap(little, mem[..size]) && c[size..] == Converted(little, size, mem[size..])
  {
    var p := Pieces(little, size, mem);
    assert p[1..] == Pieces(little, size, mem[size..]);
  }

  /** An array written by one host and read by another holds the same numbers. */
  lemma {:induction false} ArrayTravels(writer: bool, reader: bool, size: nat, mem: seq<Byte>, count: nat)
    requires size > 0 && IsArray(size, count, mem)
    ensures Numbers(reader, size, Converted(reader, size, Converted(writer, size, mem))) == Numbers(writer, size, mem)
    ensures writer == reader ==> Converted(reader, size, Converted(writer, size, mem)) == mem
    decreases count
  {
    if count > 0 {
      var wire := Converted(writer, size, mem);
      ConvertedHead(writer, size, mem);
      ConvertedHead(reader, size, wire);
      ElementTravels(writer, reader, mem[..size]);
      ArrayTravels(writer, reader, size, mem[size..], count - 1);
      assert mem[..size] + mem[size..] == mem;
      var back := Converted(reader, size, wire);
      assert back[..size] + back[size..] == back;
    } else {
      ConvertedLength(writer, size, mem, 0);
    }
  }

  // ---------- end to end ----------

  predicate Proper(item: TypedArray) {
    Known(item.size) && IsArray(item.size, item.count, item.mem)
  }

  type Item = item: TypedArray | Proper(item) witness TypedArray(1, 0, [])

  /** What an item looks like on its way. */
  function Wire(little: bool, item: Item): seq<Byte>
  {
    Flat(WriteCalls(little, item.size, item.mem))
  }

  /** What the reader makes of it. */
  function Unwire(little: bool, size: nat, wire: seq<Byte>): seq<Byte>
    requires Known(size)
  {
    if size == 1 then wire else Converted(little, size, wire)
  }

  function WireAll(little: bool, items: seq<Item>): seq<Byte>
  {
    if items == [] then [] else WireAll(little, items[..|items| - 1]) + Wire(little, items[|items| - 1])
  }

  /** The log of the buffer after all calls for these items were successful. */
  function Logged(calls: seq<seq<Byte>>): seq<FifoRuns.Written> {
    seq(|calls|, i requires 0 <= i < |calls| => FifoRuns.Written(calls[i], |calls[i]|, Fifo.Success))
  }

  function LogOf(little: bool, items: seq<Item>): seq<FifoRuns.Written>
  {
    if items == [] then []
    else
      var last := items[|items| - 1];
      LogOf(little, items[..|items| - 1]) + Logged(WriteCalls(little, last.size, last.mem))
  }

  lemma {:induction false} SentMore(log: seq<FifoRuns.Written>, calls: seq<seq<Byte>>)
    ensures FifoRuns.Sent(log + Logged(calls)) == FifoRuns.Sent(log) + Flat(calls)
    decreases |calls|
  {
    if calls == [] {
      assert log + Logged(calls) == log;
    } else {
      var first := FifoRuns.Written(calls[0], |calls[0]|, Fifo.Success);
      assert log + Logged(calls) == (log + [first]) + Logged(calls[1..]);
      SentMore(log + [first], calls[1..]);
      FifoRuns.SentMore(log, first);
      FifoRuns.Assoc(FifoRuns.Sent(log), calls[0], Flat(calls[1..]));
    }
  }

  lemma {:induction false} SentIsWire(little: bool, items: seq<Item>)
    ensures FifoRuns.Sent(LogOf(little, items)) == WireAll(little, items)
  {
    if items != [] {
      var last := items[|items| - 1];
      SentIsWire(little, items[..|items| - 1]);
      SentMore(LogOf(little, items[..|items| - 1]), WriteCalls(little, last.size, last.mem));
    }
  }

  lemma {:induction false} SingleBytes(little: bool, mem: seq<Byte>)
    ensures Numbers(little, 1, mem) == mem
  {
    if mem != [] {
      SingleBytes(little, mem[1..]);
      assert mem[..1] == [mem[0]] && BigEndian(mem[..1]) == mem[0] && LittleEndian(mem[..1]) == mem[0];
      assert mem == [mem[0]] + mem[1..];
    }
  }

  lemma FlatOne(mem: seq<Byte>)
    ensures Flat([mem]) == mem
  {
    assert [mem][1..] == [];
  }

  lemma WireLength(little: bool, item: Item)
    ensures |Wire(little, item)| == |item.mem|
  {
    if item.size != 1 {
      ConvertedLength(little, item.size, item.mem, item.count);
    } else {
      FlatOne(item.mem);
    }
  }

  /** An item that travels alone arrives with the same numbers. */
  lemma ItemTravels(writer: bool, reader: bool, item: Item)
    ensures Numbers(reader, item.size, Unwire(reader, item.size, Wire(writer, item))) ==
      Numbers(writer, item.size, item.mem)
    ensures writer == reader ==> Unwire(reader, item.size, Wire(writer, item)) == item.mem
  {
    if item.size != 1 {
      ArrayTravels(writer, reader, item.size, item.mem, item.count);
    } else {
      FlatOne(item.mem);
      SingleBytes(writer, item.mem);
      SingleBytes(reader, item.mem);
    }
  }

  /** Successful reads of the sizes of the first items. */
  predicate ReadLike(items: seq<Item>, log: seq<FifoRuns.Read>) {
    |log| <= |items| && forall x :: 0 <= x < |log| ==> log[x].er == Fifo.Success && |log[x].got| == |items[x].mem|
  }

  lemma {:induction false} WirePrefix(little: bool, items: seq<Item>, m: nat)
    requires m <= |items|
    ensures WireAll(little, items[..m]) <= WireAll(little, items)
    decreases |items|
  {
    if m < |items| {
      WirePrefix(little, items[..|items| - 1], m);
      assert items[..|items| - 1][..m] == items[..m];
    } else {
      assert items[..m] == items;
    }
  }

  lemma SameCut(a: seq<Byte>, b: seq<Byte>, c: seq<Byte>, stream: seq<Byte>)
    requires a + b <= stream && a + c <= stream && |b| == |c|
    ensures b == c
  {
    assert a + b == stream[..|a| + |b|] && b == (a + b)[|a|..] && c == (a + c)[|a|..];
  }

  lemma PrefixTrans(a: seq<Byte>, b: seq<Byte>, stream: seq<Byte>)
    requires a + b <= stream
    ensures a <= stream
  {
    assert a == (a + b)[..|a|];
  }

  /** Reads of matching sizes cut a stream where the items were joined. */
  lemma {:induction false} ReadsAreWire(little: bool, items: seq<Item>, log: seq<FifoRuns.Read>, stream: seq<Byte>)
    requires |log| == |items| && ReadLike(items, log)
    requires FifoRuns.Received(log) <= stream && WireAll(little, items) <= stream
    ensures FifoRuns.Received(log) == WireAll(little, items)
    ensures forall x :: 0 <= x < |log| ==> log[x].got == Wire(little, items[x])
  {
    if items != [] {
      var n := |items| - 1;
      var fronts, front := log[..n], items[..n];
      assert ReadLike(front, fronts);
      PrefixTrans(FifoRuns.Received(fronts), log[n].got, stream);
      PrefixTrans(WireAll(little, front), Wire(little, items[n]), stream);
      ReadsAreWire(little, front, fronts, stream);
      WireLength(little, items[n]);
      SameCut(WireAll(little, front), log[n].got, Wire(little, items[n]), stream);
      AllGot(little, items, log);
    }
  }

  lemma AllGot(little: bool, items: seq<Item>, log: seq<FifoRuns.Read>)
    requires |log| == |items| > 0
    requires var n := |items| - 1;
      && log[n].got == Wire(little, items[n])
      && forall x :: 0 <= x < n ==> log[..n][x].got == Wire(little, items[..n][x])
    ensures forall x :: 0 <= x < |log| ==> log[x].got == Wire(little, items[x])
  {
    var n := |items| - 1;
    forall x | 0 <= x < n ensures log[x].got == Wire(little, items[x]) {
      assert log[x] == log[..n][x] && items[x] == items[..n][x];
    }
  }

  /** What a read got holds the numbers of an item, as the reader sees them. */
  predicate Arrived(writer: bool, reader: bool, item: Item, got: seq<Byte>) {
    Numbers(reader, item.size, Unwire(reader, item.size, got)) == Numbers(writer, item.size, item.mem)
  }

  /**
   Whatever the capacity of the buffer and the order in which the threads ran: when all items
   were written successfully, every successful full read got the numbers of the item written
   at the same place, and as many bytes were read as those items have.
   */
  lemma StreamOfItems(s: FifoRuns.System, writer: bool, reader: bool, items: seq<Item>)
    requires FifoRuns.Good(s)
    requires s.writeLog == LogOf(writer, items) && ReadLike(items, s.readLog)
    ensures forall x :: 0 <= x < |s.readLog| ==> Arrived(writer, reader, items[x], s.readLog[x].got)
    ensures |FifoRuns.Received(s.readLog)| == TotalSize(items[..|s.readLog|])
  {
    var m := |s.readLog|;
    SentIsWire(writer, items);
    WirePrefix(writer, items, m);
    ReadsAreWire(writer, items[..m], s.readLog, FifoRuns.Inserted(s));
    WireSize(writer, items[..m]);
    forall x | 0 <= x < m ensures Arrived(writer, reader, items[x], s.readLog[x].got) {
      ItemTravels(writer, reader, items[x]);
    }
  }

  lemma {:induction false} WireSize(little: bool, items: seq<Item>)
    ensures |WireAll(little, items)| == TotalSize(items)
  {
    if items != [] {
      WireSize(little, items[..|items| - 1]);
      WireLength(little, items[|items| - 1]);
    }
  }

  /**
   The counters of the two serializers at the ends of a buffer agree whenever as many items were
   read as written.
   */
  lemma CountersAgree(s: FifoRuns.System, writer: FifoSerializer, reader: FifoSerializer, items: seq<Item>)
    requires FifoRuns.Good(s) && writer.Counted() && reader.Counted()
    requires writer.sent == items && s.writeLog == LogOf(writer.little, items)
    requires reader.got == s.readLog && ReadLike(items, s.readLog)
    ensures reader.read == TotalSize(items[..|s.readLog|])
    ensures |s.readLog| == |items| ==> reader.read == writer.written
  {
    StreamOfItems(s, writer.little, reader.little, items);
    assert items[..|items|] == items;
  }
}
