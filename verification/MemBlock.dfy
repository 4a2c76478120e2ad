/** The growing memory block of a stream, against the sequence of bytes it stands for. */
module MemBlocks {
  import opened Bytes

  const BLOCK_SIZE := 8192

  datatype Status = Success | NotEnoughMemory

  function Zeros(n: nat): seq<Byte> {
    seq(n, i => 0)
  }

  /** Cut off, or filled up with zeros. */
  function Sized(s: seq<Byte>, n: nat): (r: seq<Byte>)
    ensures |r| == n && forall i :: 0 <= i < n ==> r[i] == if i < |s| then s[i] else 0
  {
    if n <= |s| then s[..n] else s + Zeros(n - |s|)
  }

  /** Bytes written over a sequence, which is filled up with zeros as far as needed. */
  function Overwritten(s: seq<Byte>, pos: nat, data: seq<Byte>): (r: seq<Byte>)
    ensures |r| == if pos + |data| > |s| then pos + |data| else |s|
    ensures forall i :: 0 <= i < |r| ==>
      r[i] == if pos <= i < pos + |data| then data[i - pos] else if i < |s| then s[i] else 0
  {
    var t := if pos + |data| > |s| then Sized(s, pos + |data|) else s;
    t[..pos] + data + t[pos + |data|..]
  }

  /** The capacity after growing for `dsize` bytes. */
  function Grown(total: nat, dsize: nat): nat {
    total + (dsize / BLOCK_SIZE + 1) * BLOCK_SIZE
  }

  /** A write reads back; what was before it stays, and a gap in between reads as zeros. */
  lemma ReadsBack(s: seq<Byte>, pos: nat, data: seq<Byte>)
    ensures var r := Overwritten(s, pos, data);
      && r[pos..pos + |data|] == data
      && (pos <= |s| ==> r[..pos] == s[..pos])
      && (pos >= |s| ==> r[..pos] == s + Zeros(pos - |s|))
  {
    var r := Overwritten(s, pos, data);
    assert r[pos..pos + |data|] == data;
  }

  class MemBlock {
    const transacted: bool
    var current: array?<Byte>
    var cbCurrent: nat
    var original: array?<Byte>

    ghost predicate Valid()
      reads this, current
    {
      && current != null && cbCurrent <= current.Length && current != original
      && forall i :: cbCurrent <= i < current.Length ==> current[i] == 0
    }

    /** The bytes of the stream. */
    ghost function Content(): seq<Byte>
      reads this, current
      requires current != null && cbCurrent <= current.Length
    {
      current[..cbCurrent]
    }

    /** What `Revert` goes back to; nothing, after memory ran out in `Commit`. */
    ghost function Committed(): seq<Byte>
      reads this, original
      requires original != null
    {
      original[..]
    }

    /** The committed copy is not touched. */
    twostate predicate KeepsCommitted()
      reads this, original
    {
      original == old(original) && (original != null ==> original[..] == old(original[..]))
    }

    constructor (data: seq<Byte>, transacted: bool)
      ensures Valid() && fresh(current) && original != null && fresh(original) && Content() == data
      ensures this.transacted == transacted && (transacted ==> Committed() == data)
    {
      this.transacted := transacted;
      var a := new Byte[|data|](i requires 0 <= i < |data| => data[i]);
      var n := if transacted then |data| else 0;
      var b := new Byte[n](i requires 0 <= i < n => data[i]);
      current, cbCurrent, original := a, |data|, b;
    }

    /** Reads at most `len` bytes from a position inside the stream. */
    method ReadAt(pos: nat, len: nat) returns (data: seq<Byte>)
      requires Valid() && pos <= cbCurrent
      ensures data == Content()[pos..if len < cbCurrent - pos then pos + len else cbCurrent]
    {
      var toRead := cbCurrent - pos;
      toRead := if len < toRead then len else toRead;
      data := current[pos..pos + toRead];
      assert Content()[pos..pos + toRead] == data;
    }

    /** Makes room for `dsize` bytes; new room is cleared. */
    method Reserve(dsize: nat, enough: bool) returns (er: Status)
      requires Valid()
      modifies this`current
      ensures Valid() && Content() == old(Content()) && (current == old(current) || fresh(current))
      ensures er == if current.Length < dsize then NotEnoughMemory else Success
      ensures er == Success <==> old(current.Length) >= dsize || enough
    {
      if current.Length < dsize {
        if !enough {
          return NotEnoughMemory;
        }
        var was, length := current, current.Length;
        var grown := new Byte[Grown(length, dsize)]
          (i requires 0 <= i < Grown(length, dsize) reads was => if i < length then was[i] else 0);
        current := grown;
      }
      er := Success;
    }

    /** Writes at any position; a gap behind the old end reads as zeros. */
    method WriteAt(pos: nat, data: seq<Byte>, enough: bool) returns (er: Status)
      requires Valid()
      modifies this`current, this`cbCurrent, current
      ensures Valid() && KeepsCommitted() && (current == old(current) || fresh(current))
      ensures er == if old(current.Length) >= pos + |data| || enough then Success else NotEnoughMemory
      ensures Content() == if er == Success then Overwritten(old(Content()), pos, data) else old(Content())
    {
      var dsize := pos + |data|;
      er := Reserve(dsize, enough);
      if er != Success {
        return;
      }
      ghost var before := Content();
      if dsize > cbCurrent {
        cbCurrent := dsize;
      }
      forall i | 0 <= i < |data| {
        current[pos + i] := data[i];
      }
      assert Content() == Overwritten(before, pos, data);
    }

    /** Cuts the stream off, or fills it up with zeros. */
    method SetSize(size: nat, enough: bool) returns (er: Status)
      requires Valid()
      modifies this`current, this`cbCurrent
      ensures Valid() && KeepsCommitted() && (current == old(current) || fresh(current))
      ensures er == if enough then Success else NotEnoughMemory
      ensures Content() == if enough then Sized(old(Content()), size) else old(Content())
    {
      if !enough {
        return NotEnoughMemory;
      }
      var was, length := current, cbCurrent;
      var copy := new Byte[size]
        (i requires 0 <= i < size reads was => if i < length && i < was.Length then was[i] else 0);
      current, cbCurrent := copy, size;
      er := Success;
    }

    /** Remembers the content, in a transacted block; without memory, forgets what was committed. */
    method Commit(enough: bool) returns (er: Status)
      requires Valid()
      modifies this`original
      ensures Valid() && Content() == old(Content())
      ensures er == if transacted && !enough then NotEnoughMemory else Success
      ensures !transacted ==> KeepsCommitted()
      ensures transacted && enough ==> original != null && fresh(original) && Committed() == Content()
      ensures transacted && !enough ==> original == null
    {
      if transacted {
        original := null;
        if !enough {
          return NotEnoughMemory;
        }
        var was, length := current, cbCurrent;
        original := new Byte[length](i requires 0 <= i < length && length <= was.Length reads was => was[i]);
      }
      er := Success;
    }

    /** Goes back to what was committed, in a transacted block; without memory, the content is lost. */
    method Revert(enough: bool) returns (er: Status)
      requires Valid() && (transacted ==> original != null)
      modifies this`current, this`cbCurrent
      ensures KeepsCommitted() && (current == null || current == old(current) || fresh(current))
      ensures er == if transacted && !enough then NotEnoughMemory else Success
      ensures er == Success ==> Valid() && Content() == if transacted then Committed() else old(Content())
      ensures er != Success ==> current == null
    {
      if transacted {
        var was := original;
        current := null;
        if !enough {
          return NotEnoughMemory;
        }
        current := new Byte[was.Length](i requires 0 <= i < was.Length reads was => was[i]);
        cbCurrent := was.Length;
      }
      er := Success;
    }

    method GetSize() returns (size: nat)
      requires Valid()
      ensures size == |Content()|
    {
      size := cbCurrent;
    }
  }
}
