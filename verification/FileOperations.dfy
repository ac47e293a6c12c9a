/** Normal files, which keep bytes at offsets, and synthetic files, which compute their content on demand. */
module FileOperations {
  import opened Arithmetic
  import opened ByteStrings
  import opened FunctionFiles
  import opened Wrappers

  datatype WriteAt = WriteAt(offset: nat, data: Bytes) {
    predicate Covers(p: nat) {
      offset <= p < offset + |data|
    }
  }

  // ----- what a history of writes means, byte by byte

  /** The length after the writes: an empty write past the end extends the file too. */
  function Size(writes: seq<WriteAt>): nat {
    if writes == [] then 0
    else
      var w := writes[|writes| - 1];
      Max(Size(writes[..|writes| - 1]), w.offset + |w.data|)
  }

  /** The byte at a position: that of the last write over it, zero where none was. */
  function ByteAt(writes: seq<WriteAt>, p: nat): Byte {
    if writes == [] then 0
    else
      var w := writes[|writes| - 1];
      if w.Covers(p) then w.data[p - w.offset] else ByteAt(writes[..|writes| - 1], p)
  }

  ghost predicate Holds(content: Bytes, writes: seq<WriteAt>) {
    |content| == Size(writes) && forall p :: 0 <= p < |content| ==> content[p] == ByteAt(writes, p)
  }

  lemma HistoryMore(writes: seq<WriteAt>, w: WriteAt, p: nat)
    ensures Size(writes + [w]) == Max(Size(writes), w.offset + |w.data|)
    ensures ByteAt(writes + [w], p) == if w.Covers(p) then w.data[p - w.offset] else ByteAt(writes, p)
  {
    assert (writes + [w])[..|writes|] == writes;
  }

  /** Beyond the length no write has been. */
  lemma {:induction false} NothingBeyond(writes: seq<WriteAt>, p: nat)
    requires Size(writes) <= p
    ensures ByteAt(writes, p) == 0
  {
    if writes != [] {
      NothingBeyond(writes[..|writes| - 1], p);
    }
  }

  /** Two writes that do not overlap can be exchanged anywhere in a history. */
  lemma DisjointWritesCommute(before: seq<WriteAt>, v: WriteAt, w: WriteAt, after: seq<WriteAt>, content: Bytes)
    requires forall p: nat :: !(v.Covers(p) && w.Covers(p))
    ensures Holds(content, before + [v, w] + after) <==> Holds(content, before + [w, v] + after)
  {
    Exchanged(before, v, w, after, 0);
    forall p: nat
      ensures ByteAt(before + [v, w] + after, p) == ByteAt(before + [w, v] + after, p)
    {
      Exchanged(before, v, w, after, p);
    }
  }

  lemma {:induction false} Exchanged(before: seq<WriteAt>, v: WriteAt, w: WriteAt, after: seq<WriteAt>, p: nat)
    requires !(v.Covers(p) && w.Covers(p))
    ensures Size(before + [v, w] + after) == Size(before + [w, v] + after)
    ensures ByteAt(before + [v, w] + after, p) == ByteAt(before + [w, v] + after, p)
    decreases |after|
  {
    if after == [] {
      assert before + [v, w] + after == before + [v] + [w] && before + [w, v] + after == before + [w] + [v];
      HistoryMore(before, v, p);
      HistoryMore(before, w, p);
      HistoryMore(before + [v], w, p);
      HistoryMore(before + [w], v, p);
    } else {
      var front, last := after[..|after| - 1], after[|after| - 1];
      Exchanged(before, v, w, front, p);
      assert before + [v, w] + after == (before + [v, w] + front) + [last];
      assert before + [w, v] + after == (before + [w, v] + front) + [last];
      HistoryMore(before + [v, w] + front, last, p);
      HistoryMore(before + [w, v] + front, last, p);
    }
  }

  /** The content extended by zeros to the given length. */
  function Resized(content: Bytes, size: nat): (r: Bytes)
    requires |content| <= size
    ensures |r| == size
    ensures forall p :: 0 <= p < size ==> r[p] == if p < |content| then content[p] else 0
  {
    content + seq(size - |content|, _ => 0)
  }

  function Overwritten(content: Bytes, start: nat, data: Bytes): (r: Bytes)
    requires start + |data| <= |content|
    ensures |r| == |content|
    ensures forall p :: 0 <= p < |r| ==> r[p] == if start <= p < start + |data| then data[p - start] else content[p]
  {
    content[..start] + data + content[start + |data|..]
  }

  /** Content that was overwritten at the write's range, and padded with zeros up to it. */
  lemma WriteHolds(was: Bytes, now: Bytes, writes: seq<WriteAt>, w: WriteAt)
    requires Holds(was, writes) && |now| == Max(|was|, w.offset + |w.data|)
    requires forall p :: 0 <= p < |now| ==>
      now[p] == if w.Covers(p) then w.data[p - w.offset] else if p < |was| then was[p] else 0
    ensures Holds(now, writes + [w])
  {
    HistoryMore(writes, w, 0);
    forall p: nat | p < |now|
      ensures now[p] == ByteAt(writes + [w], p)
    {
      HistoryMore(writes, w, p);
      if p >= |was| {
        NothingBeyond(writes, p);
      }
    }
  }

  class NormalFile {
    var content: Bytes
    ghost var writes: seq<WriteAt>

    ghost predicate Valid()
      reads this
    {
      Holds(content, writes)
    }

    constructor ()
      ensures Valid() && writes == []
    {
      content, writes := [], [];
    }

    /** Fills a gap before the offset with zeros, extends if necessary, and overwrites. */
    method Write(offset: nat, data: Bytes) returns (r: nat)
      requires Valid()
      modifies this
      ensures Valid() && writes == old(writes) + [WriteAt(offset, data)]
      ensures r == |data| % 0x1_0000_0000
    {
      ghost var was := content;
      var start := offset;
      if start > |content| {
        content := Resized(content, start);
      }
      if start + |data| > |content| {
        content := Resized(content, start + |data|);
      }
      content := Overwritten(content, start, data);
      WriteHolds(was, content, writes, WriteAt(offset, data));
      writes := writes + [WriteAt(offset, data)];
      r := |data| % 0x1_0000_0000;
    }

    /** The bytes from the offset on: each the last one written there. */
    method Read(offset: nat, count: nat) returns (data: Bytes)
      requires Valid()
      ensures data == Slice(content, offset, count)
      ensures |data| == Min(count, if offset < Size(writes) then Size(writes) - offset else 0)
      ensures forall j :: 0 <= j < |data| ==> data[j] == ByteAt(writes, offset + j)
    {
      var start := Min(offset, |content|);
      var end := Min(start + count, |content|);
      data := content[start..end];
    }
  }

  class SyntheticFile {
    const computeFn: Bytes -> Bytes
    var lastInput: Bytes
    var cachedOutput: Option<Bytes>
    ghost var written: seq<Bytes>

    /** A cached output is the output for the last input. */
    ghost predicate Valid()
      reads this
    {
      && lastInput == LastWritten(written)
      && (cachedOutput.Some? ==> cachedOutput.value == computeFn(lastInput))
    }

    constructor (computeFn: Bytes -> Bytes)
      ensures Valid() && this.computeFn == computeFn && written == []
    {
      this.computeFn := computeFn;
      lastInput, cachedOutput, written := [], None, [];
    }

    method Write(offset: nat, data: Bytes) returns (r: nat)
      requires Valid()
      modifies this
      ensures Valid() && written == old(written) + [data] && cachedOutput == None
      ensures r == |data| % 0x1_0000_0000
    {
      lastInput, cachedOutput := data, None;
      written := written + [data];
      r := |data| % 0x1_0000_0000;
    }

    /** Whatever was read or written before, the answer is a slice of the function of the last input. */
    method Read(offset: nat, count: nat) returns (data: Bytes)
      requires Valid()
      modifies this
      ensures Valid() && written == old(written) && cachedOutput == Some(computeFn(LastWritten(written)))
      ensures data == Slice(computeFn(LastWritten(written)), offset, count)
    {
      if cachedOutput.None? {
        cachedOutput := Some(computeFn(lastInput));
      }
      match cachedOutput
      case Some(output) => data := Slice(output, offset, count);
      case None => data := [];
    }
  }
}
