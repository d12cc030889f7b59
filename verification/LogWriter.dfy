/** Appending records to a log file. */
module LogWriter {
  import opened Entries
  import opened Coding
  import opened LogFormat

  /** What a file of bounded size holds after an append: as much of the data as fits. */
  function Stored(capacity: nat, content: seq<Byte>, data: seq<Byte>): seq<Byte> {
    if |content| + |data| <= capacity then content + data
    else if |content| <= capacity then content + data[..capacity - |content|]
    else content
  }

  /** Appending in pieces stores what appending the whole would. */
  lemma StoredInPieces(capacity: nat, content: seq<Byte>, a: seq<Byte>, b: seq<Byte>)
    ensures Stored(capacity, Stored(capacity, content, a), b) == Stored(capacity, content, a + b)
  {
  }

  /** The next piece of something larger: it fits, or what is stored is all that ever will be. */
  lemma NextPiece(capacity: nat, content: seq<Byte>, done: seq<Byte>, piece: seq<Byte>, rest: seq<Byte>)
    requires done == [] || |content + done| <= capacity
    ensures var stored := Stored(capacity, content + done, piece);
            if |content| + |done| + |piece| <= capacity then stored == content + (done + piece)
            else stored == Stored(capacity, content, done + piece + rest)
  {
    if |content| + |done| + |piece| <= capacity {
      assert content + done + piece == content + (done + piece);
    } else if |content| <= capacity {
      var room := capacity - |content| - |done|;
      assert (done + piece + rest)[..capacity - |content|] == done + piece[..room];
      assert content + done + piece[..room] == content + (done + piece[..room]);
    } else {
      assert content + [] == content;
    }
  }

  lemma AllStored(capacity: nat, content: seq<Byte>, data: seq<Byte>)
    requires data == [] || |content| + |data| <= capacity
    ensures Stored(capacity, content, data) == content + data
  {
    assert data == [] ==> content + data == content;
  }

  lemma HowMuch(capacity: nat, content: seq<Byte>, data: seq<Byte>)
    ensures |Stored(capacity, content, data)| ==
            if |content| + |data| <= capacity then |content| + |data|
            else if |content| <= capacity then capacity else |content|
  {
  }

  lemma NoZeros()
    ensures Zeros(0) == []
  {
  }

  /** What follows the next fragment of a record, and where it all ends. */
  lemma AfterFragment(crc: Crc, off: nat, left: seq<Byte>, begin: bool) returns (tail: seq<Byte>)
    requires off <= BLOCK_SIZE
    ensures var n, next := FragmentLength(off, |left|), OffsetAfter(off, |left|);
            && Encode(crc, off, left, begin) == Fragment(crc, off, left, begin) + tail
            && tail == (if n == |left| then [] else Encode(crc, next, left[n..], false))
            && EndOffset(off, |left|) == if n == |left| then next else EndOffset(next, |left| - n)
  {
    hide Fragment;
    FragmentFirst(crc, off, left, begin);
    var n := FragmentLength(off, |left|);
    tail := if n == |left| then [] else Encode(crc, OffsetAfter(off, |left|), left[n..], false);
  }

  /** A file on a device that may run full: a failed append leaves some prefix of the data behind. */
  class WritableFile {
    var content: seq<Byte>
    const capacity: nat

    constructor (content: seq<Byte>, capacity: nat)
      ensures this.content == content && this.capacity == capacity
    {
      this.content, this.capacity := content, capacity;
    }

    method Append(data: seq<Byte>) returns (ok: bool)
      modifies this
      ensures content == Stored(capacity, old(content), data)
      ensures ok == (|old(content)| + |data| <= capacity)
    {
      ok := |content| + |data| <= capacity;
      content := Stored(capacity, content, data);
    }
  }

  class Writer {
    const dest: WritableFile
    const crc: Crc
    var blockOffset: nat

    /** Continues a file of the given length; a new file is one of length zero. */
    constructor (dest: WritableFile, destLength: nat, crc: Crc)
      ensures this.dest == dest && this.crc == crc && blockOffset == BlockOffset(destLength)
    {
      this.dest, this.crc := dest, crc;
      blockOffset := BlockOffset(destLength);
    }

    /** The writer knows where in a block the file ends. */
    ghost predicate Aligned()
      reads this, dest
    {
      blockOffset <= BLOCK_SIZE && BlockOffset(blockOffset) == BlockOffset(|dest.content|)
    }

    /** Appends one record. When the device fails, what is left in the file is a cut-off record. */
    method AddRecord(slice: seq<Byte>) returns (ok: bool)
      requires Aligned()
      modifies this, dest
      ensures dest.content == Stored(dest.capacity, old(dest.content), Encode(crc, old(blockOffset), slice, true))
      ensures ok == (|old(dest.content)| + |Encode(crc, old(blockOffset), slice, true)| <= dest.capacity)
      ensures ok ==> Aligned() && blockOffset == EndOffset(old(blockOffset), |slice|)
    {
      hide Encode, Fragment, BlockOffset, Stored, EndOffset;
      ghost var was := dest.content;
      ghost var whole := Encode(crc, blockOffset, slice, true);
      ghost var end := EndOffset(blockOffset, |slice|);
      ghost var done: seq<Byte> := [];
      EncodeEndsAt(crc, blockOffset, slice, true);
      SameOffsetSameAdvance(blockOffset, |was|, |whole|);
      var left := slice;
      var begin := true;
      ok := true;
      while begin || left != []
        invariant blockOffset <= BLOCK_SIZE && ok
        invariant dest.content == was + done
        invariant if begin then left == slice && done == [] && blockOffset == old(blockOffset)
                  else |was + done| <= dest.capacity
        invariant if begin || left != [] then
                    whole == done + Encode(crc, blockOffset, left, begin) && EndOffset(blockOffset, |left|) == end
                  else
                    whole == done && blockOffset == end
        decreases if begin then 1 else 0, |left|, if BLOCK_SIZE - blockOffset == HEADER_SIZE then 1 else 0
      {
        ghost var fragment := Fragment(crc, blockOffset, left, begin);
        ghost var tail := AfterFragment(crc, blockOffset, left, begin);
        NextPiece(dest.capacity, was, done, fragment, tail);
        assert whole == done + fragment + tail;
        ok, left := AddFragment(left, begin);
        begin := false;
        done := done + fragment;
        if !ok {
          return;
        }
      }
      AllStored(dest.capacity, was, done);
    }

    /** One turn of the fragmenting loop: the filling, if no header fits, and one physical record. */
    method AddFragment(left: seq<Byte>, begin: bool) returns (ok: bool, rest: seq<Byte>)
      requires blockOffset <= BLOCK_SIZE
      modifies this`blockOffset, dest
      ensures dest.content == Stored(dest.capacity, old(dest.content), Fragment(crc, old(blockOffset), left, begin))
      ensures ok == (|old(dest.content)| + |Fragment(crc, old(blockOffset), left, begin)| <= dest.capacity)
      ensures blockOffset == OffsetAfter(old(blockOffset), |left|)
      ensures rest == left[FragmentLength(old(blockOffset), |left|)..]
    {
      hide Stored, Header, Zeros;
      var leftover := BLOCK_SIZE - blockOffset;
      ghost var padding := Zeros(Padding(blockOffset));
      ghost var was := dest.content;
      AllStored(dest.capacity, was, []);
      NoZeros();
      if leftover < HEADER_SIZE {
        if leftover > 0 {
          var filled := dest.Append(Zeros(leftover));
        }
        blockOffset := 0;
      }
      assert was + [] == was;
      assert dest.content == Stored(dest.capacity, was, padding);
      var avail := BLOCK_SIZE - blockOffset - HEADER_SIZE;
      var n := if |left| < avail then |left| else avail;
      var t := RecordType(begin, n == |left|);
      StoredInPieces(dest.capacity, was, padding, Header(crc, t, left[..n]) + left[..n]);
      assert padding + (Header(crc, t, left[..n]) + left[..n]) == Fragment(crc, old(blockOffset), left, begin);
      HowMuch(dest.capacity, was, padding);
      ok := EmitPhysicalRecord(t, left[..n]);
      rest := left[n..];
    }

    method EmitPhysicalRecord(t: Byte, data: seq<Byte>) returns (ok: bool)
      requires blockOffset + HEADER_SIZE + |data| <= BLOCK_SIZE
      modifies this`blockOffset, dest
      ensures blockOffset == old(blockOffset) + HEADER_SIZE + |data|
      ensures dest.content == Stored(dest.capacity, old(dest.content), Header(crc, t, data) + data)
      ensures ok == (|old(dest.content)| + HEADER_SIZE + |data| <= dest.capacity)
    {
      var header := Header(crc, t, data);
      StoredInPieces(dest.capacity, dest.content, header, data);
      ok := dest.Append(header);
      if ok {
        ok := dest.Append(data);
      }
      blockOffset := blockOffset + HEADER_SIZE + |data|;
    }
  }

  /** Appends records one after another, up to the first that fails. */
  method AddRecords(w: Writer, records: seq<seq<Byte>>) returns (ok: bool)
    requires w.Aligned()
    modifies w, w.dest
    ensures w.dest.content ==
            Stored(w.dest.capacity, old(w.dest.content), EncodeAll(w.crc, BlockOffset(|old(w.dest.content)|), records))
    ensures var bytes := EncodeAll(w.crc, BlockOffset(|old(w.dest.content)|), records);
            ok == (records == [] || |old(w.dest.content)| + |bytes| <= w.dest.capacity)
    ensures ok ==> w.Aligned()
  {
    hide Encode, EncodeAll, BlockOffset, Stored;
    ghost var was := w.dest.content;
    ghost var off := BlockOffset(|was|);
    ghost var whole := EncodeAll(w.crc, off, records);
    NoRecords(w.crc, off);
    ok := true;
    ghost var done: seq<Byte> := [];
    for i := 0 to |records|
      invariant ok && w.Aligned() && w.dest.content == was + done
      invariant if i == 0 then done == [] else |was + done| <= w.dest.capacity
      invariant whole == done + EncodeAll(w.crc, BlockOffset(|was + done|), records[i..])
    {
      ghost var e := Encode(w.crc, BlockOffset(|was + done|), records[i], true);
      EncodeAtEquivalentOffsets(w.crc, w.blockOffset, records[i], true);
      ghost var tail := NextRecord(w.crc, |was + done|, records, i);
      assert whole == done + e + tail;
      NextPiece(w.dest.capacity, was, done, e, tail);
      ok := w.AddRecord(records[i]);
      done := done + e;
      if !ok {
        return;
      }
    }
    NoRecords(w.crc, BlockOffset(|was + done|));
    assert records[|records|..] == [] && done + [] == done;
    AllStored(w.dest.capacity, was, done);
  }

  lemma NoRecords(crc: Crc, off: nat)
    requires off <= BLOCK_SIZE
    ensures EncodeAll(crc, off, []) == []
  {
  }

  /** The next record, and what follows it, from a file position on. */
  lemma NextRecord(crc: Crc, p: nat, records: seq<seq<Byte>>, i: nat) returns (tail: seq<Byte>)
    requires i < |records|
    ensures var e := Encode(crc, BlockOffset(p), records[i], true);
            && tail == EncodeAll(crc, BlockOffset(p + |e|), records[i + 1..])
            && EncodeAll(crc, BlockOffset(p), records[i..]) == e + tail
  {
    hide Encode, BlockOffset;
    var e := Encode(crc, BlockOffset(p), records[i], true);
    AdvanceFromPosition(p, |e|);
    assert records[i..][1..] == records[i + 1..];
    tail := EncodeAll(crc, BlockOffset(p + |e|), records[i + 1..]);
  }
}
