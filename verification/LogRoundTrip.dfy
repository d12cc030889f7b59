/** What the writer appended is what the reader returns, wherever the file was cut off. */
module LogRoundTrip {
  import opened Entries
  import opened Coding
  import opened LogFormat
  import opened LogReader
  import opened LogWriter

  /** The fragment at p can be parsed: its header bytes are in the file. */
  lemma HeaderInPlace(crc: Crc, file: seq<Byte>, p: nat, payload: seq<Byte>, begin: bool, tail: seq<Byte>)
    requires p <= |file| && file[p..] <= Fragment(crc, BlockOffset(p), payload, begin) + tail
    requires p + Padding(BlockOffset(p)) + HEADER_SIZE <= |file|
    ensures var n := FragmentLength(BlockOffset(p), |payload|);
            var q := p + Padding(BlockOffset(p));
            var t := RecordType(begin, n == |payload|);
            && file[q..q + HEADER_SIZE] == Header(crc, t, payload[..n])
            && (q + HEADER_SIZE + n <= |file| ==> file[q + HEADER_SIZE..q + HEADER_SIZE + n] == payload[..n])
  {
    hide Header, BlockOffset;
    var n := FragmentLength(BlockOffset(p), |payload|);
    var pad := Padding(BlockOffset(p));
    var h := Header(crc, RecordType(begin, n == |payload|), payload[..n]);
    var whole := Fragment(crc, BlockOffset(p), payload, begin) + tail;
    assert whole == Zeros(pad) + h + payload[..n] + tail;
    SliceInPlace(file, p, whole, pad, pad + HEADER_SIZE);
    assert whole[pad..pad + HEADER_SIZE] == h;
    if p + pad + HEADER_SIZE + n <= |file| {
      SliceInPlace(file, p, whole, pad + HEADER_SIZE, pad + HEADER_SIZE + n);
      assert whole[pad + HEADER_SIZE..pad + HEADER_SIZE + n] == payload[..n];
    }
  }

  lemma SliceInPlace(file: seq<Byte>, p: nat, whole: seq<Byte>, i: nat, j: nat)
    requires p <= |file| && file[p..] <= whole && i <= j && p + j <= |file|
    ensures file[p + i..p + j] == whole[i..j]
  {
    assert file[p + i..p + j] == file[p..][i..j];
  }

  /** A header decodes to what it was made from. */
  lemma HeaderDecodes(crc: Crc, file: seq<Byte>, q: nat, t: Byte, data: seq<Byte>)
    requires q + HEADER_SIZE <= |file| && |data| < 0x1_0000 && file[q..q + HEADER_SIZE] == Header(crc, t, data)
    ensures HeaderLength(file, q) == |data| && file[q + 6] == t
    ensures Unmask(DecodeFixed(file[q..q + 4]) % 0x1_0000_0000) == crc([t] + data)
  {
    hide Mask, Unmask, Fixed, DecodeFixed, Pow;
    var h := Header(crc, t, data);
    var word := Mask(crc([t] + data));
    assert file[q..q + 4] == Fixed(4, word) by {
      assert file[q..q + HEADER_SIZE][..4] == file[q..q + 4] && h[..4] == Fixed(4, word);
    }
    assert file[q + 4] == h[4] && file[q + 5] == h[5] && file[q + 6] == h[6];
    FourBytes();
    FixedRoundTrip(4, word);
    UnmaskInvertsMask(crc([t] + data));
  }

  lemma FourBytes()
    ensures Pow(256, 4) == 0x1_0000_0000
  {
  }

  /** Where the next header goes: after the filling, with room for the whole fragment in its block. */
  lemma FragmentPlace(file: seq<Byte>, p: nat, left: nat)
    requires p <= |file|
    ensures var off := BlockOffset(p);
            var q := p + Padding(off);
            && (q + HEADER_SIZE > |file| ==>
                  BlockEnd(file, p) - p < HEADER_SIZE &&
                  (!InShortBlock(file, p) ==> BlockEnd(file, BlockEnd(file, p)) - BlockEnd(file, p) < HEADER_SIZE))
            && (q + HEADER_SIZE <= |file| ==>
                  && (if Padding(off) == 0 then BlockEnd(file, p) - p >= HEADER_SIZE
                      else BlockEnd(file, p) == q && q - p < HEADER_SIZE && !InShortBlock(file, p))
                  && BlockEnd(file, q) - q >= HEADER_SIZE
                  && (q + HEADER_SIZE + FragmentLength(off, left) <= |file| ==>
                        q + HEADER_SIZE + FragmentLength(off, left) <= BlockEnd(file, q))
                  && (q + HEADER_SIZE + FragmentLength(off, left) > |file| ==>
                        InShortBlock(file, q) && BlockEnd(file, q) == |file|))
  {
  }

  /** A physical record whose header is in the file: whole, or cut off by the end of the file. */
  lemma ParsesBack(crc: Crc, file: seq<Byte>, q: nat, t: Byte, data: seq<Byte>)
    requires q + HEADER_SIZE <= |file| && |data| < 0x1_0000 && t != ZERO_TYPE
    requires q + HEADER_SIZE <= BlockEnd(file, q) && file[q..q + HEADER_SIZE] == Header(crc, t, data)
    requires var next := q + HEADER_SIZE + |data|;
             if next <= |file| then next <= BlockEnd(file, q) && file[q + HEADER_SIZE..next] == data
             else InShortBlock(file, q) && BlockEnd(file, q) == |file|
    ensures var next := q + HEADER_SIZE + |data|;
            ParsePhysical(crc, file, q) ==
            if next <= |file| then Physical(t, data, next, []) else Physical(EOF, [], |file|, [])
  {
    hide BlockEnd, InShortBlock, Header, Unmask, DecodeFixed, HeaderLength;
    HeaderDecodes(crc, file, q, t, data);
    var next := q + HEADER_SIZE + |data|;
    if next <= |file| {
      assert file[q + 6..next] == [t] + data by {
        assert file[q + 6..next] == [file[q + 6]] + file[q + HEADER_SIZE..next];
      }
    }
  }

  /** A fragment that is whole in the file is read back; a cut-off one reads as the end of the file. */
  lemma FragmentReads(crc: Crc, file: seq<Byte>, p: nat, payload: seq<Byte>, begin: bool, tail: seq<Byte>)
    requires p <= |file| && file[p..] <= Fragment(crc, BlockOffset(p), payload, begin) + tail
    ensures var n := FragmentLength(BlockOffset(p), |payload|);
            var next := p + Padding(BlockOffset(p)) + HEADER_SIZE + n;
            ReadPhysical(crc, file, p) ==
            if next <= |file| then Physical(RecordType(begin, n == |payload|), payload[..n], next, [])
            else Physical(EOF, [], |file|, [])
  {
    hide BlockOffset, BlockEnd, InShortBlock, Header, Fragment, ParsePhysical, ReadPhysical;
    var n := FragmentLength(BlockOffset(p), |payload|);
    var q := p + Padding(BlockOffset(p));
    FragmentPlace(file, p, |payload|);
    ReadPhysicalAt(crc, file, p);
    if q + HEADER_SIZE <= |file| {
      HeaderInPlace(crc, file, p, payload, begin, tail);
      ParsesBack(crc, file, q, RecordType(begin, n == |payload|), payload[..n]);
    }
  }

  /** The state after reading one fragment of a record that continues. */
  lemma ContinuedRecord(crc: Crc, file: seq<Byte>, p: nat, payload: seq<Byte>, begin: bool, tail: seq<Byte>)
    returns (next: nat, rest: seq<Byte>)
    requires p <= |file| && file[p..] <= Encode(crc, BlockOffset(p), payload, begin) + tail
    requires var f := Fragment(crc, BlockOffset(p), payload, begin); p + |f| <= |file|
    requires FragmentLength(BlockOffset(p), |payload|) < |payload|
    ensures next == p + |Fragment(crc, BlockOffset(p), payload, begin)|
    ensures rest == payload[FragmentLength(BlockOffset(p), |payload|)..]
    ensures file[next..] <= Encode(crc, BlockOffset(next), rest, false) + tail
    ensures |Encode(crc, BlockOffset(p), payload, begin)| == next - p + |Encode(crc, BlockOffset(next), rest, false)|
  {
    hide Fragment, Encode, BlockOffset;
    var off := BlockOffset(p);
    var f := Fragment(crc, off, payload, begin);
    next, rest := p + |f|, payload[FragmentLength(off, |payload|)..];
    var more := Encode(crc, OffsetAfter(off, |payload|), rest, false);
    FragmentFirst(crc, off, payload, begin);
    assert file[p..][|f|..] == file[next..] && (f + more + tail)[|f|..] == more + tail;
    WrapOnce(off, |payload|, 0);
    AdvanceFromPosition(p, |f|);
    EncodeAtEquivalentOffsets(crc, OffsetAfter(off, |payload|), rest, false);
  }

  /** A fragment without payload, of a record that continues, ends its block. */
  lemma EmptyFragment(p: nat, left: nat)
    requires FragmentLength(BlockOffset(p), left) == 0 < left
    ensures BLOCK_SIZE - BlockOffset(p) == HEADER_SIZE && Padding(BlockOffset(p)) == 0
    ensures BlockOffset(p + HEADER_SIZE) == 0
  {
  }

  /** The first fragment of what is left of a record: whole, or cut off. */
  lemma FirstFragmentReads(crc: Crc, file: seq<Byte>, p: nat, payload: seq<Byte>, begin: bool, tail: seq<Byte>)
    requires p <= |file| && file[p..] <= Encode(crc, BlockOffset(p), payload, begin) + tail
    ensures var n := FragmentLength(BlockOffset(p), |payload|);
            var next := p + |Fragment(crc, BlockOffset(p), payload, begin)|;
            && |Encode(crc, BlockOffset(p), payload, begin)| >= next - p
            && (n == |payload| ==> |Encode(crc, BlockOffset(p), payload, begin)| == next - p)
            && ReadPhysical(crc, file, p) ==
               if next <= |file| then Physical(RecordType(begin, n == |payload|), payload[..n], next, [])
               else Physical(EOF, [], |file|, [])
  {
    hide Fragment, ReadPhysical, BlockOffset;
    var off := BlockOffset(p);
    var f := Fragment(crc, off, payload, begin);
    FragmentFirst(crc, off, payload, begin);
    var rest := Encode(crc, off, payload, begin)[|f|..];
    assert Encode(crc, off, payload, begin) + tail == f + (rest + tail);
    FragmentReads(crc, file, p, payload, begin, rest + tail);
  }

  /** A record that is whole in the file is read back; a cut-off one reads as the end of the file,
      with nothing reported. */
  lemma {:induction false} RecordReads(crc: Crc, file: seq<Byte>, p: nat, payload: seq<Byte>,
                                       scratch: Option<seq<Byte>>, tail: seq<Byte>)
    requires p <= |file| && file[p..] <= Encode(crc, BlockOffset(p), payload, scratch.None?) + tail
    ensures var next := p + |Encode(crc, BlockOffset(p), payload, scratch.None?)|;
            Assemble(crc, file, p, scratch) ==
            if next <= |file| then Logical(true, (if scratch.Some? then scratch.value else []) + payload, next, [])
            else Logical(false, [], |file|, [])
    decreases |payload|, if BLOCK_SIZE - BlockOffset(p) == HEADER_SIZE then 1 else 0
  {
    hide Fragment, ReadPhysical, Encode, BlockOffset;
    var begin := scratch.None?;
    var n := FragmentLength(BlockOffset(p), |payload|);
    var had := if scratch.Some? then scratch.value else [];
    FirstFragmentReads(crc, file, p, payload, begin, tail);
    if p + |Fragment(crc, BlockOffset(p), payload, begin)| <= |file| && n < |payload| {
      var next, rest := ContinuedRecord(crc, file, p, payload, begin, tail);
      if n == 0 {
        EmptyFragment(p, |payload|);
      }
      RecordReads(crc, file, next, rest, Some(had + payload[..n]), tail);
      Regrouped(had, payload, n);
    } else {
      Regrouped([], payload, |payload|);
    }
  }

  lemma Regrouped(had: seq<Byte>, payload: seq<Byte>, n: nat)
    requires n <= |payload|
    ensures [] + payload[..n] == payload[..n] && had + payload[..n] + payload[n..] == had + payload
    ensures n == |payload| ==> payload[..n] == payload
  {
    assert payload[..n] + payload[n..] == payload;
    assert had + payload[..n] + payload[n..] == had + (payload[..n] + payload[n..]);
  }

  /** How many of the records end within the first n bytes. */
  function WholeRecords(crc: Crc, off: nat, records: seq<seq<Byte>>, n: nat): (m: nat)
    requires off <= BLOCK_SIZE
    ensures m <= |records|
    decreases |records|
  {
    if records == [] then 0
    else
      var e := |Encode(crc, off, records[0], true)|;
      if e > n then 0 else 1 + WholeRecords(crc, Advance(off, e), records[1..], n - e)
  }

  lemma {:induction false} CutFileReads(crc: Crc, file: seq<Byte>, p: nat, records: seq<seq<Byte>>)
    requires p <= |file| && file[p..] <= EncodeAll(crc, BlockOffset(p), records)
    ensures ReadAll(crc, file, p) == (records[..WholeRecords(crc, BlockOffset(p), records, |file| - p)], [])
    decreases |records|
  {
    hide Encode, BlockOffset, Assemble;
    var off := BlockOffset(p);
    if records == [] {
      EndOfFile(crc, file);
    } else {
      var e := Encode(crc, off, records[0], true);
      var tail := EncodeAll(crc, Advance(off, |e|), records[1..]);
      RecordReads(crc, file, p, records[0], None, tail);
      assert [] + records[0] == records[0];
      if p + |e| <= |file| {
        var next := p + |e|;
        AdvanceFromPosition(p, |e|);
        assert file[next..] <= tail by {
          assert file[p..][|e|..] == file[next..] && (e + tail)[|e|..] == tail;
        }
        CutFileReads(crc, file, next, records[1..]);
        var m := WholeRecords(crc, Advance(off, |e|), records[1..], |file| - next);
        assert records[..1 + m] == [records[0]] + records[1..][..m];
        var noDrops: seq<nat> := [];
        assert noDrops + noDrops == noDrops;
      }
    }
  }

  lemma EndOfFile(crc: Crc, file: seq<Byte>)
    ensures Assemble(crc, file, |file|, None) == Logical(false, [], |file|, [])
  {
  }

  /** The log survives being cut at any byte: exactly the records that are whole come back, in order,
      and no corruption is reported. */
  lemma TruncatedLogReadsBack(crc: Crc, records: seq<seq<Byte>>, n: nat)
    requires n <= |EncodeAll(crc, 0, records)|
    ensures ReadAll(crc, EncodeAll(crc, 0, records)[..n], 0) == (records[..WholeRecords(crc, 0, records, n)], [])
  {
    hide EncodeAll, ReadAll, WholeRecords;
    var file := EncodeAll(crc, 0, records)[..n];
    assert file[0..] == file && |file| == n && BlockOffset(0) == 0;
    CutFileReads(crc, file, 0, records);
  }

  /** An uncut log gives every record back. */
  lemma {:induction false} UncutLogIsWhole(crc: Crc, off: nat, records: seq<seq<Byte>>)
    requires off <= BLOCK_SIZE
    ensures WholeRecords(crc, off, records, |EncodeAll(crc, off, records)|) == |records|
    decreases |records|
  {
    hide Encode;
    if records != [] {
      UncutLogIsWhole(crc, Advance(off, |Encode(crc, off, records[0], true)|), records[1..]);
    }
  }

  // ----- The classes together -----

  /** The records of all sessions, in order. */
  function Joined(sessions: seq<seq<seq<Byte>>>): seq<seq<Byte>> {
    if sessions == [] then [] else Joined(sessions[..|sessions| - 1]) + sessions[|sessions| - 1]
  }

  /** Sessions of appending to one new file, each with its own writer that knows the file's length. */
  method WriteSessions(dest: WritableFile, crc: Crc, sessions: seq<seq<seq<Byte>>>) returns (ok: bool)
    requires dest.content == []
    modifies dest
    ensures dest.content == Stored(dest.capacity, [], EncodeAll(crc, 0, Joined(sessions)))
    ensures ok == (|EncodeAll(crc, 0, Joined(sessions))| <= dest.capacity)
  {
    hide EncodeAll, Stored;
    ok := true;
    ghost var all := EncodeAll(crc, 0, Joined(sessions));
    NoRecords(crc, 0);
    for i := 0 to |sessions|
      invariant ok && dest.content == EncodeAll(crc, 0, Joined(sessions[..i]))
      invariant |dest.content| <= dest.capacity
    {
      ghost var was := dest.content;
      ghost var session := EncodeAll(crc, BlockOffset(|was|), sessions[i]);
      assert sessions[..i + 1][..i] == sessions[..i];
      SessionsConcatenate(crc, 0, Joined(sessions[..i]), sessions[i]);
      assert EncodeAll(crc, 0, Joined(sessions[..i + 1])) == was + session;
      var writer := new Writer(dest, |dest.content|, crc);
      ok := AddRecords(writer, sessions[i]);
      if !ok {
        LaterSessions(crc, sessions, i + 1);
        NextPiece(dest.capacity, [], was, session, all[|was + session|..]);
        assert [] + was == was && was + session + all[|was + session|..] == all;
        return;
      }
      NoRecords(crc, BlockOffset(|was|));
      AllStored(dest.capacity, was, session);
    }
    assert sessions[..|sessions|] == sessions;
    AllStored(dest.capacity, [], all);
    assert [] + all == all;
  }

  /** Earlier sessions are the beginning of the file. */
  lemma {:induction false} LaterSessions(crc: Crc, sessions: seq<seq<seq<Byte>>>, i: nat)
    requires i <= |sessions|
    ensures EncodeAll(crc, 0, Joined(sessions[..i])) <= EncodeAll(crc, 0, Joined(sessions))
  {
    hide EncodeAll;
    if i < |sessions| {
      var init := sessions[..|sessions| - 1];
      assert init[..i] == sessions[..i];
      LaterSessions(crc, init, i);
      SessionsConcatenate(crc, 0, Joined(init), sessions[|sessions| - 1]);
    } else {
      assert sessions[..i] == sessions;
    }
  }

  /** Write in any number of sessions to a device of any size, lose everything after some byte, and
      read: exactly the records whose last fragment is whole come back, and nothing is reported. */
  method WriteCutRead(crc: Crc, capacity: nat, sessions: seq<seq<seq<Byte>>>, cut: nat)
    returns (records: seq<seq<Byte>>, drops: seq<nat>)
    ensures var all := Joined(sessions);
            var written := |EncodeAll(crc, 0, all)|;
            var stored := if written <= capacity then written else capacity;
            records == all[..WholeRecords(crc, 0, all, if cut <= stored then cut else stored)] && drops == []
  {
    hide EncodeAll, ReadAll, WholeRecords;
    var dest := new WritableFile([], capacity);
    var ok := WriteSessions(dest, crc, sessions);
    ghost var all := EncodeAll(crc, 0, Joined(sessions));
    HowMuch(capacity, [], all);
    PrefixStored(capacity, all);
    var n := if cut <= |dest.content| then cut else |dest.content|;
    var file := new SequentialFile(dest.content[..n]);
    assert file.content == all[..n];
    var reader := new Reader(file, crc);
    records := ReadRecords(reader);
    drops := reader.drops;
    TruncatedLogReadsBack(crc, Joined(sessions), n);
  }

  lemma PrefixStored(capacity: nat, data: seq<Byte>)
    ensures Stored(capacity, [], data) <= data
  {
  }
}
