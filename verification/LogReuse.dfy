/** Continuing a log that was cut off, as the source does under `reuse_logs`. */
module LogReuse {
  import opened Entries
  import opened Coding
  import opened LogFormat
  import opened LogReader
  import opened LogRoundTrip

  /** The log `a`, cut to n bytes, after a writer that knows its length appended the records `b`. */
  function Reused(crc: Crc, a: seq<seq<Byte>>, n: nat, b: seq<seq<Byte>>): seq<Byte>
    requires n <= |EncodeAll(crc, 0, a)|
  {
    EncodeAll(crc, 0, a)[..n] + EncodeAll(crc, BlockOffset(n), b)
  }

  /** A record of `len` bytes at block offset `off`, of which c bytes are left, does no harm: nothing
      of it but the filling; only an empty first fragment; or part of a header so near the end of its
      block that filling follows, and turns it into the blank header that readers skip. */
  predicate Clean(off: nat, len: nat, c: nat)
    requires off <= BLOCK_SIZE
  {
    || c <= Padding(off)
    || (BLOCK_SIZE - off == HEADER_SIZE && c == HEADER_SIZE)
    || (&& BLOCK_SIZE - off >= HEADER_SIZE && c < HEADER_SIZE && BLOCK_SIZE - (off + c) < HEADER_SIZE
        && (c <= 4 || FragmentLength(off, len) == 0))
  }

  /** What a caller can check before it continues a log of n bytes: where in which record it ends. */
  predicate CleanCut(crc: Crc, off: nat, a: seq<seq<Byte>>, n: nat)
    requires off <= BLOCK_SIZE
    decreases |a|
  {
    if a == [] then true
    else
      var e := |Encode(crc, off, a[0], true)|;
      if e <= n then CleanCut(crc, Advance(off, e), a[1..], n - e) else Clean(off, |a[0]|, n)
  }

  /** The position of the fragment that the cut goes through, if it goes through one. */
  function TornIn(p: nat, len: nat, c: nat): Option<nat>
    decreases c
  {
    var off := BlockOffset(p);
    var f := Padding(off) + HEADER_SIZE + FragmentLength(off, len);
    if c <= Padding(off) then None
    else if c < f then Some(p + Padding(off))
    else TornIn(p + f, len - FragmentLength(off, len), c - f)
  }

  function TornAt(crc: Crc, p: nat, a: seq<seq<Byte>>, n: nat): Option<nat>
    decreases |a|
  {
    if a == [] then None
    else
      var e := |Encode(crc, BlockOffset(p), a[0], true)|;
      if e <= n then TornAt(crc, p + e, a[1..], n - e) else TornIn(p, |a[0]|, n)
  }

  /** The bytes at p happen to pass every check of the reader, the checksum included. */
  predicate Accepted(crc: Crc, file: seq<Byte>, p: nat) {
    && p <= |file| && p + HEADER_SIZE <= BlockEnd(file, p)
    && var n := HeaderLength(file, p);
       && p + HEADER_SIZE + n <= BlockEnd(file, p) && !(file[p + 6] == ZERO_TYPE && n == 0)
       && crc(file[p + 6..p + HEADER_SIZE + n]) == Unmask(DecodeFixed(file[p..p + 4]) % 0x1_0000_0000)
  }

  predicate Blank(file: seq<Byte>, p: nat) {
    p + HEADER_SIZE <= |file| && file[p + 6] == ZERO_TYPE && HeaderLength(file, p) == 0
  }

  /** Reading on with part of a record in hand. */
  function ReadFrom(crc: Crc, file: seq<Byte>, p: nat, scratch: Option<seq<Byte>>): (seq<seq<Byte>>, seq<nat>)
    requires p <= |file|
  {
    var r := Assemble(crc, file, p, scratch);
    if r.ok then
      var (records, drops) := ReadAll(crc, file, r.next);
      ([r.record] + records, r.drops + drops)
    else ([], r.drops)
  }

  /** Fewer records than there are, or something reported. */
  predicate Lost(r: (seq<seq<Byte>>, seq<nat>), b: seq<seq<Byte>>) {
    |r.0| < |b| || r.1 != []
  }

  // ----- Filling -----

  /** A record that starts with filling is the filling and the record from the next block on. */
  lemma FilledRecord(crc: Crc, off: nat, x: seq<Byte>)
    requires off < BLOCK_SIZE && Padding(off) > 0
    ensures Encode(crc, off, x, true) == Zeros(Padding(off)) + Encode(crc, 0, x, true)
  {
    hide Header, Encode;
    FragmentFirst(crc, off, x, true);
    FragmentFirst(crc, 0, x, true);
    assert Zeros(0) == [];
    assert Fragment(crc, off, x, true) == Zeros(Padding(off)) + Fragment(crc, 0, x, true);
  }

  lemma FillsUp(off: nat, n: nat)
    requires off < BLOCK_SIZE && Padding(off) > 0
    ensures BlockOffset(off + (Padding(off) + n)) == BlockOffset(0 + n)
  {
    assert off + (Padding(off) + n) == BLOCK_SIZE + n;
  }

  lemma FilledRecords(crc: Crc, off: nat, b: seq<seq<Byte>>)
    requires off < BLOCK_SIZE && Padding(off) > 0 && b != []
    ensures EncodeAll(crc, off, b) == Zeros(Padding(off)) + EncodeAll(crc, 0, b)
  {
    hide Encode, BlockOffset, Padding;
    FilledRecord(crc, off, b[0]);
    var e := Encode(crc, 0, b[0], true);
    assert Advance(off, Padding(off) + |e|) == Advance(0, |e|) by {
      FillsUp(off, |e|);
    }
    var rest := EncodeAll(crc, Advance(0, |e|), b[1..]);
    assert |Encode(crc, off, b[0], true)| == Padding(off) + |e|;
    assert Zeros(Padding(off)) + e + rest == Zeros(Padding(off)) + (e + rest);
  }

  /** A writer that finds some of the filling there adds the rest. */
  lemma FillingContinues(crc: Crc, p: nat, c: nat, b: seq<seq<Byte>>)
    requires b != [] && c <= Padding(BlockOffset(p))
    ensures EncodeAll(crc, BlockOffset(p), b) == Zeros(c) + EncodeAll(crc, BlockOffset(p + c), b)
  {
    hide EncodeAll;
    var pad := Padding(BlockOffset(p));
    if pad == 0 {
      assert Zeros(0) == [];
    } else {
      FilledRecords(crc, BlockOffset(p), b);
      if c < pad {
        FilledRecords(crc, BlockOffset(p + c), b);
        assert Zeros(pad) == Zeros(c) + Zeros(pad - c);
      } else {
        assert BlockOffset(p + c) == 0;
      }
    }
  }

  // ----- Reading -----

  /** Whole records read back. */
  lemma WholeReads(crc: Crc, file: seq<Byte>, p: nat, b: seq<seq<Byte>>)
    requires p <= |file| && file[p..] == EncodeAll(crc, BlockOffset(p), b)
    ensures ReadAll(crc, file, p) == (b, [])
  {
    hide ReadAll, EncodeAll, BlockOffset, WholeRecords;
    CutFileReads(crc, file, p, b);
    UncutLogIsWhole(crc, BlockOffset(p), b);
    assert |file| - p == |file[p..]|;
    assert b[..|b|] == b;
  }

  /** What the reader makes of bytes it does not accept. */
  lemma NotAccepted(crc: Crc, file: seq<Byte>, q: nat)
    requires q <= |file| && q + HEADER_SIZE <= BlockEnd(file, q) && !Accepted(crc, file, q)
    ensures var r, end := ReadPhysical(crc, file, q), BlockEnd(file, q);
            || r == Physical(EOF, [], end, [])
            || r == Physical(BAD_RECORD, [], end, [end - q])
            || (Blank(file, q) && r == Physical(BAD_RECORD, [], end, []))
    ensures Blank(file, q) ==> ReadPhysical(crc, file, q) == Physical(BAD_RECORD, [], BlockEnd(file, q), [])
  {
    hide BlockEnd, InShortBlock, Unmask, DecodeFixed;
  }

  /** With nothing in hand: nothing more, something reported, or a blank header skipped. */
  lemma SkipsTorn(crc: Crc, file: seq<Byte>, p: nat, q: nat, b: seq<seq<Byte>>)
    requires p <= q <= |file| && q + HEADER_SIZE <= BlockEnd(file, q) && !Accepted(crc, file, q) && b != []
    requires ReadPhysical(crc, file, p) == ReadPhysical(crc, file, q)
    ensures Blank(file, q) ==> ReadAll(crc, file, p) == ReadAll(crc, file, BlockEnd(file, q))
    ensures !Blank(file, q) ==> Lost(ReadAll(crc, file, p), b)
  {
    hide BlockEnd, ReadPhysical, Accepted, Blank, TakeFragment;
    NotAccepted(crc, file, q);
    Turns(None);
    var end := BlockEnd(file, q);
    var f := ReadPhysical(crc, file, p);
    if Blank(file, q) {
      var noDrops: seq<nat> := [];
      assert noDrops + noDrops + Assemble(crc, file, end, None).drops == Assemble(crc, file, end, None).drops;
      assert Assemble(crc, file, p, None) == Assemble(crc, file, end, None);
    }
  }

  /** With a fragment in hand, even an empty one: nothing more, or something reported. */
  lemma DropsTorn(crc: Crc, file: seq<Byte>, q: nat, scratch: Option<seq<Byte>>, b: seq<seq<Byte>>)
    requires q <= |file| && q + HEADER_SIZE <= BlockEnd(file, q) && !Accepted(crc, file, q) && b != []
    requires scratch.Some?
    ensures Lost(ReadFrom(crc, file, q, scratch), b)
  {
    hide BlockEnd, ReadPhysical, Accepted, Blank, TakeFragment, ReadAll;
    NotAccepted(crc, file, q);
    Turns(scratch);
    var f := ReadPhysical(crc, file, q);
    if f.kind == BAD_RECORD {
      assert Assemble(crc, file, q, scratch).drops != [];
    }
  }

  lemma Turns(scratch: Option<seq<Byte>>)
    ensures TakeFragment(EOF, [], scratch) == Done(false, [], [])
    ensures TakeFragment(BAD_RECORD, [], scratch) == Go(None, if scratch.Some? then [|scratch.value|] else [])
  {
  }

  lemma FragmentKind(begin: bool, end: bool)
    ensures RecordType(begin, end) != ZERO_TYPE
    ensures begin ==> RecordType(begin, end) == if end then FULL_TYPE else FIRST_TYPE
    ensures !begin ==> RecordType(begin, end) == if end then LAST_TYPE else MIDDLE_TYPE
  {
  }

  /** Past a whole fragment of a record that goes on: a block starts, with the rest of the record. */
  lemma FragmentThenRest(crc: Crc, file: seq<Byte>, p: nat, payload: seq<Byte>, begin: bool, c: nat, x: seq<Byte>)
    requires p <= |file| && c <= |Encode(crc, BlockOffset(p), payload, begin)|
    requires file[p..] == Encode(crc, BlockOffset(p), payload, begin)[..c] + x
    requires var n := FragmentLength(BlockOffset(p), |payload|);
             n < |payload| && Padding(BlockOffset(p)) + HEADER_SIZE + n <= c
    ensures var n := FragmentLength(BlockOffset(p), |payload|);
            var f := Padding(BlockOffset(p)) + HEADER_SIZE + n;
            && p + f <= |file| && BlockOffset(p + f) == 0
            && |Encode(crc, BlockOffset(p), payload, begin)| == f + |Encode(crc, 0, payload[n..], false)|
            && file[p + f..] == Encode(crc, 0, payload[n..], false)[..c - f] + x
            && ReadPhysical(crc, file, p) == Physical(RecordType(begin, false), payload[..n], p + f, [])
            && (n == 0 <==> BLOCK_SIZE - BlockOffset(p) == HEADER_SIZE)
  {
    hide Encode, ReadPhysical, BlockOffset, Fragment;
    var off := BlockOffset(p);
    var n := FragmentLength(off, |payload|);
    var whole, fragment := Encode(crc, off, payload, begin), Fragment(crc, off, payload, begin);
    var rest, f := Encode(crc, 0, payload[n..], false), |fragment|;
    FragmentFirst(crc, off, payload, begin);
    BlockEndIsBlockStart(crc, payload[n..], false);
    assert OffsetAfter(off, |payload|) == BLOCK_SIZE;
    CutPiece(fragment, rest, c, x);
    FragmentReads(crc, file, p, payload, begin, rest[..c - f] + x);
    PastPiece(file, p, fragment, rest[..c - f] + x);
    BlockOffsetAfter(p, |payload|);
  }

  lemma CutPiece(piece: seq<Byte>, rest: seq<Byte>, c: nat, x: seq<Byte>)
    requires |piece| <= c <= |piece + rest|
    ensures (piece + rest)[..c] + x == piece + (rest[..c - |piece|] + x)
  {
  }

  lemma PastPiece(file: seq<Byte>, p: nat, piece: seq<Byte>, rest: seq<Byte>)
    requires p <= |file| && file[p..] == piece + rest
    ensures p + |piece| <= |file| && file[p + |piece|..] == rest
  {
    assert file[p + |piece|..] == file[p..][|piece|..];
  }

  lemma BlockOffsetAfter(p: nat, left: nat)
    requires FragmentLength(BlockOffset(p), left) < left
    ensures BlockOffset(p + Padding(BlockOffset(p)) + HEADER_SIZE + FragmentLength(BlockOffset(p), left)) == 0
  {
  }

  /** A log has at least a header to a record. */
  lemma NotShort(crc: Crc, off: nat, b: seq<seq<Byte>>)
    requires off <= BLOCK_SIZE && b != []
    ensures |EncodeAll(crc, off, b)| >= Padding(off) + HEADER_SIZE
  {
    hide Fragment;
    FragmentFirst(crc, off, b[0], true);
  }

  /** The first fragment of whole records. */
  lemma FirstOfAll(crc: Crc, file: seq<Byte>, p: nat, b: seq<seq<Byte>>)
    requires p <= |file| && file[p..] == EncodeAll(crc, BlockOffset(p), b) && b != []
    ensures var f := ReadPhysical(crc, file, p);
            (f.kind == FULL_TYPE || f.kind == FIRST_TYPE) && f.drops == [] && f.next <= |file|
  {
    hide Encode, ReadPhysical, BlockOffset, EncodeAll;
    var e := Encode(crc, BlockOffset(p), b[0], true);
    FirstAndRest(crc, BlockOffset(p), b);
    var tail := EncodeAll(crc, Advance(BlockOffset(p), |e|), b[1..]);
    FirstFragmentReads(crc, file, p, b[0], true, tail);
    assert |file| - p == |e| + |tail|;
  }

  lemma FirstAndRest(crc: Crc, off: nat, b: seq<seq<Byte>>)
    requires off <= BLOCK_SIZE && b != []
    ensures var e := Encode(crc, off, b[0], true);
            EncodeAll(crc, off, b) == e + EncodeAll(crc, Advance(off, |e|), b[1..])
  {
  }

  /** Whole records after a fragment in hand: they are read, and the fragment is reported unless it is
      empty. */
  lemma HandsOver(crc: Crc, file: seq<Byte>, p: nat, s: seq<Byte>, b: seq<seq<Byte>>)
    requires p <= |file| && file[p..] == EncodeAll(crc, BlockOffset(p), b) && b != []
    ensures ReadFrom(crc, file, p, Some(s)) == (b, if s == [] then [] else [|s|])
  {
    hide ReadPhysical, EncodeAll, BlockOffset;
    WholeReads(crc, file, p, b);
    FirstOfAll(crc, file, p, b);
    var f := ReadPhysical(crc, file, p);
    var plain, late := Assemble(crc, file, p, None), Assemble(crc, file, p, Some(s));
    assert late == plain.(drops := PartialDrop(Some(s)) + plain.drops);
    var rest := ReadAll(crc, file, plain.next);
    assert plain.drops + rest.1 == [];
    assert plain.ok && [plain.record] + rest.0 == b && plain.drops == [] && rest.1 == [];
    assert ReadFrom(crc, file, p, Some(s)) == ([plain.record] + rest.0, late.drops + rest.1);
    assert late.drops + rest.1 == PartialDrop(Some(s));
  }

  /** A cut later than the first fragment of a record, whatever it goes through, loses records or is
      reported. */
  lemma {:induction false} TornLater(crc: Crc, file: seq<Byte>, p: nat, payload: seq<Byte>, s: seq<Byte>, c: nat,
                                     b: seq<seq<Byte>>)
    requires p <= |file| && BlockOffset(p) == 0 && b != [] && c < |Encode(crc, 0, payload, false)|
    requires c == 0 ==> s != []
    requires file[p..] == Encode(crc, 0, payload, false)[..c] + EncodeAll(crc, BlockOffset(p + c), b)
    requires var t := TornIn(p, |payload|, c); t.Some? ==> !Accepted(crc, file, t.value)
    ensures Lost(ReadFrom(crc, file, p, Some(s)), b)
    decreases c
  {
    hide Encode, EncodeAll, BlockOffset, ReadPhysical, Accepted, ReadAll, BlockEnd;
    var n := FragmentLength(0, |payload|);
    var f := HEADER_SIZE + n;
    if c == 0 {
      assert file[p..] == EncodeAll(crc, BlockOffset(p), b);
      HandsOver(crc, file, p, s, b);
    } else if c < f {
      NotShort(crc, BlockOffset(p + c), b);
      RoomInBlock(file, p);
      DropsTorn(crc, file, p, Some(s), b);
    } else {
      OneFragment(crc, 0, payload, false);
      FragmentThenRest(crc, file, p, payload, false, c, EncodeAll(crc, BlockOffset(p + c), b));
      FragmentKind(false, false);
      TornLater(crc, file, p + f, payload[n..], s + payload[..n], c - f, b);
      var more := Assemble(crc, file, p + f, Some(s + payload[..n]));
      assert Assemble(crc, file, p, Some(s)) == more.(drops := [] + [] + more.drops);
    }
  }

  /** A record that one fragment holds is no longer than that. */
  lemma OneFragment(crc: Crc, off: nat, payload: seq<Byte>, begin: bool)
    requires off <= BLOCK_SIZE
    ensures var n := FragmentLength(off, |payload|);
            n == |payload| ==> |Encode(crc, off, payload, begin)| == Padding(off) + HEADER_SIZE + n
  {
    hide Fragment;
    FragmentFirst(crc, off, payload, begin);
  }

  /** Room for a header, in the block and in the file. */
  lemma RoomInBlock(file: seq<Byte>, p: nat)
    requires p + HEADER_SIZE <= |file| && Padding(BlockOffset(p)) == 0
    ensures p + HEADER_SIZE <= BlockEnd(file, p)
  {
  }

  // ----- Skipping to the next block -----

  /** What lies before and after the end of the block in which whole records start. */
  lemma BlockAndRest(crc: Crc, file: seq<Byte>, p: nat, b: seq<seq<Byte>>)
    requires p <= |file| && file[p..] == EncodeAll(crc, BlockOffset(p), b) && b != [] && Padding(BlockOffset(p)) == 0
    ensures var n := FragmentLength(BlockOffset(p), |b[0]|);
            var next, end := p + HEADER_SIZE + n, BlockEnd(file, p);
            && next <= end
            && (n < |b[0]| ==> end == next)
            && (n == |b[0]| ==>
                  && file[next..] == EncodeAll(crc, BlockOffset(next), b[1..])
                  && (if b[1..] == [] then end == |file| == next
                      else if BlockOffset(next) == 0 then end == next
                      else if Padding(BlockOffset(next)) == 0 then end == BlockEnd(file, next)
                      else end == next + Padding(BlockOffset(next))))
  {
    hide Encode, EncodeAll, BlockOffset, BlockEnd, Fragment;
    var off := BlockOffset(p);
    var n := FragmentLength(off, |b[0]|);
    var next, e := p + HEADER_SIZE + n, Encode(crc, off, b[0], true);
    FirstAndRest(crc, off, b);
    var tail := EncodeAll(crc, Advance(off, |e|), b[1..]);
    assert |file[p..]| == |e| + |tail|;
    OneFragment(crc, off, b[0], true);
    FragmentFirst(crc, off, b[0], true);
    assert |e| >= HEADER_SIZE + n;
    if n == |b[0]| {
      AdvanceFromPosition(p, |e|);
      assert file[next..] == file[p..][|e|..] == tail;
      if b[1..] == [] {
        NoneLeft(crc, BlockOffset(next));
      } else {
        NotShort(crc, BlockOffset(next), b[1..]);
      }
    }
    EndOfBlock(file, p, n, |b[0]|);
  }

  lemma NoneLeft(crc: Crc, off: nat)
    requires off <= BLOCK_SIZE
    ensures EncodeAll(crc, off, []) == []
  {
  }

  lemma EndOfBlock(file: seq<Byte>, p: nat, n: nat, len: nat)
    requires Padding(BlockOffset(p)) == 0 && n == FragmentLength(BlockOffset(p), len) && p + HEADER_SIZE + n <= |file|
    ensures var next := p + HEADER_SIZE + n;
            && next <= BlockEnd(file, p)
            && (n < len ==> BlockEnd(file, p) == next)
            && (next == |file| || BlockOffset(next) == 0 ==> BlockEnd(file, p) == next)
            && (BlockOffset(next) > 0 && Padding(BlockOffset(next)) == 0 ==> BlockEnd(file, p) == BlockEnd(file, next))
            && (BlockOffset(next) > 0 && next + Padding(BlockOffset(next)) <= |file| &&
                Padding(BlockOffset(next)) > 0 ==>
                  BlockEnd(file, p) == next + Padding(BlockOffset(next)) &&
                  BlockOffset(next + Padding(BlockOffset(next))) == 0)
  {
  }

  /** A reader that skips the rest of the block in which whole records start loses one, or reports. */
  lemma {:induction false} LostInBlock(crc: Crc, file: seq<Byte>, p: nat, b: seq<seq<Byte>>)
    requires p <= |file| && file[p..] == EncodeAll(crc, BlockOffset(p), b) && b != [] && Padding(BlockOffset(p)) == 0
    ensures Lost(ReadAll(crc, file, BlockEnd(file, p)), b)
    decreases |b|
  {
    hide Encode, EncodeAll, BlockOffset, BlockEnd, Assemble;
    var n := FragmentLength(BlockOffset(p), |b[0]|);
    var next, end := p + HEADER_SIZE + n, BlockEnd(file, p);
    BlockAndRest(crc, file, p, b);
    if n < |b[0]| {
      FirstAndRest(crc, BlockOffset(p), b);
      assert |file[p..]| == |EncodeAll(crc, BlockOffset(p), b)|;
      LostStart(crc, file, p, b[0],
                EncodeAll(crc, Advance(BlockOffset(p), |Encode(crc, BlockOffset(p), b[0], true)|), b[1..]));
    } else if b[1..] == [] {
      EndOfFile(crc, file);
    } else if BlockOffset(next) == 0 {
      WholeReads(crc, file, next, b[1..]);
    } else if Padding(BlockOffset(next)) == 0 {
      LostInBlock(crc, file, next, b[1..]);
    } else {
      SkipFilling(crc, file, next, b[1..]);
    }
  }

  lemma SkipFilling(crc: Crc, file: seq<Byte>, p: nat, b: seq<seq<Byte>>)
    requires p <= |file| && file[p..] == EncodeAll(crc, BlockOffset(p), b) && b != []
    ensures var q := p + Padding(BlockOffset(p)); q <= |file| && ReadAll(crc, file, q) == (b, [])
  {
    hide EncodeAll, ReadAll, BlockOffset;
    var pad := Padding(BlockOffset(p));
    FillingContinues(crc, p, pad, b);
    assert |file[p..]| >= pad;
    assert file[p + pad..] == file[p..][pad..];
    WholeReads(crc, file, p + pad, b);
  }

  /** The next block then starts in the middle of a record, which is reported. */
  lemma LostStart(crc: Crc, file: seq<Byte>, p: nat, payload: seq<Byte>, tail: seq<Byte>)
    requires p <= |file| && file[p..] <= Encode(crc, BlockOffset(p), payload, true) + tail
    requires p + |Encode(crc, BlockOffset(p), payload, true)| <= |file|
    requires FragmentLength(BlockOffset(p), |payload|) < |payload|
    ensures var end := p + Padding(BlockOffset(p)) + HEADER_SIZE + FragmentLength(BlockOffset(p), |payload|);
            end <= |file| && ReadAll(crc, file, end).1 != []
  {
    hide Encode, BlockOffset, Fragment, ReadAll;
    OneFragmentFits(crc, BlockOffset(p), payload, true);
    var next, rest := ContinuedRecord(crc, file, p, payload, true, tail);
    MissingStart(crc, file, next, rest, tail);
  }

  lemma MissingStart(crc: Crc, file: seq<Byte>, p: nat, payload: seq<Byte>, tail: seq<Byte>)
    requires p <= |file| && file[p..] <= Encode(crc, BlockOffset(p), payload, false) + tail
    requires p + |Encode(crc, BlockOffset(p), payload, false)| <= |file|
    ensures ReadAll(crc, file, p).1 != []
  {
    hide Encode, BlockOffset, ReadPhysical, Fragment;
    FirstFragmentReads(crc, file, p, payload, false, tail);
    FragmentKind(false, FragmentLength(BlockOffset(p), |payload|) == |payload|);
    var f := ReadPhysical(crc, file, p);
    assert f.kind == MIDDLE_TYPE || f.kind == LAST_TYPE;
    assert Assemble(crc, file, p, None).drops != [];
  }

  lemma OneFragmentFits(crc: Crc, off: nat, payload: seq<Byte>, begin: bool)
    requires off <= BLOCK_SIZE
    ensures |Fragment(crc, off, payload, begin)| <= |Encode(crc, off, payload, begin)|
  {
    hide Fragment;
    FragmentFirst(crc, off, payload, begin);
  }

  // ----- A cut through the first fragment -----

  /** Part of a header, and then the filling and the block after it. */
  lemma BlankIff(crc: Crc, file: seq<Byte>, q: nat, t: Byte, data: seq<Byte>, k: nat, rest: seq<Byte>)
    requires q <= |file| && t != ZERO_TYPE && 0 < k < HEADER_SIZE && BLOCK_SIZE - BlockOffset(q) >= HEADER_SIZE + |data|
    requires BLOCK_SIZE - BlockOffset(q) - k < HEADER_SIZE
    requires file[q..] == Header(crc, t, data)[..k] + (Zeros(BLOCK_SIZE - BlockOffset(q) - k) + rest)
    ensures Blank(file, q) <==> k <= 4 || |data| == 0
  {
    hide Fixed, Mask;
    var h, z := Header(crc, t, data), Zeros(BLOCK_SIZE - BlockOffset(q) - k);
    assert |data| < 7;
    assert forall i :: 0 <= i < k ==> file[q + i] == file[q..][i] == h[i];
    assert forall i :: k <= i < HEADER_SIZE ==> file[q + i] == file[q..][i] == 0;
    assert h[4] == |data| && h[5] == 0;
  }

  /** A header that is all there is not blank. */
  lemma NotBlank(crc: Crc, file: seq<Byte>, q: nat, t: Byte, data: seq<Byte>)
    requires q + HEADER_SIZE <= |file| && t != ZERO_TYPE && |data| < 0x1_0000
    requires file[q..q + HEADER_SIZE] == Header(crc, t, data)
    ensures !Blank(file, q)
  {
    hide Fixed, Mask;
    assert file[q + 6] == file[q..q + HEADER_SIZE][6];
  }

  /** The cut of a first fragment, past the filling, k bytes into it. */
  lemma CutFragment(crc: Crc, file: seq<Byte>, p: nat, payload: seq<Byte>, c: nat, x: seq<Byte>)
    requires p <= |file| && c <= |Encode(crc, BlockOffset(p), payload, true)|
    requires file[p..] == Encode(crc, BlockOffset(p), payload, true)[..c] + x
    requires var off := BlockOffset(p); Padding(off) < c < Padding(off) + HEADER_SIZE + FragmentLength(off, |payload|)
    ensures var off := BlockOffset(p);
            var q, n := p + Padding(off), FragmentLength(off, |payload|);
            var h := Header(crc, RecordType(true, n == |payload|), payload[..n]);
            && p + c <= |file| && file[p + c..] == x
            && file[q..] == (h + payload[..n])[..c - Padding(off)] + x
  {
    hide Encode, Header, BlockOffset;
    var off := BlockOffset(p);
    var n := FragmentLength(off, |payload|);
    var h := Header(crc, RecordType(true, n == |payload|), payload[..n]);
    var fragment := Fragment(crc, off, payload, true);
    FragmentFirst(crc, off, payload, true);
    assert Encode(crc, off, payload, true)[..c] == fragment[..c];
    assert fragment == Zeros(Padding(off)) + (h + payload[..n]);
    assert fragment[..c] == Zeros(Padding(off)) + (h + payload[..n])[..c - Padding(off)];
    assert file[p + Padding(off)..] == file[p..][Padding(off)..];
    assert file[p + c..] == file[p..][c..];
  }

  /** Where the reader looks for the first fragment. */
  lemma AfterFilling(crc: Crc, file: seq<Byte>, p: nat)
    requires var q := p + Padding(BlockOffset(p)); q + HEADER_SIZE <= |file|
    ensures var q := p + Padding(BlockOffset(p));
            && q + HEADER_SIZE <= BlockEnd(file, q) && ReadPhysical(crc, file, p) == ReadPhysical(crc, file, q)
            && BLOCK_SIZE - BlockOffset(q) >= HEADER_SIZE && (Padding(BlockOffset(p)) > 0 ==> BlockOffset(q) == 0)
            && (Padding(BlockOffset(p)) == 0 ==> q == p)
  {
    hide ParsePhysical;
  }

  lemma SameBlock(file: seq<Byte>, q: nat, k: nat)
    requires q + k <= |file| && BLOCK_SIZE - BlockOffset(q) - k > 0
    ensures BlockEnd(file, q + k) == BlockEnd(file, q) && BlockOffset(q + k) == BlockOffset(q) + k
    ensures q + (BLOCK_SIZE - BlockOffset(q)) <= |file| ==> BlockEnd(file, q) == q + (BLOCK_SIZE - BlockOffset(q))
  {
  }

  /** A cut through the first fragment: clean exactly when filling follows and makes the header blank. */
  lemma TornFirst(crc: Crc, file: seq<Byte>, p: nat, payload: seq<Byte>, c: nat, b: seq<seq<Byte>>)
    requires p <= |file| && b != [] && c <= |Encode(crc, BlockOffset(p), payload, true)|
    requires file[p..] == Encode(crc, BlockOffset(p), payload, true)[..c] + EncodeAll(crc, BlockOffset(p + c), b)
    requires var off := BlockOffset(p); Padding(off) < c < Padding(off) + HEADER_SIZE + FragmentLength(off, |payload|)
    requires !Accepted(crc, file, p + Padding(BlockOffset(p)))
    ensures if Clean(BlockOffset(p), |payload|, c) then ReadAll(crc, file, p) == (b, [])
            else Lost(ReadAll(crc, file, p), b)
  {
    hide Encode, EncodeAll, BlockOffset, BlockEnd, ReadPhysical, Accepted, ReadAll, Blank, Header, Lost;
    var off := BlockOffset(p);
    var q, n := p + Padding(off), FragmentLength(off, |payload|);
    var k := c - Padding(off);
    var t := RecordType(true, n == |payload|);
    var h := Header(crc, t, payload[..n]);
    CutFragment(crc, file, p, payload, c, EncodeAll(crc, BlockOffset(p + c), b));
    NotShort(crc, BlockOffset(p + c), b);
    FragmentKind(true, n == |payload|);
    assert |file[p + c..]| >= HEADER_SIZE;
    AfterFilling(crc, file, p);
    SkipsTorn(crc, file, p, q, b);
    if k >= HEADER_SIZE {
      assert file[q..q + HEADER_SIZE] == file[q..][..HEADER_SIZE] == h;
      NotBlank(crc, file, q, t, payload[..n]);
    } else {
      SameBlock(file, q, k);
      if BLOCK_SIZE - BlockOffset(q) - k < HEADER_SIZE {
        assert (h + payload[..n])[..k] == h[..k];
        FilledHeader(crc, file, q, t, payload[..n], k, b);
      } else {
        LostInBlock(crc, file, q + k, b);
      }
    }
  }

  /** Filling after part of a header: skipping to the next block loses nothing. */
  lemma FilledHeader(crc: Crc, file: seq<Byte>, q: nat, t: Byte, data: seq<Byte>, k: nat, b: seq<seq<Byte>>)
    requires t != ZERO_TYPE && 0 < k < HEADER_SIZE && q + k <= |file| && b != []
    requires HEADER_SIZE + |data| <= BLOCK_SIZE - BlockOffset(q) < HEADER_SIZE + k
    requires file[q..] == Header(crc, t, data)[..k] + EncodeAll(crc, BlockOffset(q + k), b)
    requires file[q + k..] == EncodeAll(crc, BlockOffset(q + k), b)
    ensures Blank(file, q) <==> k <= 4 || |data| == 0
    ensures ReadAll(crc, file, BlockEnd(file, q)) == (b, [])
  {
    hide Encode, EncodeAll, BlockOffset, BlockEnd, ReadAll, Blank, Header;
    SameBlock(file, q, k);
    FilledRecords(crc, BlockOffset(q + k), b);
    BlankIff(crc, file, q, t, data, k, EncodeAll(crc, 0, b));
    SkipFilling(crc, file, q + k, b);
  }

  // ----- Any cut -----

  /** A cut inside a record. */
  lemma TornRecord(crc: Crc, file: seq<Byte>, p: nat, payload: seq<Byte>, c: nat, b: seq<seq<Byte>>)
    requires p <= |file| && b != [] && c < |Encode(crc, BlockOffset(p), payload, true)|
    requires file[p..] == Encode(crc, BlockOffset(p), payload, true)[..c] + EncodeAll(crc, BlockOffset(p + c), b)
    requires var t := TornIn(p, |payload|, c); t.Some? ==> !Accepted(crc, file, t.value)
    ensures if Clean(BlockOffset(p), |payload|, c) then ReadAll(crc, file, p) == (b, [])
            else Lost(ReadAll(crc, file, p), b)
  {
    hide Encode, EncodeAll, BlockOffset, BlockEnd, ReadPhysical, Accepted, ReadAll, Lost, Assemble;
    var off := BlockOffset(p);
    var pad, n := Padding(off), FragmentLength(off, |payload|);
    var f := pad + HEADER_SIZE + n;
    if c <= pad {
      OnlyFilling(crc, off, payload, c);
      FillingContinues(crc, p, c, b);
      WholeReads(crc, file, p, b);
    } else if c < f {
      TornFirst(crc, file, p, payload, c, b);
    } else {
      OneFragment(crc, off, payload, true);
      FragmentThenRest(crc, file, p, payload, true, c, EncodeAll(crc, BlockOffset(p + c), b));
      FragmentKind(true, false);
      FirstInHand(crc, file, p, payload[..n], p + f);
      if n == 0 && c == f {
        HandsOver(crc, file, p + f, [], b);
      } else {
        TornLater(crc, file, p + f, payload[n..], payload[..n], c - f, b);
      }
    }
  }

  lemma OnlyFilling(crc: Crc, off: nat, payload: seq<Byte>, c: nat)
    requires off <= BLOCK_SIZE && c <= Padding(off) && c <= |Encode(crc, off, payload, true)|
    ensures Encode(crc, off, payload, true)[..c] == Zeros(c)
  {
    hide Header;
    FragmentFirst(crc, off, payload, true);
  }

  lemma FirstInHand(crc: Crc, file: seq<Byte>, p: nat, data: seq<Byte>, next: nat)
    requires p <= |file| && next <= |file| && ReadPhysical(crc, file, p) == Physical(FIRST_TYPE, data, next, [])
    ensures ReadAll(crc, file, p) == ReadFrom(crc, file, next, Some(data))
  {
    hide ReadPhysical;
    var r := Assemble(crc, file, next, Some(data));
    assert Assemble(crc, file, p, None) == r by {
      assert Assemble(crc, file, p, None) == r.(drops := [] + [] + r.drops);
      assert [] + [] + r.drops == r.drops;
    }
  }

  lemma {:induction false} ReadsOnIff(crc: Crc, file: seq<Byte>, p: nat, a: seq<seq<Byte>>, n: nat, b: seq<seq<Byte>>)
    requires p <= |file| && b != [] && n <= |EncodeAll(crc, BlockOffset(p), a)|
    requires file[p..] == EncodeAll(crc, BlockOffset(p), a)[..n] + EncodeAll(crc, BlockOffset(p + n), b)
    requires var t := TornAt(crc, p, a, n); t.Some? ==> !Accepted(crc, file, t.value)
    ensures ReadAll(crc, file, p) == (a[..WholeRecords(crc, BlockOffset(p), a, n)] + b, []) <==>
            CleanCut(crc, BlockOffset(p), a, n)
    decreases |a|
  {
    hide Encode, EncodeAll, BlockOffset, Accepted, Assemble, TornIn, Clean;
    var off := BlockOffset(p);
    if a == [] {
      NoneLeft(crc, off);
      assert a[..0] + b == b;
      WholeReads(crc, file, p, b);
    } else {
      var e := Encode(crc, off, a[0], true);
      var tail, more := EncodeAll(crc, Advance(off, |e|), a[1..]), EncodeAll(crc, BlockOffset(p + n), b);
      FirstAndRest(crc, off, a);
      if |e| <= n {
        var next := p + |e|;
        AdvanceFromPosition(p, |e|);
        CutPiece(e, tail, n, more);
        PastPiece(file, p, e, tail[..n - |e|] + more);
        RecordReads(crc, file, p, a[0], None, tail[..n - |e|] + more);
        assert [] + a[0] == a[0];
        ReadsOnIff(crc, file, next, a[1..], n - |e|, b);
        var m := WholeRecords(crc, Advance(off, |e|), a[1..], n - |e|);
        OneMoreRead(a, m, b, ReadAll(crc, file, next));
      } else {
        assert (e + tail)[..n] == e[..n];
        TornRecord(crc, file, p, a[0], n, b);
        assert a[..0] + b == b;
      }
    }
  }

  lemma OneMoreRead(a: seq<seq<Byte>>, m: nat, b: seq<seq<Byte>>, r: (seq<seq<Byte>>, seq<nat>))
    requires a != [] && m < |a|
    ensures ([a[0]] + r.0 == a[..1 + m] + b && [] + r.1 == []) <==> (r.0 == a[1..][..m] + b && r.1 == [])
  {
    assert a[..1 + m] + b == [a[0]] + (a[1..][..m] + b);
    assert ([a[0]] + r.0)[1..] == r.0;
    assert ([a[0]] + (a[1..][..m] + b))[1..] == a[1..][..m] + b;
  }

  /** Any log cut at any byte and continued: the reader returns the whole records and everything that
      was appended, and reports nothing, exactly when the cut is clean; unless the bytes at the
      torn fragment's place happen to pass the reader's checksum. */
  lemma ReusedLogReadsIff(crc: Crc, a: seq<seq<Byte>>, n: nat, b: seq<seq<Byte>>)
    requires n <= |EncodeAll(crc, 0, a)| && b != []
    requires var t := TornAt(crc, 0, a, n); t.Some? ==> !Accepted(crc, Reused(crc, a, n, b), t.value)
    ensures ReadAll(crc, Reused(crc, a, n, b), 0) == (a[..WholeRecords(crc, 0, a, n)] + b, []) <==>
            CleanCut(crc, 0, a, n)
  {
    hide EncodeAll, ReadAll, Accepted, TornAt, CleanCut, WholeRecords;
    var file := Reused(crc, a, n, b);
    assert file[0..] == file;
    ReadsOnIff(crc, file, 0, a, n, b);
  }

  // ----- One that loses a record -----

  /** A short record is one fragment. */
  lemma ShortRecord(crc: Crc, off: nat, p: seq<Byte>)
    requires off + HEADER_SIZE + |p| < BLOCK_SIZE
    ensures Encode(crc, off, p, true) == Header(crc, FULL_TYPE, p) + p
  {
    hide Header;
    FragmentFirst(crc, off, p, true);
    assert p[..|p|] == p && Zeros(0) == [];
  }

  /** The file after a record of two bytes lost its last byte and a record of one byte was appended. */
  function ReusedLog(crc: Crc, a: Byte, b: Byte, c: Byte): seq<Byte> {
    Encode(crc, 0, [a, b], true)[..HEADER_SIZE + 1] + Encode(crc, HEADER_SIZE + 1, [c], true)
  }

  lemma ReusedLogParts(crc: Crc, a: Byte, b: Byte, c: Byte)
    ensures var file, h := ReusedLog(crc, a, b, c), HEADER_SIZE;
            && |file| == 2 * h + 2 && file[0..h] == Header(crc, FULL_TYPE, [a, b]) && file[h] == a
            && file[h + 1..] == Encode(crc, h + 1, [c], true)
  {
    hide Header;
    ShortRecord(crc, 0, [a, b]);
    ShortRecord(crc, HEADER_SIZE + 1, [c]);
  }

  /** `reuse_logs` continues the newest log where the file ends, even inside a record that was cut
      off. The half record then swallows what is appended after it: unless the checksums collide, a
      later recovery drops the whole block and the new record with it. */
  lemma ReusedCutLogLosesRecords(crc: Crc, a: Byte, b: Byte, c: Byte)
    requires var file := ReusedLog(crc, a, b, c);
             |file| == 16 && crc([1, a, file[HEADER_SIZE + 1]]) != crc([1, a, b])
    ensures ReadAll(crc, ReusedLog(crc, a, b, c), 0) == ([], [16])
  {
    hide Header, Encode, ReusedLog, Unmask, DecodeFixed;
    var file := ReusedLog(crc, a, b, c);
    ReusedLogParts(crc, a, b, c);
    HeaderDecodes(crc, file, 0, FULL_TYPE, [a, b]);
    assert file[6..9] == [1, a, file[8]] && [FULL_TYPE] + [a, b] == [1, a, b];
    assert ReadPhysical(crc, file, 0) == Physical(BAD_RECORD, [], 16, [16]);
    EndOfFile(crc, file);
    assert Assemble(crc, file, 0, None) == Logical(false, [], 16, [16]);
  }
}
