/** Reading a log file back, damaged or cut off though it may be. */
module LogReader {
  import opened Entries
  import opened Coding
  import opened LogFormat

  /** What a physical read can return besides a record type. */
  const EOF := 5
  const BAD_RECORD := 6

  // ----- The reader as a function of the file and a position -----

  /** Where the block around position p ends in the file. */
  function BlockEnd(file: seq<Byte>, p: nat): (e: nat)
    requires p <= |file|
    ensures p <= e <= |file|
  {
    if (p / BLOCK_SIZE + 1) * BLOCK_SIZE <= |file| then (p / BLOCK_SIZE + 1) * BLOCK_SIZE else |file|
  }

  /** The block around p is the last one, and not full. */
  predicate InShortBlock(file: seq<Byte>, p: nat) {
    (p / BLOCK_SIZE + 1) * BLOCK_SIZE > |file|
  }

  lemma StaysInBlock(file: seq<Byte>, p: nat)
    requires p <= |file|
    ensures forall q :: p <= q < BlockEnd(file, p) ==>
              BlockEnd(file, q) == BlockEnd(file, p) && InShortBlock(file, q) == InShortBlock(file, p)
    ensures InShortBlock(file, p) ==> BlockEnd(file, p) == |file| && InShortBlock(file, |file|)
  {
  }

  lemma EndOfFileIsShort(file: seq<Byte>)
    ensures InShortBlock(file, |file|) && BlockEnd(file, |file|) == |file|
  {
  }

  lemma SliceOfSlice(b: seq<Byte>, lo: nat, hi: nat, i: nat, j: nat)
    requires i <= j && lo + j <= hi <= |b|
    ensures b[lo..hi][i..j] == b[lo + i..lo + j]
  {
    forall k | 0 <= k < j - i ensures b[lo..hi][i..j][k] == b[lo + i..lo + j][k] {
      assert b[lo..hi][i..j][k] == b[lo..hi][i + k] == b[lo + i + k];
    }
  }

  datatype Physical = Physical(kind: nat, data: seq<Byte>, next: nat, drops: seq<nat>)

  function HeaderLength(file: seq<Byte>, p: nat): nat
    requires p + HEADER_SIZE <= |file|
  {
    file[p + 4] as int + 256 * file[p + 5] as int
  }

  /** Parses the physical record at p, where at least a header is left in the block. */
  function ParsePhysical(crc: Crc, file: seq<Byte>, p: nat): (r: Physical)
    requires p <= |file| && p + HEADER_SIZE <= BlockEnd(file, p)
    ensures p < r.next <= |file|
  {
    var end := BlockEnd(file, p);
    var kind, length := file[p + 6], HeaderLength(file, p);
    if p + HEADER_SIZE + length > end then
      if InShortBlock(file, p) then Physical(EOF, [], end, []) else Physical(BAD_RECORD, [], end, [end - p])
    else if kind == ZERO_TYPE && length == 0 then
      Physical(BAD_RECORD, [], end, [])
    else if crc(file[p + 6..p + HEADER_SIZE + length]) != Unmask(DecodeFixed(file[p..p + 4]) % 0x1_0000_0000) then
      Physical(BAD_RECORD, [], end, [end - p])
    else
      Physical(kind, file[p + HEADER_SIZE..p + HEADER_SIZE + length], p + HEADER_SIZE + length, [])
  }

  /** The next physical record at or after p: too few bytes for a header are a trailer to skip, or the
      cut-off end of the file. */
  function ReadPhysical(crc: Crc, file: seq<Byte>, p: nat): (r: Physical)
    requires p <= |file|
    ensures r.next <= |file|
    ensures r.kind != EOF ==> p < r.next
  {
    if BlockEnd(file, p) - p >= HEADER_SIZE then ParsePhysical(crc, file, p)
    else if InShortBlock(file, p) then Physical(EOF, [], |file|, [])
    else
      var q := BlockEnd(file, p);
      if BlockEnd(file, q) - q >= HEADER_SIZE then ParsePhysical(crc, file, q)
      else Physical(EOF, [], |file|, [])
  }

  /** The three ways to find the next header. */
  lemma ReadPhysicalAt(crc: Crc, file: seq<Byte>, p: nat)
    requires p <= |file|
    ensures BlockEnd(file, p) - p >= HEADER_SIZE ==> ReadPhysical(crc, file, p) == ParsePhysical(crc, file, p)
    ensures BlockEnd(file, p) - p < HEADER_SIZE && InShortBlock(file, p) ==>
              ReadPhysical(crc, file, p) == Physical(EOF, [], |file|, [])
    ensures BlockEnd(file, p) - p < HEADER_SIZE && !InShortBlock(file, p) ==>
      var q := BlockEnd(file, p);
      ReadPhysical(crc, file, p) ==
      if BlockEnd(file, q) - q >= HEADER_SIZE then ParsePhysical(crc, file, q) else Physical(EOF, [], |file|, [])
  {
  }

  /** The reader may be at p, or at the next block after a trailer at p. */
  ghost predicate Reached(file: seq<Byte>, p: nat, at: nat) {
    && p <= |file| && at <= |file|
    && (at == p || (BlockEnd(file, p) - p < HEADER_SIZE && !InShortBlock(file, p) && at == BlockEnd(file, p)))
  }

  lemma AlreadyReached(file: seq<Byte>, p: nat)
    requires p <= |file|
    ensures Reached(file, p, p)
  {
  }

  lemma ReadsWhereReached(crc: Crc, file: seq<Byte>, p: nat, at: nat)
    requires Reached(file, p, at)
    ensures BlockEnd(file, at) - at >= HEADER_SIZE ==> ReadPhysical(crc, file, p) == ParsePhysical(crc, file, at)
    ensures BlockEnd(file, at) - at < HEADER_SIZE && InShortBlock(file, at) ==>
              ReadPhysical(crc, file, p) == Physical(EOF, [], |file|, [])
  {
    hide BlockEnd, InShortBlock, ReadPhysical, ParsePhysical;
    ReadPhysicalAt(crc, file, p);
    if at != p {
      ReadPhysicalAt(crc, file, at);
      BlockAfterBlock(file, p);
    }
  }

  lemma BlockAfterBlock(file: seq<Byte>, p: nat)
    requires p <= |file| && !InShortBlock(file, p)
    ensures InShortBlock(file, BlockEnd(file, p)) ==> BlockEnd(file, BlockEnd(file, p)) == |file|
  {
  }

  /** A trailer leads to the next block, once. */
  lemma NextBlockReached(file: seq<Byte>, p: nat, at: nat)
    requires Reached(file, p, at) && BlockEnd(file, at) - at < HEADER_SIZE && !InShortBlock(file, at)
    ensures at == p && Reached(file, p, BlockEnd(file, at))
  {
  }

  /** A logical read: a record or the end, the position after it, and the sizes reported as dropped. */
  datatype Logical = Logical(ok: bool, record: seq<Byte>, next: nat, drops: seq<nat>)

  /** What one physical read does to the record being put together. */
  datatype Turn = Done(ok: bool, record: seq<Byte>, drops: seq<nat>) | Go(scratch: Option<seq<Byte>>, drops: seq<nat>)

  function TakeFragment(kind: nat, data: seq<Byte>, scratch: Option<seq<Byte>>): (t: Turn)
    ensures t.Go? ==> kind != EOF
    ensures t.Done? && t.ok ==> kind != EOF
  {
    if kind == EOF then Done(false, [], [])
    else if kind == FULL_TYPE then Done(true, data, PartialDrop(scratch))
    else if kind == FIRST_TYPE then Go(Some(data), PartialDrop(scratch))
    else if kind == MIDDLE_TYPE then
      if scratch.None? then Go(None, [|data|]) else Go(Some(scratch.value + data), [])
    else if kind == LAST_TYPE then
      if scratch.None? then Go(None, [|data|]) else Done(true, scratch.value + data, [])
    else if kind == BAD_RECORD then Go(None, if scratch.Some? then [|scratch.value|] else [])
    else Go(None, [|data| + if scratch.Some? then |scratch.value| else 0])
  }

  /** Puts fragments together from p on, given the part of a record already in hand. */
  function Assemble(crc: Crc, file: seq<Byte>, p: nat, scratch: Option<seq<Byte>>): (r: Logical)
    requires p <= |file|
    ensures r.next <= |file| && (r.ok ==> p < r.next)
    decreases |file| - p
  {
    var f := ReadPhysical(crc, file, p);
    match TakeFragment(f.kind, f.data, scratch)
    case Done(ok, record, drops) => Logical(ok, record, f.next, f.drops + drops)
    case Go(scratch', drops) =>
      var r := Assemble(crc, file, f.next, scratch');
      r.(drops := f.drops + drops + r.drops)
  }

  function PartialDrop(scratch: Option<seq<Byte>>): seq<nat> {
    if scratch.Some? && scratch.value != [] then [|scratch.value|] else []
  }

  /** Every record from p to the end, and everything reported on the way. */
  function ReadAll(crc: Crc, file: seq<Byte>, p: nat): (seq<seq<Byte>>, seq<nat>)
    requires p <= |file|
    decreases |file| - p
  {
    var r := Assemble(crc, file, p, None);
    if r.ok then
      var (records, drops) := ReadAll(crc, file, r.next);
      ([r.record] + records, r.drops + drops)
    else ([], r.drops)
  }

  // ----- The reader as a class -----

  class SequentialFile {
    const content: seq<Byte>
    var pos: nat

    constructor (content: seq<Byte>)
      ensures this.content == content && pos == 0
    {
      this.content, pos := content, 0;
    }

    /** Reads up to n bytes; fewer only at the end of the file. */
    method Read(n: nat) returns (data: seq<Byte>)
      requires pos <= |content|
      modifies this
      ensures pos == if old(pos) + n <= |content| then old(pos) + n else |content|
      ensures data == content[old(pos)..pos]
    {
      var to := if pos + n <= |content| then pos + n else |content|;
      data := content[pos..to];
      pos := to;
    }
  }

  class Reader {
    const file: SequentialFile
    const crc: Crc
    var buffer: seq<Byte>
    var eof: bool
    var endOfBufferOffset: nat
    /** The sizes passed to the corruption reporter so far. */
    var drops: seq<nat>

    constructor (file: SequentialFile, crc: Crc)
      requires file.pos == 0
      ensures Valid()
      ensures this.file == file && this.crc == crc && buffer == [] && drops == []
    {
      hide BlockEnd, InShortBlock;
      this.file, this.crc := file, crc;
      buffer, eof, endOfBufferOffset, drops := [], false, 0, [];
    }

    /** The buffer is the unread rest of the block read last. */
    ghost predicate Valid()
      reads `buffer, `eof, `endOfBufferOffset, file
    {
      && |buffer| <= endOfBufferOffset == file.pos <= |file.content|
      && buffer == file.content[Position()..file.pos]
      && (buffer != [] ==> file.pos == BlockEnd(file.content, Position()))
      && (if eof then file.pos == |file.content| && InShortBlock(file.content, file.pos - |buffer|)
          else file.pos % BLOCK_SIZE == 0 && (buffer != [] ==> !InShortBlock(file.content, Position())))
    }

    ghost function Position(): nat
      requires |buffer| <= file.pos
      reads `buffer, file
    {
      file.pos - |buffer|
    }

    /** Reads the next logical record; false at the end of the file. */
    method ReadRecord() returns (ok: bool, record: seq<Byte>)
      requires Valid()
      modifies this, file
      ensures Valid()
      ensures var r := Assemble(crc, file.content, old(Position()), None);
        ok == r.ok && record == r.record && Position() == r.next && drops == old(drops) + r.drops
    {
      hide ReadPhysical, InShortBlock, BlockEnd, TakeFragment;
      var scratch: Option<seq<Byte>> := None;
      ghost var whole := Assemble(crc, file.content, Position(), None);
      while true
        invariant Valid()
        invariant var r := Assemble(crc, file.content, Position(), scratch);
          r.ok == whole.ok && r.record == whole.record && r.next == whole.next &&
          old(drops) + whole.drops == drops + r.drops
        decreases |file.content| - Position()
      {
        var kind, fragment := ReadPhysicalRecord();
        var done;
        done, ok, record, scratch := AcceptFragment(kind, fragment, scratch);
        if done {
          return;
        }
      }
    }

    /** The switch on the record type. The record in hand is `None` outside a fragmented record. */
    method AcceptFragment(kind: nat, fragment: seq<Byte>, scratch0: Option<seq<Byte>>)
      returns (done: bool, ok: bool, record: seq<Byte>, scratch: Option<seq<Byte>>)
      modifies `drops
      ensures var t := TakeFragment(kind, fragment, scratch0);
        && done == t.Done? && drops == old(drops) + t.drops
        && (if done then ok == t.ok && record == t.record else scratch == t.scratch)
    {
      done, ok, record, scratch := false, false, [], scratch0;
      match kind {
        case 1 =>
          if scratch.Some? && scratch.value != [] {
            drops := drops + [|scratch.value|];
          }
          done, ok, record := true, true, fragment;
        case 2 =>
          if scratch.Some? && scratch.value != [] {
            drops := drops + [|scratch.value|];
          }
          scratch := Some(fragment);
        case 3 =>
          if scratch.None? {
            drops := drops + [|fragment|];
          } else {
            scratch := Some(scratch.value + fragment);
          }
        case 4 =>
          if scratch.None? {
            drops := drops + [|fragment|];
          } else {
            done, ok, record := true, true, scratch.value + fragment;
          }
        case 5 =>
          done := true;
        case 6 =>
          if scratch.Some? {
            drops := drops + [|scratch.value|];
            scratch := None;
          }
        case _ =>
          drops := drops + [|fragment| + if scratch.Some? then |scratch.value| else 0];
          scratch := None;
      }
    }

    method ReadPhysicalRecord() returns (kind: nat, fragment: seq<Byte>)
      requires Valid()
      modifies this, file
      ensures Valid()
      ensures var r := ReadPhysical(crc, file.content, old(Position()));
        kind == r.kind && fragment == r.data && Position() == r.next && drops == old(drops) + r.drops
    {
      var more := FillBuffer();
      if more {
        kind, fragment := ParseBuffer();
      } else {
        kind, fragment := EOF, [];
      }
    }

    /** Brings in the next block. */
    method ReadBlock()
      requires Valid() && !eof
      modifies this`buffer, this`eof, this`endOfBufferOffset, file
      ensures Valid() && Position() == old(file.pos)
      ensures |buffer| == BlockEnd(file.content, Position()) - Position()
      ensures eof == InShortBlock(file.content, Position()) && (!eof ==> |buffer| == BLOCK_SIZE)
    {
      buffer := file.Read(BLOCK_SIZE);
      endOfBufferOffset := endOfBufferOffset + |buffer|;
      if |buffer| < BLOCK_SIZE {
        eof := true;
      }
    }

    /** Skips a trailer too short for a header and brings in the next block, unless the file has ended. */
    method FillBuffer() returns (more: bool)
      requires Valid()
      modifies this`buffer, this`eof, this`endOfBufferOffset, file
      ensures Valid() && more == (|buffer| >= HEADER_SIZE)
      ensures ReadPhysical(crc, file.content, old(Position())) ==
        if more then ParsePhysical(crc, file.content, Position()) else Physical(EOF, [], Position(), [])
    {
      hide ParsePhysical, ReadPhysical, BlockEnd, InShortBlock, Reached;
      ghost var p := Position();
      AlreadyReached(file.content, p);
      EndOfFileIsShort(file.content);
      while |buffer| < HEADER_SIZE
        invariant Valid() && Reached(file.content, p, Position())
        decreases !eof, |buffer| < HEADER_SIZE
      {
        if !eof {
          NextReached(p);
          ReadBlock();
        } else {
          NoHeader(p);
          buffer := [];
          return false;
        }
      }
      HasHeader(p);
      more := true;
    }

    lemma NextReached(p: nat)
      requires Valid() && !eof && |buffer| < HEADER_SIZE && Reached(file.content, p, Position())
      ensures Reached(file.content, p, file.pos)
    {
      hide BlockEnd, InShortBlock, Reached;
      if buffer != [] {
        NextBlockReached(file.content, p, Position());
      }
    }

    lemma NoHeader(p: nat)
      requires Valid() && eof && |buffer| < HEADER_SIZE && Reached(file.content, p, Position())
      ensures ReadPhysical(crc, file.content, p) == Physical(EOF, [], |file.content|, [])
    {
      hide BlockEnd, InShortBlock, Reached, ReadPhysical, ParsePhysical;
      StaysInBlock(file.content, Position());
      ReadsWhereReached(crc, file.content, p, Position());
    }

    lemma HasHeader(p: nat)
      requires Valid() && |buffer| >= HEADER_SIZE && Reached(file.content, p, Position())
      ensures ReadPhysical(crc, file.content, p) == ParsePhysical(crc, file.content, Position())
    {
      hide BlockEnd, InShortBlock, Reached, ReadPhysical, ParsePhysical;
      ReadsWhereReached(crc, file.content, p, Position());
    }

    /** Parses and consumes the physical record at the front of the buffer. */
    method ParseBuffer() returns (kind: nat, fragment: seq<Byte>)
      requires Valid() && |buffer| >= HEADER_SIZE
      modifies this`buffer, this`drops
      ensures Valid()
      ensures var r := ParsePhysical(crc, file.content, old(Position()));
        kind == r.kind && fragment == r.data && Position() == r.next && drops == old(drops) + r.drops
    {
      hide Unmask, DecodeFixed, BlockEnd, InShortBlock, ParsePhysical;
      Parses();
      StaysInBlock(file.content, Position());
      var length := buffer[4] as int + 256 * buffer[5] as int;
      kind, fragment := buffer[6], [];
      if HEADER_SIZE + length > |buffer| {
        var dropSize := |buffer|;
        buffer := [];
        if !eof {
          drops := drops + [dropSize];
          return BAD_RECORD, [];
        }
        return EOF, [];
      }
      if kind == ZERO_TYPE && length == 0 {
        buffer := [];
        return BAD_RECORD, [];
      }
      var expected := Unmask(DecodeFixed(buffer[..4]) % 0x1_0000_0000);
      var actual := crc(buffer[6..HEADER_SIZE + length]);
      if actual != expected {
        var dropSize := |buffer|;
        buffer := [];
        drops := drops + [dropSize];
        return BAD_RECORD, [];
      }
      SliceOfSlice(file.content, Position(), file.pos, HEADER_SIZE + length, |buffer|);
      fragment := buffer[HEADER_SIZE..HEADER_SIZE + length];
      buffer := buffer[HEADER_SIZE + length..];
    }

    /** The physical record at the reader's position, in terms of the buffer. */
    lemma Parses()
      requires Valid() && |buffer| >= HEADER_SIZE
      ensures ParsePhysical.requires(crc, file.content, Position())
      ensures var kind, length, end := buffer[6], buffer[4] as int + 256 * buffer[5] as int, file.pos;
        ParsePhysical(crc, file.content, Position()) ==
        if HEADER_SIZE + length > |buffer| then
          if eof then Physical(EOF, [], end, []) else Physical(BAD_RECORD, [], end, [|buffer|])
        else if kind == ZERO_TYPE && length == 0 then Physical(BAD_RECORD, [], end, [])
        else if crc(buffer[6..HEADER_SIZE + length]) != Unmask(DecodeFixed(buffer[..4]) % 0x1_0000_0000) then
          Physical(BAD_RECORD, [], end, [|buffer|])
        else
          Physical(kind, buffer[HEADER_SIZE..HEADER_SIZE + length], Position() + HEADER_SIZE + length, [])
    {
      hide Unmask, DecodeFixed, BlockEnd, InShortBlock;
      var f, p := file.content, Position();
      var length := buffer[4] as int + 256 * buffer[5] as int;
      assert buffer[4] == f[p + 4] && buffer[5] == f[p + 5] && buffer[6] == f[p + 6];
      if HEADER_SIZE + length <= |buffer| {
        SliceOfSlice(f, p, file.pos, 0, 4);
        SliceOfSlice(f, p, file.pos, 6, HEADER_SIZE + length);
        SliceOfSlice(f, p, file.pos, HEADER_SIZE, HEADER_SIZE + length);
      }
    }
  }

  /** Reads to the end of the file. */
  method ReadRecords(r: Reader) returns (records: seq<seq<Byte>>)
    requires r.Valid()
    modifies r, r.file
    ensures r.Valid()
    ensures (old(r.drops) + ReadAll(r.crc, r.file.content, old(r.Position())).1) == r.drops
    ensures records == ReadAll(r.crc, r.file.content, old(r.Position())).0
  {
    hide Assemble;
    records := [];
    ghost var whole := ReadAll(r.crc, r.file.content, r.Position());
    while true
      invariant r.Valid()
      invariant var rest := ReadAll(r.crc, r.file.content, r.Position());
        records + rest.0 == whole.0 && r.drops + rest.1 == old(r.drops) + whole.1
      decreases |r.file.content| - r.Position()
    {
      var ok, record := r.ReadRecord();
      if !ok {
        return;
      }
      records := records + [record];
    }
  }
}
