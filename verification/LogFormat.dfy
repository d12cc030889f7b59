/** The write-ahead log format: logical records cut into fragments that never cross a block. */
module LogFormat {
  import opened Entries
  import opened Coding

  const BLOCK_SIZE := 32768
  const HEADER_SIZE := 7

  const ZERO_TYPE := 0
  const FULL_TYPE := 1
  const FIRST_TYPE := 2
  const MIDDLE_TYPE := 3
  const LAST_TYPE := 4

  /** The checksum of a byte string; only its being a function matters. */
  type Crc = seq<Byte> -> Word
  type Word = w: int | 0 <= w < 0x1_0000_0000

  // ----- Checksum masking -----

  const MASK_DELTA := 0xa282ead8

  /** Rotate right by 15 bits, then add a constant, in 32-bit arithmetic. */
  function Mask(crc: Word): Word {
    (crc / 0x8000 + crc % 0x8000 * 0x2_0000 + MASK_DELTA) % 0x1_0000_0000
  }

  function Unmask(masked: Word): Word {
    var rot := (masked - MASK_DELTA) % 0x1_0000_0000;
    rot / 0x2_0000 + rot % 0x2_0000 * 0x8000
  }

  lemma UnmaskInvertsMask(crc: Word)
    ensures Unmask(Mask(crc)) == crc
  {
    var rot := crc / 0x8000 + crc % 0x8000 * 0x2_0000;
    assert (Mask(crc) - MASK_DELTA) % 0x1_0000_0000 == rot;
    assert rot / 0x2_0000 == crc % 0x8000 && rot % 0x2_0000 == crc / 0x8000;
  }

  // ----- Fragments -----

  /** Where in its block a file position lies. */
  function BlockOffset(p: nat): (r: nat)
    ensures r < BLOCK_SIZE
  {
    p % BLOCK_SIZE
  }

  /** Where in its block the file ends after n more bytes. */
  function Advance(off: nat, n: nat): (r: nat)
    ensures r < BLOCK_SIZE
  {
    BlockOffset(off + n)
  }

  /** Bytes of zero filling before the next header, when none fits in the rest of the block. */
  function Padding(off: nat): nat
    requires off <= BLOCK_SIZE
  {
    if BLOCK_SIZE - off < HEADER_SIZE then BLOCK_SIZE - off else 0
  }

  function Avail(off: nat): nat
    requires off <= BLOCK_SIZE
  {
    if BLOCK_SIZE - off < HEADER_SIZE then BLOCK_SIZE - HEADER_SIZE else BLOCK_SIZE - off - HEADER_SIZE
  }

  function FragmentLength(off: nat, left: nat): nat
    requires off <= BLOCK_SIZE
  {
    if left < Avail(off) then left else Avail(off)
  }

  /** The offset in the block after the fragment. */
  function OffsetAfter(off: nat, left: nat): (r: nat)
    requires off <= BLOCK_SIZE
    ensures r <= BLOCK_SIZE
  {
    (if BLOCK_SIZE - off < HEADER_SIZE then 0 else off) + HEADER_SIZE + FragmentLength(off, left)
  }

  function RecordType(begin: bool, end: bool): Byte {
    if begin && end then FULL_TYPE else if begin then FIRST_TYPE else if end then LAST_TYPE else MIDDLE_TYPE
  }

  function Zeros(n: nat): seq<Byte> {
    seq(n, _ => 0)
  }

  function Header(crc: Crc, t: Byte, data: seq<Byte>): (h: seq<Byte>)
    requires |data| < 0x1_0000
    ensures |h| == HEADER_SIZE
  {
    Fixed(4, Mask(crc([t] + data))) + [|data| % 256, |data| / 256, t]
  }

  /** One fragment on disk: filling, header, payload. */
  function Fragment(crc: Crc, off: nat, p: seq<Byte>, begin: bool): (r: seq<Byte>)
    requires off <= BLOCK_SIZE
    ensures |r| == Padding(off) + HEADER_SIZE + FragmentLength(off, |p|)
  {
    var n := FragmentLength(off, |p|);
    Zeros(Padding(off)) + Header(crc, RecordType(begin, n == |p|), p[..n]) + p[..n]
  }

  /** A whole record on disk, written from block offset `off`. A fragment may carry no payload, when
      exactly a header fits; then the next one starts a block and does. */
  function Encode(crc: Crc, off: nat, p: seq<Byte>, begin: bool): seq<Byte>
    requires off <= BLOCK_SIZE
    decreases |p|, if BLOCK_SIZE - off == HEADER_SIZE then 1 else 0
  {
    var n := FragmentLength(off, |p|);
    Fragment(crc, off, p, begin) + if n == |p| then [] else Encode(crc, OffsetAfter(off, |p|), p[n..], false)
  }

  /** A record on disk starts with its first fragment; the rest is the rest of the record. */
  lemma FragmentFirst(crc: Crc, off: nat, p: seq<Byte>, begin: bool)
    requires off <= BLOCK_SIZE
    ensures var n := FragmentLength(off, |p|);
            Encode(crc, off, p, begin) ==
            Fragment(crc, off, p, begin) + if n == |p| then [] else Encode(crc, OffsetAfter(off, |p|), p[n..], false)
  {
  }

  function EncodeAll(crc: Crc, off: nat, records: seq<seq<Byte>>): seq<Byte>
    requires off <= BLOCK_SIZE
    decreases |records|
  {
    if records == [] then []
    else
      var e := Encode(crc, off, records[0], true);
      e + EncodeAll(crc, Advance(off, |e|), records[1..])
  }

  // ----- Framing -----

  /** The end of a block and the start of the next are the same place. */
  lemma BlockEndIsBlockStart(crc: Crc, p: seq<Byte>, begin: bool)
    ensures Encode(crc, BLOCK_SIZE, p, begin) == Encode(crc, 0, p, begin)
  {
    assert Zeros(0) == [];
  }

  lemma EncodeAtEquivalentOffsets(crc: Crc, off: nat, p: seq<Byte>, begin: bool)
    requires off <= BLOCK_SIZE
    ensures Encode(crc, off, p, begin) == Encode(crc, BlockOffset(off), p, begin)
  {
    hide Encode;
    if off == BLOCK_SIZE {
      BlockEndIsBlockStart(crc, p, begin);
    }
  }

  /** The offset where a record's last fragment ends. */
  function EndOffset(off: nat, left: nat): (end: nat)
    requires off <= BLOCK_SIZE
    ensures end <= BLOCK_SIZE
    decreases left, if BLOCK_SIZE - off == HEADER_SIZE then 1 else 0
  {
    var n := FragmentLength(off, left);
    if n == left then OffsetAfter(off, left) else EndOffset(OffsetAfter(off, left), left - n)
  }

  lemma WrapOnce(off: nat, left: nat, more: nat)
    requires off <= BLOCK_SIZE
    ensures BlockOffset(off + Padding(off) + HEADER_SIZE + FragmentLength(off, left) + more) ==
            BlockOffset(OffsetAfter(off, left) + more)
  {
  }

  /** The number of bytes a record takes is congruent to the offset it ends at. */
  lemma {:induction false} EncodeEndsAt(crc: Crc, off: nat, p: seq<Byte>, begin: bool)
    requires off <= BLOCK_SIZE
    ensures Advance(off, |Encode(crc, off, p, begin)|) == BlockOffset(EndOffset(off, |p|))
    decreases |p|, if BLOCK_SIZE - off == HEADER_SIZE then 1 else 0
  {
    hide Fragment;
    var n := FragmentLength(off, |p|);
    if n == |p| {
      WrapOnce(off, |p|, 0);
    } else {
      var next := OffsetAfter(off, |p|);
      WrapOnce(off, |p|, |Encode(crc, next, p[n..], false)|);
      EncodeEndsAt(crc, next, p[n..], false);
    }
  }

  /** No fragment crosses a block boundary: header and payload lie in one block. */
  lemma FragmentStaysInBlock(start: nat, left: nat)
    ensures var off := BlockOffset(start);
      var from := start + Padding(off);
      var to := from + HEADER_SIZE + FragmentLength(off, left);
      from / BLOCK_SIZE == (to - 1) / BLOCK_SIZE
  {
  }

  lemma AdvanceByNothing(off: nat)
    requires off < BLOCK_SIZE
    ensures Advance(off, 0) == off
  {
  }

  lemma AdvanceFromPosition(p: nat, n: nat)
    ensures BlockOffset(p + n) == Advance(BlockOffset(p), n)
  {
  }

  lemma SameOffsetSameAdvance(a: nat, b: nat, n: nat)
    requires BlockOffset(a) == BlockOffset(b)
    ensures BlockOffset(a + n) == BlockOffset(b + n)
  {
  }

  lemma AdvanceTwice(off: nat, a: nat, b: nat)
    ensures Advance(Advance(off, a), b) == Advance(off, a + b)
  {
  }

  /** Appending records one session after another writes what one session would have written. */
  lemma {:induction false} SessionsConcatenate(crc: Crc, off: nat, a: seq<seq<Byte>>, b: seq<seq<Byte>>)
    requires off < BLOCK_SIZE
    ensures EncodeAll(crc, off, a + b) ==
            EncodeAll(crc, off, a) + EncodeAll(crc, Advance(off, |EncodeAll(crc, off, a)|), b)
    decreases |a|
  {
    hide Encode, BlockOffset;
    if a == [] {
      AdvanceByNothing(off);
      assert a + b == b;
    } else {
      assert (a + b)[0] == a[0] && (a + b)[1..] == a[1..] + b;
      var n := |Encode(crc, off, a[0], true)|;
      SessionsConcatenate(crc, Advance(off, n), a[1..], b);
      AdvanceTwice(off, n, |EncodeAll(crc, Advance(off, n), a[1..])|);
    }
  }
}
