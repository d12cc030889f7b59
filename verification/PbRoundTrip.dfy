/** Decoding what was encoded gives the message back. */
module PbRoundTrip {
  import opened Entries
  import opened Coding
  import opened PbVarint
  import opened PbMessage

  // ----- Values -----

  lemma {:induction false} DefaultShape(kind: LType)
    ensures kind.Sub? ==> Default(kind).Msg? && Default(kind).slots == Defaults(kind.desc)
  {
  }

  lemma PrefixedReads(b: seq<Byte>, rest: seq<Byte>)
    requires |b| < MAX_32
    ensures var n := |Varint(|b|)|;
            && Decode32(Prefixed(b) + rest) == Some(Decoded(|b|, n))
            && (Prefixed(b) + rest)[n..n + |b|] == b && |Prefixed(b)| == n + |b|
    ensures Substream(Prefixed(b) + rest) == Some(Decoded(b, |Prefixed(b)|))
  {
    hide Decode32, Varint;
    assert Prefixed(b) + rest == Varint(|b|) + (b + rest);
    Varint32RoundTrip(|b|, b + rest);
  }

  lemma SignedRoundTrip(n: int, size: nat)
    requires IntegerSize(size) && -Half(size) <= n < Half(size)
    ensures size == 8 ==> ToSigned(n % MAX_64, MAX_64) == n
    ensures size != 8 ==> ToSigned(n % MAX_64 % MAX_32, MAX_32) == n
  {
    assert n < 0 ==> n % MAX_64 == n + MAX_64;
    assert n % MAX_64 % MAX_32 == if n < 0 && size != 8 then n + MAX_32 else n % MAX_64 % MAX_32;
  }

  lemma FixedReads(n: nat, v: nat, rest: seq<Byte>)
    requires (n == 4 && v < MAX_32) || (n == 8 && v < MAX_64)
    ensures |Fixed(n, v) + rest| >= n && DecodeFixed((Fixed(n, v) + rest)[..n]) == v
  {
    assert (Fixed(n, v) + rest)[..n] == Fixed(n, v);
    assert Pow(256, 4) == MAX_32;
    assert Pow(256, 8) == MAX_64;
    FixedRoundTrip(n, v);
  }

  lemma RawRoundTrip(kind: LType, v: Val, was: Val, rest: seq<Byte>)
    requires ValidKind(kind) && ValidVal(kind, v) && (kind.Bytes? || kind.String? || kind.FixedBytes?)
    ensures DecodeVal(kind, EncodeVal(kind, v) + rest, was) == Some(Decoded(v, |EncodeVal(kind, v)|))
  {
    hide Decode32, Decode64, Varint, Prefixed, Substream, ToSigned;
    PrefixedReads(v.b, rest);
    if v.b == [] && kind.FixedBytes? {
      assert v.b == seq(kind.length, _ => 0);
    }
  }

  /** A scalar comes back, whatever its storage held and whatever follows. */
  lemma ScalarRoundTrip(kind: LType, v: Val, was: Val, rest: seq<Byte>)
    requires ValidKind(kind) && ValidVal(kind, v) && !kind.Sub?
    ensures DecodeVal(kind, EncodeVal(kind, v) + rest, was) == Some(Decoded(v, |EncodeVal(kind, v)|))
  {
    hide Decode32, Decode64, Varint, Fixed, DecodeFixed, ZigZag, ZagZig, Prefixed, ToSigned;
    match kind
    case Bool => Varint32RoundTrip(v.n, rest);
    case Int(size) =>
      SignedRoundTrip(v.n, size);
      Varint64RoundTrip(v.n % MAX_64, rest);
    case UInt(size) => Varint64RoundTrip(v.n, rest);
    case SInt(size) =>
      ZigZagRoundTrip(v.n);
      Varint64RoundTrip(ZigZag(v.n), rest);
    case Fixed32 => FixedReads(4, v.n, rest);
    case Fixed64 => FixedReads(8, v.n, rest);
    case _ => RawRoundTrip(kind, v, was, rest);
  }

  lemma {:induction false} PackedRoundTrip(kind: LType, vs: seq<Val>, had: seq<Val>, max: nat)
    requires ValidKind(kind) && Packable(kind) && |had| + |vs| <= max
    requires forall i :: 0 <= i < |vs| ==> ValidVal(kind, vs[i])
    ensures DecodePacked(kind, EncodePacked(kind, vs), had, max) == Some(had + vs)
    decreases |vs|
  {
    hide EncodeVal, DecodeVal;
    if vs == [] {
      assert had + vs == had;
    } else {
      var first, rest := EncodeVal(kind, vs[0]), EncodePacked(kind, vs[1..]);
      ScalarRoundTrip(kind, vs[0], Default(kind), rest);
      ScalarNotEmpty(kind, vs[0]);
      assert (first + rest)[|first|..] == rest;
      PackedRoundTrip(kind, vs[1..], had + [vs[0]], max);
      assert had + [vs[0]] + vs[1..] == had + vs;
    }
  }

  lemma ScalarNotEmpty(kind: LType, v: Val)
    requires Packable(kind) && ValidVal(kind, v)
    ensures EncodeVal(kind, v) != []
  {
    hide Varint, Fixed;
  }

  // ----- Finding fields -----

  lemma {:induction false} FindIs(desc: Desc, i: nat, from: nat)
    requires ValidDesc(desc) && from <= i < |desc.fields|
    ensures FindField(desc, desc.fields[i].tag, from) == Some(i)
    decreases i - from
  {
    hide ValidKind;
    if from < i {
      assert desc.fields[from].tag != desc.fields[i].tag;
      FindIs(desc, i, from + 1);
    }
  }

  /** One turn of the decoder's loop on a field that was written with its tag. */
  lemma OneField(desc: Desc, i: nat, wire: nat, body: seq<Byte>, rest: seq<Byte>, slots: seq<Slot>, slots': seq<Slot>,
                 seen: set<nat>)
    requires ValidDesc(desc) && |slots| == |slots'| == |desc.fields| && i < |slots| && wire < 8
    requires DecodeField(desc, i, wire, body + rest, slots) == Some(Decoded(slots', |body|))
    ensures DecodeMsg(desc, Tag(desc.fields[i], wire) + body + rest, slots, seen) ==
            DecodeMsg(desc, rest, slots', seen + if Tracked(desc, i) then {i} else {})
  {
    hide Decode32, Varint, DecodeField, ValidKind, Tracked;
    var f := desc.fields[i];
    var t := Tag(f, wire);
    var b := t + body + rest;
    assert b == t + (body + rest);
    Varint32RoundTrip(8 * f.tag + wire, body + rest);
    FindIs(desc, i, 0);
    assert b[|t|..] == body + rest;
    assert b[|t| + |body|..] == rest;
  }

  // ----- Whole messages -----

  /** Kinds that proto3 can leave out: not fixed-length bytes, unless of length zero, nor messages with
      such a field or a required one. */
  predicate Omittable(kind: LType)
    decreases kind, 0
  {
    match kind
    case FixedBytes(length) => length == 0
    case Sub(desc) => forall i :: 0 <= i < |desc.fields| ==> OmittableField(desc.fields[i])
    case _ => true
  }

  predicate OmittableField(f: Field)
    decreases f, 0
  {
    !f.rule.Required? && (f.rule.Singular? ==> Omittable(f.kind))
  }

  /** What proto3 leaves out of an encoding is exactly what holds its default, of the kinds that can be
      left out at all. */
  lemma {:induction false} ZeroIsDefault(kind: LType, v: Val)
    requires ValidVal(kind, v)
    ensures IsZero(kind, v) <==> v == Default(kind) && Omittable(kind)
    decreases kind, 0
  {
    match kind
    case FixedBytes(length) => assert length == 0 ==> v.b == seq(length, _ => 0);
    case Sub(desc) =>
      forall i | 0 <= i < |v.slots|
        ensures IsZeroSlot(desc.fields[i], v.slots[i]) <==>
                v.slots[i] == DefaultSlot(desc.fields[i]) && OmittableField(desc.fields[i])
      {
        ZeroSlotIsDefault(desc.fields[i], v.slots[i]);
      }
      assert v.slots == Defaults(desc) <==>
             forall i :: 0 <= i < |v.slots| ==> v.slots[i] == DefaultSlot(desc.fields[i]);
    case _ =>
  }

  lemma {:induction false} ZeroSlotIsDefault(f: Field, s: Slot)
    requires ValidSlot(f, s)
    ensures IsZeroSlot(f, s) <==> s == DefaultSlot(f) && OmittableField(f)
    decreases f, 0
  {
    if f.rule.Singular? {
      ZeroIsDefault(f.kind, s.v);
    }
  }

  /** The first i fields decoded, the rest at their defaults. */
  function Partial(desc: Desc, slots: seq<Slot>, i: nat): (r: seq<Slot>)
    requires |slots| == |desc.fields| && i <= |slots|
    ensures |r| == |slots|
  {
    slots[..i] + Defaults(desc)[i..]
  }

  /** The required fields among the first i, as far as the decoder tracks them. */
  function SeenUpTo(desc: Desc, i: nat): set<nat>
    requires i <= |desc.fields|
  {
    set j | 0 <= j < i && Tracked(desc, j)
  }

  lemma PartialStep(desc: Desc, slots: seq<Slot>, i: nat)
    requires |slots| == |desc.fields| && i < |slots|
    ensures Partial(desc, slots, i)[i] == DefaultSlot(desc.fields[i])
    ensures Partial(desc, slots, i)[i := slots[i]] == Partial(desc, slots, i + 1)
    ensures SeenUpTo(desc, i + 1) == SeenUpTo(desc, i) + if Tracked(desc, i) then {i} else {}
  {
    hide DefaultSlot;
  }

  lemma PartialAt(desc: Desc, slots: seq<Slot>, i: nat, j: nat)
    requires |slots| == |desc.fields| && i <= |slots| && j < |slots|
    ensures Partial(desc, slots, i)[j] == if j < i then slots[j] else DefaultSlot(desc.fields[j])
  {
    hide DefaultSlot;
  }

  lemma AtMostOne(desc: Desc, slots: seq<Slot>, i: nat, j: nat)
    requires ValidMsg(desc, slots) && i < |slots| && j < |slots| && i != j
    requires desc.fields[i].rule.OneOf? && desc.fields[j].rule == desc.fields[i].rule
    ensures slots[i] == Maybe(None) || slots[j] == Maybe(None)
  {
    hide ValidSlot;
  }

  /** Setting a union member of a valid message unsets nothing. */
  lemma UnionStep(desc: Desc, slots: seq<Slot>, i: nat, v: Val)
    requires ValidMsg(desc, slots) && |slots| == |desc.fields| && i < |slots| && desc.fields[i].rule.OneOf?
    requires slots[i] == Maybe(Some(v))
    ensures SetUnion(desc, Partial(desc, slots, i), i, v) == Partial(desc, slots, i + 1)
  {
    hide ValidMsg, Partial, Default;
    var was, now := Partial(desc, slots, i), Partial(desc, slots, i + 1);
    forall j | 0 <= j < |slots| ensures SetUnion(desc, was, i, v)[j] == now[j] {
      PartialAt(desc, slots, i, j);
      PartialAt(desc, slots, i + 1, j);
      if j != i && desc.fields[j].rule == desc.fields[i].rule {
        AtMostOne(desc, slots, i, j);
      }
    }
  }

  /** A value, submessages included, comes back when it is decoded over its default. */
  lemma {:induction false} ValueRoundTrip(kind: LType, v: Val, rest: seq<Byte>)
    requires ValidKind(kind) && ValidVal(kind, v) && |EncodeVal(kind, v)| < MAX_32
    ensures DecodeVal(kind, EncodeVal(kind, v) + rest, Default(kind)) == Some(Decoded(v, |EncodeVal(kind, v)|))
    decreases kind, 0, 0, 0
  {
    hide Varint, Decode32, DecodeMsg, EncodeFrom, Defaults, ValidMsg, ValidDesc, Substream;
    if kind.Sub? {
      var body := EncodeFrom(kind.desc, v.slots, 0);
      MsgShape(kind.desc, v.slots);
      PrefixedReads(body, rest);
      DefaultShape(kind);
      FieldsRoundTrip(kind.desc, v.slots, 0, []);
      assert body + [] == body;
      NothingYet(kind.desc, v.slots);
      AllThere(kind.desc, v.slots, []);
    } else {
      ScalarRoundTrip(kind, v, Default(kind), rest);
    }
  }

  lemma MsgShape(desc: Desc, slots: seq<Slot>)
    requires ValidMsg(desc, slots)
    ensures |slots| == |desc.fields|
  {
  }

  lemma NothingYet(desc: Desc, slots: seq<Slot>)
    requires |slots| == |desc.fields|
    ensures Partial(desc, slots, 0) == Defaults(desc) && SeenUpTo(desc, 0) == {}
    ensures Partial(desc, slots, |slots|) == slots
  {
  }

  lemma FieldIsValid(desc: Desc, slots: seq<Slot>, i: nat)
    requires ValidDesc(desc) && ValidMsg(desc, slots) && |slots| == |desc.fields| && i < |slots|
    ensures ValidKind(desc.fields[i].kind) && ValidSlot(desc.fields[i], slots[i])
  {
    hide ValidKind, ValidSlot;
  }

  /** Nothing is written for a field that holds its default. */
  lemma AbsentRoundTrip(desc: Desc, slots: seq<Slot>, i: nat)
    requires |slots| == |desc.fields| && i < |slots| && ValidSlot(desc.fields[i], slots[i])
    requires var f, s := desc.fields[i], slots[i];
             s == Maybe(None) || s == Many([]) || (f.rule.Singular? && IsZero(f.kind, s.v))
    ensures EncodeSlot(desc.fields[i], slots[i]) == []
    ensures Partial(desc, slots, i + 1) == Partial(desc, slots, i) && SeenUpTo(desc, i + 1) == SeenUpTo(desc, i)
  {
    hide EncodeVal, Defaults, Default, IsZero, ValidVal;
    var f, s := desc.fields[i], slots[i];
    PartialStep(desc, slots, i);
    if f.rule.Singular? {
      ZeroIsDefault(f.kind, s.v);
    }
    assert s == DefaultSlot(f);
    assert Partial(desc, slots, i)[i := s] == Partial(desc, slots, i);
  }

  /** A field with one value that is present. */
  lemma {:induction false} SingleRoundTrip(desc: Desc, slots: seq<Slot>, i: nat, v: Val, rest: seq<Byte>)
    requires ValidDesc(desc) && ValidMsg(desc, slots) && |slots| == |desc.fields| && i < |slots|
    requires !desc.fields[i].rule.Repeated?
    requires slots[i] == One(v) || slots[i] == Maybe(Some(v))
    requires ValidVal(desc.fields[i].kind, v) && |EncodeVal(desc.fields[i].kind, v)| < MAX_32
    ensures DecodeMsg(desc, Tag(desc.fields[i], WireType(desc.fields[i].kind))
                            + EncodeVal(desc.fields[i].kind, v) + rest,
                      Partial(desc, slots, i), SeenUpTo(desc, i)) ==
            DecodeMsg(desc, rest, Partial(desc, slots, i + 1), SeenUpTo(desc, i + 1))
    decreases desc, 0, 1, 0
  {
    hide DecodeMsg, EncodeVal, Tag, ValidDesc, DecodeVal, Partial, SeenUpTo, Tracked, ValidVal, Default;
    hide ValidKind, SetUnion;
    var f := desc.fields[i];
    var body := EncodeVal(f.kind, v);
    PartialStep(desc, slots, i);
    FieldIsValid(desc, slots, i);
    ValueRoundTrip(f.kind, v, rest);
    if f.rule.OneOf? {
      UnionStep(desc, slots, i, v);
    }
    OneField(desc, i, WireType(f.kind), body, rest, Partial(desc, slots, i), Partial(desc, slots, i + 1),
             SeenUpTo(desc, i));
  }

  /** An unpacked repeated field, from its k-th element on. */
  lemma {:induction false} EachRoundTrip(desc: Desc, slots: seq<Slot>, i: nat, k: nat, rest: seq<Byte>)
    requires ValidDesc(desc) && ValidMsg(desc, slots) && |slots| == |desc.fields| && i < |slots|
    requires desc.fields[i].rule.Repeated?
    requires slots[i].Many? && k <= |slots[i].vs| <= desc.fields[i].rule.max && !Packable(desc.fields[i].kind)
    requires forall j :: 0 <= j < |slots[i].vs| ==> ValidVal(desc.fields[i].kind, slots[i].vs[j])
    requires |EncodeEach(desc.fields[i], slots[i].vs[k..])| < MAX_32
    ensures DecodeMsg(desc, EncodeEach(desc.fields[i], slots[i].vs[k..]) + rest,
                      Partial(desc, slots, i)[i := Many(slots[i].vs[..k])], SeenUpTo(desc, i)) ==
            DecodeMsg(desc, rest, Partial(desc, slots, i + 1), SeenUpTo(desc, i + 1))
    decreases desc, 0, 1, |slots[i].vs| - k
  {
    hide DecodeMsg, EncodeVal, Tag, ValidDesc, DecodeVal, Partial, SeenUpTo, Tracked, ValidVal, Default;
    hide ValidKind, SetUnion, ValidMsg;
    var f, vs := desc.fields[i], slots[i].vs;
    PartialStep(desc, slots, i);
    NotTracked(desc, i);
    if k == |vs| {
      assert vs[..k] == vs && vs[k..] == [] && [] + rest == rest;
      assert Many(vs) == slots[i] && SeenUpTo(desc, i) + {} == SeenUpTo(desc, i);
    } else {
      FieldIsValid(desc, slots, i);
      EachStep(f, vs, k);
      var head, body := Tag(f, WireType(f.kind)), EncodeVal(f.kind, vs[k]);
      var tail := EncodeEach(f, vs[k + 1..]);
      ValueRoundTrip(f.kind, vs[k], tail + rest);
      var was, now := Partial(desc, slots, i)[i := Many(vs[..k])], Partial(desc, slots, i)[i := Many(vs[..k + 1])];
      assert vs[..k] + [vs[k]] == vs[..k + 1] && was[i := Many(vs[..k + 1])] == now;
      OneField(desc, i, WireType(f.kind), body, tail + rest, was, now, SeenUpTo(desc, i));
      assert head + body + tail + rest == head + body + (tail + rest);
      assert SeenUpTo(desc, i) + {} == SeenUpTo(desc, i);
      EachRoundTrip(desc, slots, i, k + 1, rest);
    }
  }

  lemma NotTracked(desc: Desc, i: nat)
    requires i < |desc.fields| && !desc.fields[i].rule.Required?
    ensures !Tracked(desc, i)
  {
  }

  lemma EachStep(f: Field, vs: seq<Val>, k: nat)
    requires k < |vs| && forall j :: 0 <= j < |vs| ==> ValidVal(f.kind, vs[j])
    ensures EncodeEach(f, vs[k..]) ==
            Tag(f, WireType(f.kind)) + EncodeVal(f.kind, vs[k]) + EncodeEach(f, vs[k + 1..])
  {
    hide EncodeVal, Tag;
    assert vs[k..][1..] == vs[k + 1..];
  }

  /** A packed array is one field on the wire. */
  lemma PackedFieldRoundTrip(desc: Desc, slots: seq<Slot>, i: nat, rest: seq<Byte>)
    requires ValidDesc(desc) && ValidMsg(desc, slots) && |slots| == |desc.fields| && i < |slots|
    requires desc.fields[i].rule.Repeated?
    requires slots[i].Many? && |slots[i].vs| <= desc.fields[i].rule.max && Packable(desc.fields[i].kind)
    requires forall j :: 0 <= j < |slots[i].vs| ==> ValidVal(desc.fields[i].kind, slots[i].vs[j])
    requires |EncodePacked(desc.fields[i].kind, slots[i].vs)| < MAX_32
    ensures DecodeMsg(desc, Tag(desc.fields[i], WT_STRING)
                            + Prefixed(EncodePacked(desc.fields[i].kind, slots[i].vs)) + rest,
                      Partial(desc, slots, i), SeenUpTo(desc, i)) ==
            DecodeMsg(desc, rest, Partial(desc, slots, i + 1), SeenUpTo(desc, i + 1))
  {
    hide DecodeMsg, EncodePacked, Tag, ValidDesc, DecodePacked, Partial, SeenUpTo, Tracked, ValidVal, Default;
    hide ValidKind, ValidMsg;
    hide Prefixed, Substream;
    var f, vs := desc.fields[i], slots[i].vs;
    var body := EncodePacked(f.kind, vs);
    PartialStep(desc, slots, i);
    FieldIsValid(desc, slots, i);
    PrefixedReads(body, rest);
    PackedRoundTrip(f.kind, vs, [], f.rule.max);
    assert [] + vs == vs;
    OneField(desc, i, WT_STRING, Prefixed(body), rest, Partial(desc, slots, i), Partial(desc, slots, i + 1),
             SeenUpTo(desc, i));
  }

  /** What is written for field i takes the decoder from the first i fields to the first i + 1. */
  lemma {:induction false} SlotRoundTrip(desc: Desc, slots: seq<Slot>, i: nat, rest: seq<Byte>)
    requires ValidDesc(desc) && ValidMsg(desc, slots) && |slots| == |desc.fields| && i < |slots|
    requires ValidSlot(desc.fields[i], slots[i])
    requires |EncodeSlot(desc.fields[i], slots[i])| < MAX_32
    ensures DecodeMsg(desc, EncodeSlot(desc.fields[i], slots[i]) + rest, Partial(desc, slots, i), SeenUpTo(desc, i)) ==
            DecodeMsg(desc, rest, Partial(desc, slots, i + 1), SeenUpTo(desc, i + 1))
    decreases desc, 0, 2, 0
  {
    hide DecodeMsg, EncodeVal, Tag, ValidDesc, Partial, SeenUpTo, Tracked, IsZero, ValidMsg, ValidVal;
    hide EncodeEach, EncodePacked, Default;
    var f, s := desc.fields[i], slots[i];
    if s == Maybe(None) || s == Many([]) || (f.rule.Singular? && IsZero(f.kind, s.v)) {
      AbsentRoundTrip(desc, slots, i);
      assert [] + rest == rest;
    } else if f.rule.Repeated? && Packable(f.kind) {
      PackedFieldRoundTrip(desc, slots, i, rest);
    } else if f.rule.Repeated? {
      EachRoundTrip(desc, slots, i, 0, rest);
      PartialStep(desc, slots, i);
      assert s.vs[0..] == s.vs && s.vs[..0] == [];
      assert Partial(desc, slots, i)[i := Many([])] == Partial(desc, slots, i);
    } else {
      SingleRoundTrip(desc, slots, i, if s.One? then s.v else s.o.value, rest);
    }
  }

  /** The decoder, having the first i fields, gets the others from what the encoder wrote for them, and
      then stands exactly where that ends, whatever follows. */
  lemma {:induction false} FieldsRoundTrip(desc: Desc, slots: seq<Slot>, i: nat, rest: seq<Byte>)
    requires ValidDesc(desc) && ValidMsg(desc, slots) && |slots| == |desc.fields| && i <= |slots|
    requires |EncodeFrom(desc, slots, i)| < MAX_32
    ensures DecodeMsg(desc, EncodeFrom(desc, slots, i) + rest, Partial(desc, slots, i), SeenUpTo(desc, i)) ==
            DecodeMsg(desc, rest, slots, SeenUpTo(desc, |slots|))
    decreases desc, 1, |slots| - i, 0
  {
    hide DecodeMsg, EncodeSlot, ValidDesc, Partial, SeenUpTo, ValidMsg, ValidSlot;
    if i == |slots| {
      NothingYet(desc, slots);
      assert EncodeFrom(desc, slots, i) + rest == rest;
    } else {
      FieldIsValid(desc, slots, i);
      var one, more := EncodeSlot(desc.fields[i], slots[i]), EncodeFrom(desc, slots, i + 1);
      assert one + more + rest == one + (more + rest);
      SlotRoundTrip(desc, slots, i, more + rest);
      FieldsRoundTrip(desc, slots, i + 1, rest);
    }
  }

  /** With all fields in, the decoder ends at the end of the bytes or at a zero tag. */
  lemma AllThere(desc: Desc, slots: seq<Slot>, junk: seq<Byte>)
    requires |slots| == |desc.fields|
    ensures DecodeMsg(desc, [], slots, SeenUpTo(desc, |slots|)) == Some(slots)
    ensures DecodeMsg(desc, [0] + junk, slots, SeenUpTo(desc, |slots|)) == Some(slots)
  {
    assert [0] + junk == Varint(0) + junk;
    Varint32RoundTrip(0, junk);
  }

  /** Every valid message of every well-formed descriptor, nested to any depth, is given back by the
      decoder from what the encoder wrote, and whatever follows it the decoder meets right after it. */
  lemma MessageRoundTrip(desc: Desc, slots: seq<Slot>)
    requires ValidDesc(desc) && ValidMsg(desc, slots) && |Encode(desc, slots)| < MAX_32
    ensures Decode(desc, Encode(desc, slots)) == Some(slots)
    ensures forall rest ::
      Decode(desc, Encode(desc, slots) + rest) == DecodeMsg(desc, rest, slots, SeenUpTo(desc, |desc.fields|))
  {
    hide DecodeMsg, EncodeFrom, ValidDesc;
    NothingYet(desc, slots);
    forall rest
      ensures Decode(desc, Encode(desc, slots) + rest) == DecodeMsg(desc, rest, slots, SeenUpTo(desc, |desc.fields|))
    {
      FieldsRoundTrip(desc, slots, 0, rest);
    }
    assert Encode(desc, slots) + [] == Encode(desc, slots);
    AllThere(desc, slots, []);
  }

  /** A message followed by a zero byte ends there, whatever comes after. */
  lemma TerminatedRoundTrip(desc: Desc, slots: seq<Slot>, junk: seq<Byte>)
    requires ValidDesc(desc) && ValidMsg(desc, slots) && |Encode(desc, slots)| < MAX_32
    ensures Decode(desc, Encode(desc, slots) + ([0] + junk)) == Some(slots)
  {
    hide DecodeMsg, Encode, ValidDesc;
    MsgShape(desc, slots);
    MessageRoundTrip(desc, slots);
    AllThere(desc, slots, junk);
  }
}
