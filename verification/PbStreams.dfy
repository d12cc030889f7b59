/** The encoder as it runs: output streams that write or only count, and nested messages encoded twice. */
module PbStreams {
  import opened Entries
  import opened Coding
  import opened PbVarint
  import opened PbMessage

  /** The caller's buffer, shared by a stream and its substreams. */
  class Sink {
    var data: seq<Byte>

    constructor ()
      ensures data == []
    {
      data := [];
    }
  }

  /** What emitting some bytes does to a stream. All of it is written if it fits; otherwise what was
      written before the room ran out is a prefix. A sizing stream only counts. */
  ghost predicate Emitted(bytes: seq<Byte>, sizing: bool, max: nat, written: nat, written': nat, data: seq<Byte>,
                          data': seq<Byte>, ok: bool)
  {
    && ok == (sizing || written + |bytes| <= max)
    && (ok ==> written' == written + |bytes|)
    && (ok && !sizing ==> data' == data + bytes)
    && (!ok ==> data <= data' <= data + bytes && written' <= max)
    && (sizing ==> data' == data)
  }

  /** Emitting one thing and then, if that succeeded, another. */
  lemma EmittedBoth(a: seq<Byte>, b: seq<Byte>, sizing: bool, max: nat, w0: nat, w1: nat, w2: nat,
                    d0: seq<Byte>, d1: seq<Byte>, d2: seq<Byte>, ok1: bool, ok2: bool)
    requires Emitted(a, sizing, max, w0, w1, d0, d1, ok1)
    requires ok1 ==> Emitted(b, sizing, max, w1, w2, d1, d2, ok2)
    ensures ok1 ==> Emitted(a + b, sizing, max, w0, w2, d0, d2, ok2)
    ensures !ok1 ==> Emitted(a + b, sizing, max, w0, w1, d0, d1, false)
  {
    if !ok1 {
      assert d0 + a <= d0 + (a + b);
    } else if !ok2 {
      assert d0 + a + b == d0 + (a + b);
    }
    assert d0 + a + b == d0 + (a + b);
  }

  class OStream {
    /** Null for a stream that only counts. */
    const sink: Sink?
    const maxSize: nat
    var bytesWritten: nat

    constructor (sink: Sink?, maxSize: nat)
      ensures this.sink == sink && this.maxSize == maxSize && bytesWritten == 0
    {
      this.sink, this.maxSize, bytesWritten := sink, maxSize, 0;
    }

    function Frame(): set<object> {
      if sink == null then {this} else {this, sink}
    }

    ghost function Data(): seq<Byte>
      reads this, sink
    {
      if sink == null then [] else sink.data
    }

    method Write(bytes: seq<Byte>) returns (ok: bool)
      requires sink == null || bytesWritten <= maxSize
      modifies Frame()
      ensures Emitted(bytes, sink == null, maxSize, old(bytesWritten), bytesWritten, old(Data()), Data(), ok)
      ensures sink == null || bytesWritten <= maxSize
      ensures !ok ==> Data() == old(Data()) && bytesWritten == old(bytesWritten)
    {
      if |bytes| > 0 && sink != null {
        if bytesWritten + |bytes| > maxSize {
          return false;
        }
        sink.data := sink.data + bytes;
      }
      bytesWritten := bytesWritten + |bytes|;
      ok := true;
    }

    /** Counts bytes a sizing stream does not need to see. */
    method Count(n: nat)
      requires sink == null
      modifies this
      ensures bytesWritten == old(bytesWritten) + n
    {
      bytesWritten := bytesWritten + n;
    }
  }

  /** What every encoding method promises of what it accepts: it emits exactly the bytes the encoding
      consists of. */
  twostate predicate Emits(s: OStream, bytes: seq<Byte>, ok: bool)
    reads s, s.sink
  {
    && Emitted(bytes, s.sink == null, s.maxSize, old(s.bytesWritten), s.bytesWritten, old(s.Data()), s.Data(), ok)
    && (s.sink == null || s.bytesWritten <= s.maxSize)
  }

  /** And of what it refuses: it fails, and what was there before is still there. */
  twostate predicate Stops(s: OStream, ok: bool)
    reads s, s.sink
  {
    !ok && (s.sink == null || s.bytesWritten <= s.maxSize) && old(s.Data()) <= s.Data()
  }

  ghost predicate Ready(s: OStream)
    reads s
  {
    s.sink == null || s.bytesWritten <= s.maxSize
  }

  method WriteVarint(s: OStream, v: nat) returns (ok: bool)
    requires Ready(s)
    modifies s.Frame()
    ensures Emits(s, Varint(v), ok)
  {
    var buffer := EncodeVarint(v);
    ok := s.Write(buffer);
  }

  method WriteString(s: OStream, b: seq<Byte>) returns (ok: bool)
    requires Ready(s)
    modifies s.Frame()
    ensures Emits(s, Prefixed(b), ok)
  {
    hide Varint;
    ghost var w0, d0 := s.bytesWritten, s.Data();
    ok := WriteVarint(s, |b|);
    ghost var w1, d1, ok1 := s.bytesWritten, s.Data(), ok;
    if ok {
      ok := s.Write(b);
    }
    EmittedBoth(Varint(|b|), b, s.sink == null, s.maxSize, w0, w1, s.bytesWritten, d0, d1, s.Data(), ok1, ok);
  }

  method WriteTag(s: OStream, f: Field, wire: nat) returns (ok: bool)
    requires Ready(s)
    modifies s.Frame()
    ensures Emits(s, Tag(f, wire), ok)
  {
    ok := WriteVarint(s, 8 * f.tag + wire);
  }

  /** One value, without a tag. Bytes that claim more than their storage holds are refused. */
  method WriteValue(s: OStream, kind: LType, v: Val) returns (ok: bool)
    requires Ready(s) && StoredVal(kind, v)
    modifies s.Frame()
    ensures if ValidVal(kind, v) then Emits(s, EncodeVal(kind, v), ok) else Stops(s, ok)
    decreases kind, 0, 0
  {
    hide Varint, Fixed, ZigZag, Emitted;
    match kind {
      case Bool => ok := WriteVarint(s, v.n);
      case Int(_) => ok := WriteVarint(s, v.n % MAX_64);
      case UInt(_) => ok := WriteVarint(s, v.n);
      case SInt(_) => ok := WriteVarint(s, ZigZag(v.n));
      case Fixed32 => ok := s.Write(Fixed(4, v.n));
      case Fixed64 => ok := s.Write(Fixed(8, v.n));
      case Bytes(max) =>
        if |v.b| > max {
          return false;
        }
        ok := WriteString(s, v.b);
      case String(_) => ok := WriteString(s, v.b);
      case FixedBytes(_) => ok := WriteString(s, v.b);
      case Sub(desc) => ok := EncodeSubmessage(s, desc, v.slots);
    }
  }

  /** A nested message: first counted, then written through a stream with room for exactly that. The
      source's check that both passes agree can never fail. */
  method EncodeSubmessage(s: OStream, desc: Desc, slots: seq<Slot>) returns (ok: bool)
    requires Ready(s) && StoredMsg(desc, slots)
    modifies s.Frame()
    ensures if ValidMsg(desc, slots) then Emits(s, Prefixed(EncodeFrom(desc, slots, 0)), ok) else Stops(s, ok)
    decreases desc, 2, 0
  {
    hide Varint, EncodeFrom, ValidMsg, StoredMsg;
    var counted := GetEncodedSize(desc, slots);
    if counted == None {
      return false;
    }
    var size := counted.value;
    ghost var body := EncodeFrom(desc, slots, 0);
    ghost var w0, d0 := s.bytesWritten, s.Data();
    ok := WriteVarint(s, size);
    ghost var w1, d1, ok1 := s.bytesWritten, s.Data(), ok;
    ghost var before := Varint(|body|);
    if ok {
      if s.sink == null {
        s.Count(size);
      } else if s.bytesWritten + size > s.maxSize {
        ok := false;
      } else {
        var sub := new OStream(s.sink, size);
        ok := EncodeMessage(sub, desc, slots);
        s.bytesWritten := s.bytesWritten + sub.bytesWritten;
        assert sub.bytesWritten == size;
      }
    }
    EmittedBoth(before, body, s.sink == null, s.maxSize, w0, w1, s.bytesWritten, d0, d1, s.Data(), ok1, ok);
  }

  /** `pb_get_encoded_size`: what a stream that only counts ends up with, unless something is refused. */
  method GetEncodedSize(desc: Desc, slots: seq<Slot>) returns (size: Option<nat>)
    requires StoredMsg(desc, slots)
    ensures size == if ValidMsg(desc, slots) then Some(|EncodeFrom(desc, slots, 0)|) else None
    decreases desc, 1, 1
  {
    var stream := new OStream(null, 0);
    var ok := EncodeMessage(stream, desc, slots);
    size := if ok then Some(stream.bytesWritten) else None;
  }

  ghost predicate AllValid(kind: LType, vs: seq<Val>) {
    forall i :: 0 <= i < |vs| ==> ValidVal(kind, vs[i])
  }

  /** The total size of a packed array. */
  method PackedSize(f: Field, vs: seq<Val>) returns (size: nat)
    requires Packable(f.kind) && forall i :: 0 <= i < |vs| ==> ValidVal(f.kind, vs[i])
    ensures size == |EncodePacked(f.kind, vs)|
    decreases f, 1, 0
  {
    if f.kind.Fixed32? {
      FixedPackedSize(f.kind, vs, 4);
      size := 4 * |vs|;
    } else if f.kind.Fixed64? {
      FixedPackedSize(f.kind, vs, 8);
      size := 8 * |vs|;
    } else {
      hide EncodeVal;
      var counting := new OStream(null, 0);
      var ok := WritePacked(counting, f, vs);
      size := counting.bytesWritten;
    }
  }

  lemma {:induction false} FixedPackedSize(kind: LType, vs: seq<Val>, n: nat)
    requires (kind.Fixed32? && n == 4) || (kind.Fixed64? && n == 8)
    requires forall i :: 0 <= i < |vs| ==> ValidVal(kind, vs[i])
    ensures |EncodePacked(kind, vs)| == n * |vs|
    decreases |vs|
  {
    hide Fixed;
    if vs != [] {
      FixedPackedSize(kind, vs[1..], n);
    }
  }

  /** The items of a packed array, one after another. */
  method WritePacked(s: OStream, f: Field, vs: seq<Val>) returns (ok: bool)
    requires Ready(s) && Packable(f.kind) && forall i :: 0 <= i < |vs| ==> ValidVal(f.kind, vs[i])
    modifies s.Frame()
    ensures Emits(s, EncodePacked(f.kind, vs), ok)
    decreases f, 0, 0
  {
    hide EncodeVal, Emitted, ValidVal;
    ghost var w0, d0 := s.bytesWritten, s.Data();
    ghost var done: seq<Byte> := [];
    EmittedNothing(s.sink == null, s.maxSize, w0, d0);
    ok := true;
    assert vs[0..] == vs && [] + EncodePacked(f.kind, vs) == EncodePacked(f.kind, vs);
    for i := 0 to |vs|
      invariant ok && Ready(s) && Emitted(done, s.sink == null, s.maxSize, w0, s.bytesWritten, d0, s.Data(), true)
      invariant EncodePacked(f.kind, vs) == done + EncodePacked(f.kind, vs[i..])
    {
      PackedStep(f.kind, vs, i, done);
      ghost var item, tail := EncodeVal(f.kind, vs[i]), EncodePacked(f.kind, vs[i + 1..]);
      ghost var w1, d1 := s.bytesWritten, s.Data();
      PackableStored(f.kind, vs[i]);
      ok := WriteValue(s, f.kind, vs[i]);
      EmittedBoth(done, item, s.sink == null, s.maxSize, w0, w1, s.bytesWritten, d0, d1, s.Data(), true, ok);
      if !ok {
        EmittedPrefix(done + item, tail, s.sink == null, s.maxSize, w0, s.bytesWritten, d0, s.Data());
        return;
      }
      done := done + item;
    }
    assert vs[|vs|..] == [] && done + [] == done;
  }

  lemma PackedStep(kind: LType, vs: seq<Val>, i: nat, done: seq<Byte>)
    requires i < |vs| && forall j :: 0 <= j < |vs| ==> ValidVal(kind, vs[j])
    requires EncodePacked(kind, vs) == done + EncodePacked(kind, vs[i..])
    ensures EncodePacked(kind, vs) == done + EncodeVal(kind, vs[i]) + EncodePacked(kind, vs[i + 1..])
  {
    hide EncodeVal, ValidVal;
    var item, tail := EncodeVal(kind, vs[i]), EncodePacked(kind, vs[i + 1..]);
    assert vs[i..][1..] == vs[i + 1..];
    assert EncodePacked(kind, vs[i..]) == item + tail;
    assert done + (item + tail) == done + item + tail;
  }

  lemma EmittedNothing(sizing: bool, max: nat, w: nat, d: seq<Byte>)
    requires sizing || w <= max
    ensures Emitted([], sizing, max, w, w, d, d, true)
  {
  }

  /** Failing early is failing the whole. */
  lemma EmittedPrefix(a: seq<Byte>, b: seq<Byte>, sizing: bool, max: nat, w: nat, w': nat, d: seq<Byte>, d': seq<Byte>)
    requires Emitted(a, sizing, max, w, w', d, d', false)
    ensures Emitted(a + b, sizing, max, w, w', d, d', false)
  {
    assert d + (a + b) == d + a + b;
  }

  /** Numbers have no limit to break. */
  lemma PackableStored(kind: LType, v: Val)
    requires Packable(kind)
    ensures StoredVal(kind, v) == ValidVal(kind, v)
  {
  }

  lemma {:induction false} EachConcat(f: Field, xs: seq<Val>, ys: seq<Val>)
    requires AllValid(f.kind, xs) && AllValid(f.kind, ys)
    ensures AllValid(f.kind, xs + ys) && EncodeEach(f, xs + ys) == EncodeEach(f, xs) + EncodeEach(f, ys)
    decreases |xs|
  {
    hide Tag, EncodeVal, ValidVal, WireType;
    if xs == [] {
      assert xs + ys == ys;
    } else {
      EachConcat(f, xs[1..], ys);
      var first := Tag(f, WireType(f.kind)) + EncodeVal(f.kind, xs[0]);
      assert (xs + ys)[1..] == xs[1..] + ys;
      Reassociate(first, EncodeEach(f, xs[1..]), EncodeEach(f, ys));
    }
  }

  lemma Reassociate(a: seq<Byte>, b: seq<Byte>, c: seq<Byte>)
    ensures a + (b + c) == a + b + c
  {
  }

  /** One item more, and those that would follow. */
  lemma EachStep(f: Field, vs: seq<Val>, i: nat)
    requires i < |vs| && AllValid(f.kind, vs[..i]) && ValidVal(f.kind, vs[i])
    ensures AllValid(f.kind, vs[..i + 1])
    ensures EncodeEach(f, vs[..i + 1]) ==
            EncodeEach(f, vs[..i]) + (Tag(f, WireType(f.kind)) + EncodeVal(f.kind, vs[i]))
    ensures AllValid(f.kind, vs) ==>
              EncodeEach(f, vs) == EncodeEach(f, vs[..i + 1]) + EncodeEach(f, vs[i + 1..])
  {
    hide Tag, EncodeVal, ValidVal, WireType;
    assert vs[..i + 1] == vs[..i] + [vs[i]];
    EachConcat(f, vs[..i], [vs[i]]);
    OneEach(f, vs[i]);
    if AllValid(f.kind, vs) {
      assert vs == vs[..i + 1] + vs[i + 1..];
      EachConcat(f, vs[..i + 1], vs[i + 1..]);
    }
  }

  lemma OneEach(f: Field, v: Val)
    requires ValidVal(f.kind, v)
    ensures EncodeEach(f, [v]) == Tag(f, WireType(f.kind)) + EncodeVal(f.kind, v)
  {
    assert EncodeEach(f, [v][1..]) == [];
  }

  /** An array of a kind that is not packed: a tag before every item. */
  method WriteEach(s: OStream, f: Field, vs: seq<Val>) returns (ok: bool)
    requires Ready(s) && forall i :: 0 <= i < |vs| ==> StoredVal(f.kind, vs[i])
    modifies s.Frame()
    ensures if AllValid(f.kind, vs) then Emits(s, EncodeEach(f, vs), ok) else Stops(s, ok)
    decreases f, 1, 0
  {
    hide EncodeVal, Emitted, ValidVal, StoredVal, Tag, WireType, EncodeEach;
    ghost var w0, d0 := s.bytesWritten, s.Data();
    NothingEach(s, f);
    ok := true;
    assert vs[..0] == [];
    for i := 0 to |vs|
      invariant ok && Ready(s) && AllValid(f.kind, vs[..i])
      invariant Emitted(EncodeEach(f, vs[..i]), s.sink == null, s.maxSize, w0, s.bytesWritten, d0, s.Data(), true)
    {
      ghost var done := EncodeEach(f, vs[..i]);
      ghost var w1, d1 := s.bytesWritten, s.Data();
      StillThere(done, s.sink == null, s.maxSize, w0, w1, d0, d1, true);
      ok := WriteTagged(s, f, vs[i]);
      if ValidVal(f.kind, vs[i]) {
        EachStep(f, vs, i);
        ghost var item := Tag(f, WireType(f.kind)) + EncodeVal(f.kind, vs[i]);
        EmittedBoth(done, item, s.sink == null, s.maxSize, w0, w1, s.bytesWritten, d0, d1, s.Data(), true, ok);
        if !ok {
          StillThere(done + item, s.sink == null, s.maxSize, w0, s.bytesWritten, d0, s.Data(), false);
          if AllValid(f.kind, vs) {
            EmittedPrefix(done + item, EncodeEach(f, vs[i + 1..]), s.sink == null, s.maxSize, w0, s.bytesWritten, d0,
                          s.Data());
          }
        }
      }
      if !ok {
        return;
      }
    }
    assert vs[..|vs|] == vs;
  }

  lemma NothingEach(s: OStream, f: Field)
    requires Ready(s)
    ensures EncodeEach(f, []) == []
    ensures Emitted([], s.sink == null, s.maxSize, s.bytesWritten, s.bytesWritten, s.Data(), s.Data(), true)
  {
  }

  /** Emitting leaves what was there before. */
  lemma StillThere(a: seq<Byte>, sizing: bool, max: nat, w: nat, w': nat, d: seq<Byte>, d': seq<Byte>, ok: bool)
    requires Emitted(a, sizing, max, w, w', d, d', ok)
    ensures d <= d'
  {
  }

  /** A tag and one value. */
  method WriteTagged(s: OStream, f: Field, v: Val) returns (ok: bool)
    requires Ready(s) && StoredVal(f.kind, v)
    modifies s.Frame()
    ensures if ValidVal(f.kind, v) then Emits(s, Tag(f, WireType(f.kind)) + EncodeVal(f.kind, v), ok) else Stops(s, ok)
    decreases f, 0
  {
    hide EncodeVal, Emitted, Tag, ValidVal, StoredVal, WireType;
    ghost var w0, d0 := s.bytesWritten, s.Data();
    ok := WriteTag(s, f, WireType(f.kind));
    ghost var w1, d1, ok1 := s.bytesWritten, s.Data(), ok;
    StillThere(Tag(f, WireType(f.kind)), s.sink == null, s.maxSize, w0, w1, d0, d1, ok);
    if ok {
      ok := WriteValue(s, f.kind, v);
    }
    if ValidVal(f.kind, v) {
      EmittedBoth(Tag(f, WireType(f.kind)), EncodeVal(f.kind, v), s.sink == null, s.maxSize, w0, w1, s.bytesWritten,
                  d0, d1, s.Data(), ok1, ok);
    }
  }

  /** The source's encode_array. A count beyond the storage is refused. */
  method EncodeArray(s: OStream, f: Field, vs: seq<Val>) returns (ok: bool)
    requires Ready(s) && f.rule.Repeated? && StoredSlot(f, Many(vs))
    modifies s.Frame()
    ensures if ValidSlot(f, Many(vs)) then Emits(s, EncodeSlot(f, Many(vs)), ok) else Stops(s, ok)
    decreases f, 2, 0
  {
    hide EncodePacked, EncodeEach, Emitted, Tag, ValidVal, StoredVal, Varint;
    if |vs| == 0 {
      EmittedNothing(s.sink == null, s.maxSize, s.bytesWritten, s.Data());
      return true;
    }
    if |vs| > f.rule.max {
      return false;
    }
    if Packable(f.kind) {
      forall i | 0 <= i < |vs| ensures ValidVal(f.kind, vs[i]) {
        PackableStored(f.kind, vs[i]);
      }
      ok := WritePackedField(s, f, vs);
    } else {
      ok := WriteEach(s, f, vs);
    }
  }

  method WritePackedField(s: OStream, f: Field, vs: seq<Val>) returns (ok: bool)
    requires Ready(s) && Packable(f.kind) && forall i :: 0 <= i < |vs| ==> ValidVal(f.kind, vs[i])
    modifies s.Frame()
    ensures Emits(s, Tag(f, WT_STRING) + Prefixed(EncodePacked(f.kind, vs)), ok)
    decreases f, 1, 1
  {
    hide EncodePacked, Tag, ValidVal, Varint, Emitted;
    ghost var w0, d0 := s.bytesWritten, s.Data();
    ghost var body := EncodePacked(f.kind, vs);
    ok := WriteTag(s, f, WT_STRING);
    ghost var w1, d1, ok1 := s.bytesWritten, s.Data(), ok;
    if ok {
      var size := PackedSize(f, vs);
      ok := WriteVarint(s, size);
      ghost var w2, d2, ok2 := s.bytesWritten, s.Data(), ok;
      if ok {
        if s.sink == null {
          s.Count(size);
          Counted(body, s.maxSize, w2, d2);
        } else {
          ok := WritePacked(s, f, vs);
        }
      }
      EmittedBoth(Varint(|body|), body, s.sink == null, s.maxSize, w1, w2, s.bytesWritten, d1, d2, s.Data(), ok2, ok);
    }
    EmittedBoth(Tag(f, WT_STRING), Prefixed(body), s.sink == null, s.maxSize, w0, w1, s.bytesWritten, d0, d1,
                s.Data(), ok1, ok);
  }

  /** Counting a body is emitting it to a sizing stream. */
  lemma Counted(body: seq<Byte>, max: nat, w: nat, d: seq<Byte>)
    ensures Emitted(body, true, max, w, w + |body|, d, d, true)
  {
  }

  /** What counts as absent breaks no limit. */
  lemma {:induction false} ZeroIsValid(kind: LType, v: Val)
    requires StoredVal(kind, v) && IsZero(kind, v)
    ensures ValidVal(kind, v)
    decreases kind, 0
  {
    if kind.Sub? {
      forall i | 0 <= i < |v.slots| ensures ValidSlot(kind.desc.fields[i], v.slots[i]) {
        ZeroSlotIsValid(kind.desc.fields[i], v.slots[i]);
      }
    }
  }

  lemma {:induction false} ZeroSlotIsValid(f: Field, s: Slot)
    requires StoredSlot(f, s) && IsZeroSlot(f, s)
    ensures ValidSlot(f, s)
    decreases f, 0
  {
    if f.rule.Singular? {
      ZeroIsValid(f.kind, s.v);
    }
  }

  /** The source's encode_basic_field. */
  method EncodeBasicField(s: OStream, f: Field, slot: Slot) returns (ok: bool)
    requires Ready(s) && StoredSlot(f, slot)
    modifies s.Frame()
    ensures if ValidSlot(f, slot) then Emits(s, EncodeSlot(f, slot), ok) else Stops(s, ok)
    decreases f, 3, 0
  {
    hide EncodeEach, EncodePacked, EncodeVal, Emitted, Tag, ValidVal, StoredVal, IsZero;
    EmittedNothing(s.sink == null, s.maxSize, s.bytesWritten, s.Data());
    ok := true;
    match f.rule {
      case Required => ok := WriteTagged(s, f, slot.v);
      case Singular =>
        var implicitHas := !IsZero(f.kind, slot.v);
        if implicitHas {
          ok := WriteTagged(s, f, slot.v);
        } else {
          ZeroIsValid(f.kind, slot.v);
        }
      case Optional =>
        if slot.o.Some? {
          ok := WriteTagged(s, f, slot.o.value);
        }
      case OneOf(_) =>
        if slot.o.Some? {
          ok := WriteTagged(s, f, slot.o.value);
        }
      case Repeated(_) => ok := EncodeArray(s, f, slot.vs);
    }
  }

  ghost predicate ValidUpTo(desc: Desc, slots: seq<Slot>, i: nat)
    requires |slots| == |desc.fields| && i <= |slots|
  {
    forall j :: 0 <= j < i ==> ValidSlot(desc.fields[j], slots[j])
  }

  /** The first i fields. */
  ghost function EncodeTo(desc: Desc, slots: seq<Slot>, i: nat): seq<Byte>
    requires |slots| == |desc.fields| && i <= |slots| && ValidUpTo(desc, slots, i)
  {
    if i == 0 then [] else EncodeTo(desc, slots, i - 1) + EncodeSlot(desc.fields[i - 1], slots[i - 1])
  }

  lemma {:induction false} ToThenFrom(desc: Desc, slots: seq<Slot>, i: nat)
    requires ValidMsg(desc, slots) && i <= |slots|
    ensures EncodeFrom(desc, slots, 0) == EncodeTo(desc, slots, i) + EncodeFrom(desc, slots, i)
  {
    hide EncodeSlot, ValidSlot;
    if i > 0 {
      ToThenFrom(desc, slots, i - 1);
      Reassociate(EncodeTo(desc, slots, i - 1), EncodeSlot(desc.fields[i - 1], slots[i - 1]),
                  EncodeFrom(desc, slots, i));
    }
  }

  /** `pb_encode`. A message within its limits: into a buffer it succeeds exactly when the encoded size fits,
      and never writes past the end; into a counting stream it counts that same size. Any other is refused. */
  method EncodeMessage(s: OStream, desc: Desc, slots: seq<Slot>) returns (ok: bool)
    requires Ready(s) && StoredMsg(desc, slots)
    modifies s.Frame()
    ensures if ValidMsg(desc, slots) then Emits(s, EncodeFrom(desc, slots, 0), ok) else Stops(s, ok)
    decreases desc, 1, 0
  {
    hide EncodeSlot, Emitted, ValidSlot, StoredSlot, EncodeFrom, EncodeTo, OneOfEach;
    ghost var w0, d0 := s.bytesWritten, s.Data();
    EmittedNothing(s.sink == null, s.maxSize, w0, d0);
    NoneYet(desc, slots);
    ok := true;
    for i := 0 to |desc.fields|
      invariant ok && Ready(s) && ValidUpTo(desc, slots, i)
      invariant Emitted(EncodeTo(desc, slots, i), s.sink == null, s.maxSize, w0, s.bytesWritten, d0, s.Data(), true)
    {
      ghost var done := EncodeTo(desc, slots, i);
      ghost var w1, d1 := s.bytesWritten, s.Data();
      StillThere(done, s.sink == null, s.maxSize, w0, w1, d0, d1, true);
      ok := EncodeBasicField(s, desc.fields[i], slots[i]);
      if ValidSlot(desc.fields[i], slots[i]) {
        OneMore(desc, slots, i);
        EmittedBoth(done, EncodeSlot(desc.fields[i], slots[i]), s.sink == null, s.maxSize, w0, w1, s.bytesWritten,
                    d0, d1, s.Data(), true, ok);
        if !ok {
          FailedAt(desc, slots, i + 1, s.sink == null, s.maxSize, w0, s.bytesWritten, d0, s.Data());
        }
      }
      if !ok {
        return;
      }
    }
    WholeMessage(desc, slots);
  }

  lemma NoneYet(desc: Desc, slots: seq<Slot>)
    requires |slots| == |desc.fields|
    ensures EncodeTo(desc, slots, 0) == []
  {
  }

  lemma OneMore(desc: Desc, slots: seq<Slot>, i: nat)
    requires |slots| == |desc.fields| && i < |slots| && ValidUpTo(desc, slots, i)
    requires ValidSlot(desc.fields[i], slots[i])
    ensures ValidUpTo(desc, slots, i + 1)
    ensures EncodeTo(desc, slots, i + 1) == EncodeTo(desc, slots, i) + EncodeSlot(desc.fields[i], slots[i])
  {
  }

  /** No room for the first i fields is no room for all. */
  lemma FailedAt(desc: Desc, slots: seq<Slot>, i: nat, sizing: bool, max: nat, w: nat, w': nat, d: seq<Byte>,
                 d': seq<Byte>)
    requires |slots| == |desc.fields| && i <= |slots| && ValidUpTo(desc, slots, i)
    requires Emitted(EncodeTo(desc, slots, i), sizing, max, w, w', d, d', false)
    ensures d <= d'
    ensures ValidMsg(desc, slots) ==> Emitted(EncodeFrom(desc, slots, 0), sizing, max, w, w', d, d', false)
  {
    hide EncodeTo, EncodeFrom, ValidSlot, Emitted;
    StillThere(EncodeTo(desc, slots, i), sizing, max, w, w', d, d', false);
    if ValidMsg(desc, slots) {
      ToThenFrom(desc, slots, i);
      EmittedPrefix(EncodeTo(desc, slots, i), EncodeFrom(desc, slots, i), sizing, max, w, w', d, d');
    }
  }

  lemma WholeMessage(desc: Desc, slots: seq<Slot>)
    requires ValidMsg(desc, slots)
    ensures EncodeTo(desc, slots, |slots|) == EncodeFrom(desc, slots, 0)
  {
    hide EncodeTo, EncodeFrom, ValidSlot;
    ToThenFrom(desc, slots, |slots|);
    FromEnd(desc, slots);
    assert EncodeTo(desc, slots, |slots|) + [] == EncodeTo(desc, slots, |slots|);
  }

  lemma FromEnd(desc: Desc, slots: seq<Slot>)
    requires ValidMsg(desc, slots)
    ensures EncodeFrom(desc, slots, |slots|) == []
  {
    hide ValidSlot;
  }
}
