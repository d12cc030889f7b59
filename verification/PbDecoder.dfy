/** The decoder as it runs: input streams and substreams, the cyclic field iterator, the main loop. */
module PbDecoder {
  import opened Entries
  import opened Coding
  import opened PbVarint
  import opened PbMessage
  import PbRoundTrip
  import PbStreams

  class IStream {
    const buf: seq<Byte>
    var pos: nat
    var bytesLeft: nat

    constructor (buf: seq<Byte>, pos: nat, bytesLeft: nat)
      requires pos + bytesLeft <= |buf|
      ensures Valid() && this.buf == buf && this.pos == pos && this.bytesLeft == bytesLeft
    {
      this.buf, this.pos, this.bytesLeft := buf, pos, bytesLeft;
    }

    ghost predicate Valid()
      reads this
    {
      pos + bytesLeft <= |buf|
    }

    /** What is left to read. */
    function Rest(): (r: seq<Byte>)
      requires Valid()
      reads this
      ensures |r| == bytesLeft
    {
      buf[pos..pos + bytesLeft]
    }

    method Advance(n: nat)
      requires Valid() && n <= bytesLeft
      modifies this
      ensures Valid() && pos == old(pos) + n && Rest() == old(Rest())[n..]
    {
      pos, bytesLeft := pos + n, bytesLeft - n;
    }

    method Read(n: nat) returns (r: Option<seq<Byte>>)
      requires Valid()
      modifies this
      ensures Valid()
      ensures r == if n <= |old(Rest())| then Some(old(Rest())[..n]) else None
      ensures r.Some? ==> Rest() == old(Rest())[n..]
    {
      if n > bytesLeft {
        return None;
      }
      r := Some(buf[pos..pos + n]);
      assert Rest()[..n] == buf[pos..pos + n];
      Advance(n);
    }

    method ReadVarint32() returns (r: Option<nat>)
      requires Valid()
      modifies this
      ensures Valid() && r.Some? == Decode32(old(Rest())).Some?
      ensures var d := Decode32(old(Rest()));
              d.Some? ==> r == Some(d.value.value) && Rest() == old(Rest())[d.value.used..]
    {
      var d := DecodeVarint32(Rest());
      if d == None {
        return None;
      }
      Advance(d.value.used);
      r := Some(d.value.value);
    }

    method ReadVarint64() returns (r: Option<nat>)
      requires Valid()
      modifies this
      ensures Valid() && r.Some? == Decode64(old(Rest())).Some?
      ensures var d := Decode64(old(Rest()));
              d.Some? ==> r == Some(d.value.value) && Rest() == old(Rest())[d.value.used..]
    {
      var d := DecodeVarint(Rest());
      if d == None {
        return None;
      }
      Advance(d.value.used);
      r := Some(d.value.value);
    }

    /** `pb_make_string_substream`, with the parent already moved past what the substream covers; the
        source moves it when the substream is closed, whatever was left unread in it. */
    method MakeSubstream() returns (sub: IStream?)
      requires Valid()
      modifies this
      ensures Valid() && (sub != null) == Substream(old(Rest())).Some?
      ensures sub != null ==>
        var d := Substream(old(Rest())).value;
        fresh(sub) && sub.Valid() && sub.Rest() == d.value && Rest() == old(Rest())[d.used..]
    {
      hide Decode32;
      var size := ReadVarint32();
      if size == None || bytesLeft < size.value {
        return null;
      }
      sub := new IStream(buf, pos, size.value);
      assert Rest()[..size.value] == sub.Rest();
      Advance(size.value);
    }
  }

  // ----- The cyclic field iterator -----

  class FieldIter {
    const desc: Desc
    var pos: nat
    var requiredFieldIndex: nat

    constructor (desc: Desc)
      requires |desc.fields| > 0
      ensures Valid() && this.desc == desc && pos == 0
    {
      this.desc, pos, requiredFieldIndex := desc, 0, 0;
    }

    /** The iterator is on a field, and knows how many required fields come before it. */
    ghost predicate Valid()
      reads this
    {
      pos < |desc.fields| && requiredFieldIndex == RequiredIndex(desc, pos)
    }

    /** Moves on; past the last field it starts over and says so. */
    method Next() returns (more: bool)
      requires Valid()
      modifies this
      ensures Valid() && more == (old(pos) + 1 < |desc.fields|) && pos == if more then old(pos) + 1 else 0
    {
      var previous := pos;
      pos := pos + 1;
      if pos == |desc.fields| {
        pos, requiredFieldIndex := 0, 0;
        more := false;
      } else {
        if desc.fields[previous].rule.Required? {
          requiredFieldIndex := requiredFieldIndex + 1;
        }
        more := true;
      }
    }

    /** Searches from where the iterator is, once round. Where it starts makes no difference. */
    method Find(tag: nat) returns (found: bool)
      requires Valid() && ValidDesc(desc)
      modifies this
      ensures Valid()
      ensures FindField(desc, tag, 0) == if found then Some(pos) else None
      ensures !found ==> pos == old(pos)
    {
      hide ValidKind;
      var start := pos;
      var searching := true;
      ghost var seen := 0;
      while searching
        invariant Valid() && seen <= |desc.fields| && pos == Around(start, seen)
        invariant forall k :: 0 <= k < seen ==> desc.fields[Around(start, k)].tag != tag
        invariant searching <==> seen == 0 || pos != start
        decreases |desc.fields| - seen, searching
      {
        if desc.fields[pos].tag == tag {
          FoundIs(pos, tag);
          return true;
        }
        var _ := Next();
        AroundNext(start, seen);
        seen := seen + 1;
        searching := pos != start;
      }
      NoneLeft(start, seen, tag);
      found := false;
    }

    /** The field k places further round. */
    ghost function Around(start: nat, k: nat): (r: nat)
      requires start < |desc.fields| && k <= |desc.fields|
      ensures r < |desc.fields|
    {
      if start + k < |desc.fields| then start + k else start + k - |desc.fields|
    }

    lemma AroundNext(start: nat, k: nat)
      requires start < |desc.fields| && k < |desc.fields|
      ensures Around(start, k + 1) == if Around(start, k) + 1 < |desc.fields| then Around(start, k) + 1 else 0
      ensures Around(start, k + 1) == start <==> k + 1 == |desc.fields|
    {
    }

    lemma FoundIs(i: nat, tag: nat)
      requires ValidDesc(desc) && i < |desc.fields| && desc.fields[i].tag == tag
      ensures FindField(desc, tag, 0) == Some(i)
    {
      hide ValidKind;
    }

    lemma NoneLeft(start: nat, seen: nat, tag: nat)
      requires start < |desc.fields| && seen <= |desc.fields| && seen > 0 && Around(start, seen) == start
      requires forall k :: 0 <= k < seen ==> desc.fields[Around(start, k)].tag != tag
      ensures FindField(desc, tag, 0) == None
    {
      forall j | 0 <= j < |desc.fields| ensures desc.fields[j].tag != tag {
        var k := if j >= start then j - start else j + |desc.fields| - start;
        assert Around(start, k) == j;
      }
    }
  }

  // ----- Decoding -----

  /** What every decoding method promises about the stream: it agrees with the function on what was
      read, and on success has moved past what was used. */
  twostate predicate Moved(s: IStream, ok: bool, used: nat)
    reads s
  {
    s.Valid() && (ok ==> old(s.Valid()) && used <= |old(s.Rest())| && s.Rest() == old(s.Rest())[used..])
  }

  method DecodeValue(s: IStream, kind: LType, was: Val) returns (r: Option<Val>)
    requires s.Valid() && ValidKind(kind)
    modifies s
    ensures var d := DecodeVal(kind, old(s.Rest()), was);
      r == (if d.Some? then Some(d.value.value) else None) && Moved(s, d.Some?, if d.Some? then d.value.used else 0)
    decreases kind, 0, 0
  {
    hide Decode32, Decode64;
    match kind {
      case Sub(desc) => r := DecodeSubmessage(s, desc, was);
      case _ => r := DecodeScalar(s, kind, was);
    }
  }

  method DecodeScalar(s: IStream, kind: LType, was: Val) returns (r: Option<Val>)
    requires s.Valid() && !kind.Sub?
    modifies s
    ensures var d := DecodeVal(kind, old(s.Rest()), was);
      r == (if d.Some? then Some(d.value.value) else None) && Moved(s, d.Some?, if d.Some? then d.value.used else 0)
  {
    hide Decode32, Decode64, DecodeFixed, ZagZig, ToSigned;
    r := None;
    match kind {
      case Bool =>
        var v := s.ReadVarint32();
        if v.Some? {
          r := Some(Num(if v.value != 0 then 1 else 0));
        }
      case Int(size) =>
        var v := s.ReadVarint64();
        if v.Some? {
          var n := if size == 8 then ToSigned(v.value, MAX_64) else ToSigned(v.value % MAX_32, MAX_32);
          if -Half(size) <= n < Half(size) {
            r := Some(Num(n));
          }
        }
      case UInt(size) =>
        var v := s.ReadVarint64();
        if v.Some? && v.value < 2 * Half(size) {
          r := Some(Num(v.value));
        }
      case SInt(size) =>
        var v := s.ReadVarint64();
        if v.Some? {
          var n := ZagZig(v.value);
          if -Half(size) <= n < Half(size) {
            r := Some(Num(n));
          }
        }
      case Fixed32 =>
        var b := s.Read(4);
        if b.Some? {
          r := Some(Num(DecodeFixed(b.value)));
        }
      case Fixed64 =>
        var b := s.Read(8);
        if b.Some? {
          r := Some(Num(DecodeFixed(b.value)));
        }
      case Bytes(_) => r := DecodeRaw(s, kind, was);
      case String(_) => r := DecodeRaw(s, kind, was);
      case FixedBytes(_) => r := DecodeRaw(s, kind, was);
    }
  }

  lemma SliceAfter(b: seq<Byte>, used: nat, n: nat)
    ensures used + n <= |b| ==> b[used..][..n] == b[used..used + n] && b[used..][n..] == b[used + n..]
  {
  }

  /** A length no value of the kind may have. */
  predicate WrongSize(kind: LType, n: nat)
    requires kind.Bytes? || kind.String? || kind.FixedBytes?
  {
    || (!kind.String? && n > PB_SIZE_MAX)
    || (kind.FixedBytes? && n != kind.length) || (kind.Bytes? && n > kind.max) || (kind.String? && n > kind.max)
  }

  lemma RawIs(kind: LType, b: seq<Byte>, was: Val)
    requires kind.Bytes? || kind.String? || kind.FixedBytes?
    ensures DecodeVal(kind, b, was) ==
      match Decode32(b)
      case None => None
      case Some(d) =>
        if kind.FixedBytes? && d.value == 0 then Some(Decoded(Raw(seq(kind.length, _ => 0)), d.used))
        else if WrongSize(kind, d.value) || d.value > |b[d.used..]| then None
        else Some(Decoded(Raw(b[d.used..][..d.value]), d.used + d.value))
  {
    hide Decode32;
    if Decode32(b).Some? {
      SliceAfter(b, Decode32(b).value.used, Decode32(b).value.value);
    }
  }

  method DecodeRaw(s: IStream, kind: LType, was: Val) returns (r: Option<Val>)
    requires s.Valid() && (kind.Bytes? || kind.String? || kind.FixedBytes?)
    modifies s
    ensures var d := DecodeVal(kind, old(s.Rest()), was);
      r == (if d.Some? then Some(d.value.value) else None) && Moved(s, d.Some?, if d.Some? then d.value.used else 0)
  {
    hide Decode32, DecodeVal;
    ghost var b := s.Rest();
    RawIs(kind, b, was);
    var size := s.ReadVarint32();
    if size == None {
      return None;
    }
    if kind.FixedBytes? && size.value == 0 {
      return Some(Raw(seq(kind.length, _ => 0)));
    }
    if WrongSize(kind, size.value) {
      return None;
    }
    SliceAfter(b, Decode32(b).value.used, size.value);
    var raw := s.Read(size.value);
    if raw.Some? {
      r := Some(Raw(raw.value));
    } else {
      r := None;
    }
  }

  method DecodeSubmessage(s: IStream, desc: Desc, was: Val) returns (r: Option<Val>)
    requires s.Valid() && ValidDesc(desc)
    modifies s
    ensures var d := DecodeVal(Sub(desc), old(s.Rest()), was);
      r == (if d.Some? then Some(d.value.value) else None) && Moved(s, d.Some?, if d.Some? then d.value.used else 0)
    decreases desc, 2, 0
  {
    hide Substream, DecodeMsg;
    var sub := s.MakeSubstream();
    if sub == null || !was.Msg? || |was.slots| != |desc.fields| {
      return None;
    }
    var slots := DecodeNoInit(sub, desc, was.slots);
    r := if slots.Some? then Some(Msg(slots.value)) else None;
  }

  /** The packed branch of decode_static_field. */
  method DecodePackedArray(s: IStream, kind: LType, had: seq<Val>, max: nat) returns (r: Option<seq<Val>>)
    requires s.Valid() && Packable(kind)
    modifies s
    ensures r == DecodePacked(kind, old(s.Rest()), had, max)
    decreases kind, 1, 0
  {
    hide DecodeVal;
    var vs := had;
    while s.bytesLeft > 0 && |vs| < max
      invariant s.Valid() && DecodePacked(kind, old(s.Rest()), had, max) == DecodePacked(kind, s.Rest(), vs, max)
      decreases s.bytesLeft
    {
      var v := DecodeScalar(s, kind, Default(kind));
      if v == None {
        return None;
      }
      vs := vs + [v.value];
    }
    r := if s.bytesLeft > 0 then None else Some(vs);
  }

  method DecodeStaticField(s: IStream, desc: Desc, i: nat, wire: nat, slots: seq<Slot>) returns (r: Option<seq<Slot>>)
    requires s.Valid() && ValidDesc(desc) && |slots| == |desc.fields| && i < |slots|
    modifies s
    ensures var d := DecodeField(desc, i, wire, old(s.Rest()), slots);
      r == (if d.Some? then Some(d.value.value) else None) && Moved(s, d.Some?, if d.Some? then d.value.used else 0)
    decreases desc, 0, 0
  {
    hide DecodeVal, DecodePacked, Substream, SetUnion, Default;
    var f := desc.fields[i];
    var had := if slots[i].Many? then slots[i].vs else [];
    if f.rule.Repeated? && wire == WT_STRING && Packable(f.kind) {
      var sub := s.MakeSubstream();
      if sub == null {
        return None;
      }
      var vs := DecodePackedArray(sub, f.kind, had, f.rule.max);
      return if vs.Some? then Some(slots[i := Many(vs.value)]) else None;
    }
    if f.rule.Repeated? && |had| >= f.rule.max {
      return None;
    }
    var v := DecodeValue(s, f.kind, Storage(f, slots[i]));
    if v == None {
      return None;
    }
    r := Some(match f.rule
              case Required => slots[i := One(v.value)]
              case Singular => slots[i := One(v.value)]
              case Optional => slots[i := Maybe(Some(v.value))]
              case OneOf(_) => SetUnion(desc, slots, i, v.value)
              case Repeated(_) => slots[i := Many(had + [v.value])]);
  }

  method SkipUnknown(s: IStream, wire: nat) returns (ok: bool)
    requires s.Valid()
    modifies s
    ensures var n := SkipField(wire, old(s.Rest())); ok == n.Some? && Moved(s, ok, if n.Some? then n.value else 0)
  {
    hide Substream, SkipVarint;
    ok := true;
    if wire == WT_VARINT {
      ok := SkipVarintBytes(s);
    } else if wire == WT_64BIT {
      var b := s.Read(8);
      ok := b.Some?;
    } else if wire == WT_STRING {
      var sub := s.MakeSubstream();
      ok := sub != null;
    } else if wire == WT_32BIT {
      var b := s.Read(4);
      ok := b.Some?;
    } else {
      ok := false;
    }
  }

  method SkipVarintBytes(s: IStream) returns (ok: bool)
    requires s.Valid()
    modifies s
    ensures var n := SkipVarint(old(s.Rest())); ok == n.Some? && Moved(s, ok, if n.Some? then n.value else 0)
  {
    ghost var b := s.Rest();
    ghost var k := 0;
    while true
      invariant s.Valid() && k <= |b| && s.Rest() == b[k..]
      invariant var n, m := SkipVarint(b), SkipVarint(b[k..]); n == if m.Some? then Some(k + m.value) else None
      decreases s.bytesLeft
    {
      var byte := s.Read(1);
      if byte == None {
        return false;
      }
      assert b[k..][1..] == b[k + 1..];
      k := k + 1;
      if byte.value[0] < 128 {
        return true;
      }
    }
  }

  lemma NoFields(desc: Desc)
    ensures |desc.fields| == 0 ==> forall tag :: FindField(desc, tag, 0) == None
  {
  }

  /** The message ends with its bytes or at a zero tag. */
  lemma MessageEnds(desc: Desc, b: seq<Byte>, slots: seq<Slot>, seen: set<nat>)
    requires |slots| == |desc.fields|
    requires b != [] ==> Decode32(b).Some? && Decode32(b).value.value == 0
    ensures DecodeMsg(desc, b, slots, seen) == if AllSeen(desc, seen) then Some(slots) else None
  {
    hide Decode32, AllSeen;
  }

  lemma MessageFails(desc: Desc, b: seq<Byte>, slots: seq<Slot>, seen: set<nat>)
    requires |slots| == |desc.fields| && b != [] && Decode32(b) == None
    ensures DecodeMsg(desc, b, slots, seen) == None
  {
    hide Decode32;
  }

  /** A field of no known tag is skipped. */
  lemma UnknownField(desc: Desc, b: seq<Byte>, slots: seq<Slot>, seen: set<nat>)
    requires |slots| == |desc.fields| && b != [] && Decode32(b).Some? && Decode32(b).value.value != 0
    requires FindField(desc, Decode32(b).value.value / 8, 0) == None
    ensures var t := Decode32(b).value;
      DecodeMsg(desc, b, slots, seen) ==
      match SkipField(t.value % 8, b[t.used..])
      case None => None
      case Some(n) => DecodeMsg(desc, b[t.used..][n..], slots, seen)
  {
    hide Decode32, SkipField, FindField;
    var t := Decode32(b).value;
    var n := SkipField(t.value % 8, b[t.used..]);
    assert n.Some? ==> b[t.used..][n.value..] == b[t.used + n.value..];
  }

  /** A known one is decoded into its slot. */
  lemma KnownField(desc: Desc, b: seq<Byte>, slots: seq<Slot>, seen: set<nat>, i: nat)
    requires |slots| == |desc.fields| && i < |desc.fields|
    requires b != [] && Decode32(b).Some? && Decode32(b).value.value != 0
    requires FindField(desc, Decode32(b).value.value / 8, 0) == Some(i)
    ensures var t := Decode32(b).value;
      DecodeMsg(desc, b, slots, seen) ==
      match DecodeField(desc, i, t.value % 8, b[t.used..], slots)
      case None => None
      case Some(d) =>
        DecodeMsg(desc, b[t.used..][d.used..], d.value, seen + if Tracked(desc, i) then {i} else {})
  {
    hide Decode32, DecodeField, FindField, Tracked;
    var t := Decode32(b).value;
    var d := DecodeField(desc, i, t.value % 8, b[t.used..], slots);
    assert d.Some? ==> b[t.used..][d.value.used..] == b[t.used + d.value.used..];
  }

  /** `pb_decode_noinit`: the main loop, with the required fields ticked off as they come. */
  method DecodeNoInit(s: IStream, desc: Desc, initial: seq<Slot>) returns (r: Option<seq<Slot>>)
    requires s.Valid() && ValidDesc(desc) && |initial| == |desc.fields|
    modifies s
    ensures r == DecodeMsg(desc, old(s.Rest()), initial, {})
    decreases desc, 1, 0
  {
    hide Decode32, DecodeField, SkipField, AllSeen, Tracked, FindField, RequiredIndex, ValidDesc, DecodeMsg;
    var slots, seen := initial, {};
    var iter: FieldIter? := null;
    NoFields(desc);
    if |desc.fields| > 0 {
      iter := new FieldIter(desc);
    }
    while s.bytesLeft > 0
      invariant s.Valid() && |slots| == |desc.fields|
      invariant iter == null <==> |desc.fields| == 0
      invariant iter != null ==> fresh(iter) && iter.desc == desc && iter.Valid()
      invariant DecodeMsg(desc, old(s.Rest()), initial, {}) == DecodeMsg(desc, s.Rest(), slots, seen)
      decreases s.bytesLeft
    {
      ghost var b := s.Rest();
      var temp := s.ReadVarint32();
      if temp == None {
        MessageFails(desc, b, slots, seen);
        return None;
      }
      if temp.value == 0 {
        MessageEnds(desc, b, slots, seen);
        r := if AllSeen(desc, seen) then Some(slots) else None;
        return;
      }
      var found := false;
      if iter != null {
        found := iter.Find(temp.value / 8);
      }
      if !found {
        UnknownField(desc, b, slots, seen);
        var ok := SkipUnknown(s, temp.value % 8);
        if !ok {
          return None;
        }
      } else {
        KnownField(desc, b, slots, seen, iter.pos);
        var next := DecodeStaticField(s, desc, iter.pos, temp.value % 8, slots);
        if next == None {
          return None;
        }
        slots := next.value;
        seen := seen + if Tracked(desc, iter.pos) then {iter.pos} else {};
      }
    }
    MessageEnds(desc, s.Rest(), slots, seen);
    r := if AllSeen(desc, seen) then Some(slots) else None;
  }

  /** Encoding into a buffer and decoding what it holds: the message comes back exactly when it is within
      its limits and fits. Otherwise the encoder has said so. */
  method EncodeThenDecode(desc: Desc, slots: seq<Slot>, room: nat) returns (r: Option<seq<Slot>>)
    requires ValidDesc(desc) && StoredMsg(desc, slots) && room < MAX_32
    ensures r == if ValidMsg(desc, slots) && |Encode(desc, slots)| <= room then Some(slots) else None
  {
    hide ValidMsg, StoredMsg, ValidDesc, DecodeMsg, EncodeFrom;
    var sink := new PbStreams.Sink();
    var output := new PbStreams.OStream(sink, room);
    var ok := PbStreams.EncodeMessage(output, desc, slots);
    if !ok {
      return None;
    }
    var input := new IStream(sink.data, 0, |sink.data|);
    assert input.Rest() == Encode(desc, slots);
    PbRoundTrip.MessageRoundTrip(desc, slots);
    r := DecodeNoInit(input, desc, Defaults(desc));
  }
}
