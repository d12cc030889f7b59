/** Descriptor-driven messages: what the encoder writes, what the decoder makes of any bytes, and that
    the second undoes the first. */
module PbMessage {
  import opened Entries
  import opened Coding
  import opened PbVarint

  // ----- Descriptors and messages -----

  datatype Desc = Desc(fields: seq<Field>)

  datatype Field = Field(tag: nat, rule: Rule, kind: LType)

  /** `Singular` is a proto3 field without presence; members of one union share storage. */
  datatype Rule = Required | Optional | Singular | Repeated(max: nat) | OneOf(union: nat)

  datatype LType =
    | Bool
    | Int(size: nat)
    | UInt(size: nat)
    | SInt(size: nat)
    | Fixed32
    | Fixed64
    | Bytes(max: nat)
    | String(max: nat)
    | FixedBytes(length: nat)
    | Sub(desc: Desc)

  datatype Val = Num(n: int) | Raw(b: seq<Byte>) | Msg(slots: seq<Slot>)

  /** What a message holds for one field. */
  datatype Slot = One(v: Val) | Maybe(o: Option<Val>) | Many(vs: seq<Val>)

  const WT_VARINT := 0
  const WT_64BIT := 1
  const WT_STRING := 2
  const WT_32BIT := 5

  const PB_SIZE_MAX := 0xFFFF
  const MAX_REQUIRED_FIELDS := 64

  function WireType(kind: LType): nat {
    match kind
    case Fixed32 => WT_32BIT
    case Fixed64 => WT_64BIT
    case Bytes(_) => WT_STRING
    case String(_) => WT_STRING
    case FixedBytes(_) => WT_STRING
    case Sub(_) => WT_STRING
    case _ => WT_VARINT
  }

  /** Repeated fields of these kinds are packed. */
  predicate Packable(kind: LType) {
    kind.Bool? || kind.Int? || kind.UInt? || kind.SInt? || kind.Fixed32? || kind.Fixed64?
  }

  predicate IntegerSize(size: nat) {
    size == 1 || size == 2 || size == 4 || size == 8
  }

  predicate ValidKind(kind: LType)
    decreases kind, 0
  {
    match kind
    case Int(size) => IntegerSize(size)
    case UInt(size) => IntegerSize(size)
    case SInt(size) => IntegerSize(size)
    case Bytes(max) => max <= PB_SIZE_MAX
    case String(max) => max <= PB_SIZE_MAX
    case FixedBytes(length) => length <= PB_SIZE_MAX
    case Sub(desc) => ValidDesc(desc)
    case _ => true
  }

  predicate ValidDesc(desc: Desc)
    decreases desc, 0
  {
    && (forall i, j :: 0 <= i < j < |desc.fields| ==> desc.fields[i].tag != desc.fields[j].tag)
    && (forall i :: 0 <= i < |desc.fields| ==> 0 < desc.fields[i].tag < 0x2000_0000)
    && (forall i :: 0 <= i < |desc.fields| ==> ValidKind(desc.fields[i].kind))
  }

  // ----- Defaults -----

  function Default(kind: LType): Val
    decreases kind, 0
  {
    match kind
    case Bytes(_) => Raw([])
    case String(_) => Raw([])
    case FixedBytes(length) => Raw(seq(length, _ => 0))
    case Sub(desc) => Msg(Defaults(desc))
    case _ => Num(0)
  }

  function DefaultSlot(f: Field): Slot
    decreases f, 0
  {
    match f.rule
    case Required => One(Default(f.kind))
    case Singular => One(Default(f.kind))
    case Optional => Maybe(None)
    case OneOf(_) => Maybe(None)
    case Repeated(_) => Many([])
  }

  function Defaults(desc: Desc): (slots: seq<Slot>)
    ensures |slots| == |desc.fields|
    decreases desc, 0
  {
    seq(|desc.fields|, i requires 0 <= i < |desc.fields| => DefaultSlot(desc.fields[i]))
  }

  // ----- Valid messages -----

  function Half(size: nat): int {
    if size == 1 then 0x80 else if size == 2 then 0x8000 else if size == 4 then 0x8000_0000 else 0x8000_0000_0000_0000
  }

  predicate ValidVal(kind: LType, v: Val)
    decreases kind, 0
  {
    match kind
    case Bool => v == Num(0) || v == Num(1)
    case Int(size) => v.Num? && -Half(size) <= v.n < Half(size)
    case UInt(size) => v.Num? && 0 <= v.n < 2 * Half(size)
    case SInt(size) => v.Num? && -Half(size) <= v.n < Half(size)
    case Fixed32 => v.Num? && 0 <= v.n < MAX_32
    case Fixed64 => v.Num? && 0 <= v.n < MAX_64
    case Bytes(max) => v.Raw? && |v.b| <= max
    case String(max) => v.Raw? && |v.b| <= max && 0 !in v.b
    case FixedBytes(length) => v.Raw? && |v.b| == length
    case Sub(desc) => v.Msg? && ValidMsg(desc, v.slots)
  }

  predicate ValidSlot(f: Field, s: Slot)
    decreases f, 0
  {
    match f.rule
    case Required => s.One? && ValidVal(f.kind, s.v)
    case Singular => s.One? && ValidVal(f.kind, s.v)
    case Optional => s.Maybe? && (s.o.Some? ==> ValidVal(f.kind, s.o.value))
    case OneOf(_) => s.Maybe? && (s.o.Some? ==> ValidVal(f.kind, s.o.value))
    case Repeated(max) => s.Many? && |s.vs| <= max && forall i :: 0 <= i < |s.vs| ==> ValidVal(f.kind, s.vs[i])
  }

  /** Every field has its slot, and of a union at most one member is set. */
  predicate ValidMsg(desc: Desc, slots: seq<Slot>)
    decreases desc, 0
  {
    && |slots| == |desc.fields|
    && (forall i :: 0 <= i < |slots| ==> ValidSlot(desc.fields[i], slots[i]))
    && OneOfEach(desc, slots)
  }

  predicate OneOfEach(desc: Desc, slots: seq<Slot>)
    requires |slots| == |desc.fields|
  {
    forall i, j ::
      0 <= i < j < |slots| && desc.fields[i].rule.OneOf? && desc.fields[i].rule == desc.fields[j].rule ==>
        slots[i] == Maybe(None) || slots[j] == Maybe(None)
  }

  // ----- What the storage can hold -----

  /** A value as it may lie in memory: byte counts may claim more than there is room for. */
  predicate StoredVal(kind: LType, v: Val)
    decreases kind, 0
  {
    match kind
    case Bytes(_) => v.Raw?
    case Sub(desc) => v.Msg? && StoredMsg(desc, v.slots)
    case _ => ValidVal(kind, v)
  }

  /** So may item counts; items beyond the storage are never looked at. */
  predicate StoredSlot(f: Field, s: Slot)
    decreases f, 0
  {
    match f.rule
    case Required => s.One? && StoredVal(f.kind, s.v)
    case Singular => s.One? && StoredVal(f.kind, s.v)
    case Optional => s.Maybe? && (s.o.Some? ==> StoredVal(f.kind, s.o.value))
    case OneOf(_) => s.Maybe? && (s.o.Some? ==> StoredVal(f.kind, s.o.value))
    case Repeated(max) =>
      s.Many? && (|s.vs| <= max ==> forall i :: 0 <= i < |s.vs| ==> StoredVal(f.kind, s.vs[i]))
  }

  predicate StoredMsg(desc: Desc, slots: seq<Slot>)
    decreases desc, 0
  {
    && |slots| == |desc.fields|
    && (forall i :: 0 <= i < |slots| ==> StoredSlot(desc.fields[i], slots[i]))
    && OneOfEach(desc, slots)
  }

  // ----- The encoder -----

  /** Whether a proto3 field counts as absent. */
  predicate IsZero(kind: LType, v: Val)
    decreases kind, 0
  {
    match kind
    case Bytes(_) => v == Raw([])
    case String(_) => v == Raw([])
    case FixedBytes(length) => length == 0
    case Sub(desc) =>
      v.Msg? && |v.slots| == |desc.fields| && forall i :: 0 <= i < |v.slots| ==> IsZeroSlot(desc.fields[i], v.slots[i])
    case _ => v == Num(0)
  }

  predicate IsZeroSlot(f: Field, s: Slot)
    decreases f, 0
  {
    match f.rule
    case Required => false
    case Singular => s.One? && IsZero(f.kind, s.v)
    case Optional => s == Maybe(None)
    case OneOf(_) => s == Maybe(None)
    case Repeated(_) => s == Many([])
  }

  function Tag(f: Field, wire: nat): seq<Byte>
  {
    Varint(8 * f.tag + wire)
  }

  function Prefixed(b: seq<Byte>): seq<Byte> {
    Varint(|b|) + b
  }

  /** A value as its own kind encodes it, without a tag. */
  function EncodeVal(kind: LType, v: Val): seq<Byte>
    requires ValidVal(kind, v)
    decreases kind, 0
  {
    match kind
    case Bool => Varint(v.n)
    case Int(_) => Varint(v.n % MAX_64)
    case UInt(_) => Varint(v.n)
    case SInt(_) => Varint(ZigZag(v.n))
    case Fixed32 => Fixed(4, v.n)
    case Fixed64 => Fixed(8, v.n)
    case Bytes(_) => Prefixed(v.b)
    case String(_) => Prefixed(v.b)
    case FixedBytes(_) => Prefixed(v.b)
    case Sub(desc) => Prefixed(EncodeFrom(desc, v.slots, 0))
  }

  function EncodePacked(kind: LType, vs: seq<Val>): seq<Byte>
    requires forall i :: 0 <= i < |vs| ==> ValidVal(kind, vs[i])
    decreases kind, 1, |vs|
  {
    if vs == [] then [] else EncodeVal(kind, vs[0]) + EncodePacked(kind, vs[1..])
  }

  function EncodeEach(f: Field, vs: seq<Val>): seq<Byte>
    requires forall i :: 0 <= i < |vs| ==> ValidVal(f.kind, vs[i])
    decreases f, 0, |vs|
  {
    if vs == [] then [] else Tag(f, WireType(f.kind)) + EncodeVal(f.kind, vs[0]) + EncodeEach(f, vs[1..])
  }

  function EncodeSlot(f: Field, s: Slot): seq<Byte>
    requires ValidSlot(f, s)
    decreases f, 1
  {
    match f.rule
    case Required => Tag(f, WireType(f.kind)) + EncodeVal(f.kind, s.v)
    case Singular => if IsZero(f.kind, s.v) then [] else Tag(f, WireType(f.kind)) + EncodeVal(f.kind, s.v)
    case Repeated(_) =>
      if s.vs == [] then []
      else if Packable(f.kind) then Tag(f, WT_STRING) + Prefixed(EncodePacked(f.kind, s.vs))
      else EncodeEach(f, s.vs)
    case _ => if s.o.Some? then Tag(f, WireType(f.kind)) + EncodeVal(f.kind, s.o.value) else []
  }

  /** The fields from the i-th on, in descriptor order. */
  function EncodeFrom(desc: Desc, slots: seq<Slot>, i: nat): seq<Byte>
    requires ValidMsg(desc, slots) && i <= |slots|
    decreases desc, 0, |slots| - i
  {
    if i == |slots| then [] else EncodeSlot(desc.fields[i], slots[i]) + EncodeFrom(desc, slots, i + 1)
  }

  function Encode(desc: Desc, slots: seq<Slot>): seq<Byte>
    requires ValidMsg(desc, slots)
  {
    EncodeFrom(desc, slots, 0)
  }

  // ----- The decoder -----

  /** A length and a substream of that length: what follows the length, and where the parent goes on. */
  function Substream(b: seq<Byte>): (r: Option<Decoded<seq<Byte>>>)
    ensures r.Some? ==> 0 < r.value.used <= |b| && |r.value.value| < r.value.used
  {
    match Decode32(b)
    case None => None
    case Some(d) =>
      if d.used + d.value <= |b| then Some(Decoded(b[d.used..d.used + d.value], d.used + d.value)) else None
  }

  function InRange(n: int, size: nat, used: nat): Option<Decoded<Val>> {
    if -Half(size) <= n < Half(size) then Some(Decoded(Num(n), used)) else None
  }

  /** Decodes one value over what its storage held before; only submessages look at that. */
  function DecodeVal(kind: LType, b: seq<Byte>, was: Val): (r: Option<Decoded<Val>>)
    ensures r.Some? ==> r.value.used <= |b| && (Packable(kind) ==> 0 < r.value.used)
    decreases kind, 0
  {
    match kind
    case Bool =>
      (match Decode32(b)
       case None => None
       case Some(d) => Some(Decoded(Num(if d.value != 0 then 1 else 0), d.used)))
    case Int(size) =>
      (match Decode64(b)
       case None => None
       case Some(d) =>
         InRange(if size == 8 then ToSigned(d.value, MAX_64) else ToSigned(d.value % MAX_32, MAX_32), size, d.used))
    case UInt(size) =>
      (match Decode64(b)
       case None => None
       case Some(d) => if d.value < 2 * Half(size) then Some(Decoded(Num(d.value), d.used)) else None)
    case SInt(size) =>
      (match Decode64(b)
       case None => None
       case Some(d) => InRange(ZagZig(d.value), size, d.used))
    case Fixed32 => if |b| < 4 then None else Some(Decoded(Num(DecodeFixed(b[..4])), 4))
    case Fixed64 => if |b| < 8 then None else Some(Decoded(Num(DecodeFixed(b[..8])), 8))
    case Bytes(max) =>
      (match Decode32(b)
       case None => None
       case Some(d) =>
         if d.value > PB_SIZE_MAX || d.value > max || d.used + d.value > |b| then None
         else Some(Decoded(Raw(b[d.used..d.used + d.value]), d.used + d.value)))
    case String(max) =>
      (match Decode32(b)
       case None => None
       case Some(d) =>
         if d.value > max || d.used + d.value > |b| then None
         else Some(Decoded(Raw(b[d.used..d.used + d.value]), d.used + d.value)))
    case FixedBytes(length) =>
      (match Decode32(b)
       case None => None
       case Some(d) =>
         if d.value == 0 then Some(Decoded(Raw(seq(length, _ => 0)), d.used))
         else if d.value > PB_SIZE_MAX || d.value != length || d.used + length > |b| then None
         else Some(Decoded(Raw(b[d.used..d.used + length]), d.used + length)))
    case Sub(desc) =>
      (match Substream(b)
       case None => None
       case Some(sub) =>
         if !was.Msg? || |was.slots| != |desc.fields| then None
         else match DecodeMsg(desc, sub.value, was.slots, {})
              case None => None
              case Some(slots) => Some(Decoded(Msg(slots), sub.used)))
  }

  /** A packed array; bytes left when the array is full are an error. */
  function DecodePacked(kind: LType, b: seq<Byte>, vs: seq<Val>, max: nat): Option<seq<Val>>
    requires Packable(kind)
    decreases kind, 1, |b|
  {
    if b == [] then Some(vs)
    else if |vs| >= max then None
    else match DecodeVal(kind, b, Default(kind))
         case None => None
         case Some(d) => DecodePacked(kind, b[d.used..], vs + [d.value], max)
  }

  /** What a slot's storage holds for the decoder to write over. */
  function Storage(f: Field, s: Slot): Val {
    if s.One? then s.v else if s.Maybe? && s.o.Some? && f.rule.Optional? then s.o.value else Default(f.kind)
  }

  /** Setting one member of a union unsets the others. */
  function SetUnion(desc: Desc, slots: seq<Slot>, i: nat, v: Val): (r: seq<Slot>)
    requires |slots| == |desc.fields| && i < |slots|
    ensures |r| == |slots|
  {
    seq(|slots|, j requires 0 <= j < |slots| =>
      if j == i then Maybe(Some(v))
      else if desc.fields[j].rule == desc.fields[i].rule then Maybe(None) else slots[j])
  }

  /** Decodes field i from the bytes after its tag; the wire type matters to repeated fields only. */
  function DecodeField(desc: Desc, i: nat, wire: nat, b: seq<Byte>, slots: seq<Slot>): (r: Option<Decoded<seq<Slot>>>)
    requires |slots| == |desc.fields| && i < |slots|
    ensures r.Some? ==> r.value.used <= |b| && |r.value.value| == |slots|
    decreases desc, 0, 0
  {
    var f := desc.fields[i];
    if f.rule.Repeated? && wire == WT_STRING && Packable(f.kind) then
      match Substream(b)
      case None => None
      case Some(sub) =>
        match DecodePacked(f.kind, sub.value, if slots[i].Many? then slots[i].vs else [], f.rule.max)
        case None => None
        case Some(vs) => Some(Decoded(slots[i := Many(vs)], sub.used))
    else
      var had := if slots[i].Many? then slots[i].vs else [];
      if f.rule.Repeated? && |had| >= f.rule.max then None
      else match DecodeVal(f.kind, b, Storage(f, slots[i]))
           case None => None
           case Some(d) =>
             Some(Decoded(match f.rule
                          case Required => slots[i := One(d.value)]
                          case Singular => slots[i := One(d.value)]
                          case Optional => slots[i := Maybe(Some(d.value))]
                          case OneOf(_) => SetUnion(desc, slots, i, d.value)
                          case Repeated(_) => slots[i := Many(had + [d.value])], d.used))
  }

  function FindField(desc: Desc, tag: nat, i: nat): (r: Option<nat>)
    requires i <= |desc.fields|
    ensures r.Some? ==> i <= r.value < |desc.fields| && desc.fields[r.value].tag == tag
    ensures r.None? ==> forall j :: i <= j < |desc.fields| ==> desc.fields[j].tag != tag
    decreases |desc.fields| - i
  {
    if i == |desc.fields| then None else if desc.fields[i].tag == tag then Some(i) else FindField(desc, tag, i + 1)
  }

  function SkipVarint(b: seq<Byte>): (r: Option<nat>)
    ensures r.Some? ==> r.value <= |b|
  {
    if b == [] then None
    else if b[0] < 128 then Some(1)
    else match SkipVarint(b[1..]) case None => None case Some(n) => Some(n + 1)
  }

  function SkipField(wire: nat, b: seq<Byte>): (r: Option<nat>)
    ensures r.Some? ==> r.value <= |b|
  {
    if wire == WT_VARINT then SkipVarint(b)
    else if wire == WT_64BIT then if |b| < 8 then None else Some(8)
    else if wire == WT_STRING then (match Substream(b) case None => None case Some(sub) => Some(sub.used))
    else if wire == WT_32BIT then if |b| < 4 then None else Some(4)
    else None
  }

  /** How many required fields precede the i-th field. */
  function RequiredIndex(desc: Desc, i: nat): nat
    requires i <= |desc.fields|
  {
    if i == 0 then 0 else RequiredIndex(desc, i - 1) + if desc.fields[i - 1].rule.Required? then 1 else 0
  }

  predicate Tracked(desc: Desc, i: nat)
    requires i < |desc.fields|
  {
    desc.fields[i].rule.Required? && RequiredIndex(desc, i) < MAX_REQUIRED_FIELDS
  }

  /** Of the required fields only the first 64 are checked for. */
  predicate AllSeen(desc: Desc, seen: set<nat>) {
    forall i :: 0 <= i < |desc.fields| && Tracked(desc, i) ==> i in seen
  }

  /** The decoder's main loop over the bytes of one message. */
  function DecodeMsg(desc: Desc, b: seq<Byte>, slots: seq<Slot>, seen: set<nat>): (r: Option<seq<Slot>>)
    requires |slots| == |desc.fields|
    ensures r.Some? ==> |r.value| == |slots|
    decreases desc, 1, |b|
  {
    if b == [] then Finish(desc, slots, seen)
    else match Decode32(b)
         case None => None
         case Some(t) =>
           if t.value == 0 then Finish(desc, slots, seen)
           else match FindField(desc, t.value / 8, 0)
                case None =>
                  (match SkipField(t.value % 8, b[t.used..])
                   case None => None
                   case Some(n) => DecodeMsg(desc, b[t.used + n..], slots, seen))
                case Some(i) =>
                  match DecodeField(desc, i, t.value % 8, b[t.used..], slots)
                  case None => None
                  case Some(d) => DecodeMsg(desc, b[t.used + d.used..], d.value,
                                            seen + if Tracked(desc, i) then {i} else {})
  }

  function Finish(desc: Desc, slots: seq<Slot>, seen: set<nat>): (r: Option<seq<Slot>>)
    ensures r.Some? ==> r.value == slots
  {
    if AllSeen(desc, seen) then Some(slots) else None
  }

  /** `pb_decode`: defaults first, then the loop. */
  function Decode(desc: Desc, b: seq<Byte>): Option<seq<Slot>> {
    DecodeMsg(desc, b, Defaults(desc), {})
  }
}
