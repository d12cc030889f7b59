/** Write batches: the bytes of a log record, and the entries they stand for. */
module WriteBatch {
  import opened Entries
  import opened Coding
  import opened MemTable

  const HEADER := 12

  datatype Op = PutOp(key: Key, value: Value) | DeleteOp(key: Key)

  function EncodeOp(op: Op): (b: seq<Byte>)
    ensures |b| > 0
  {
    match op
    case PutOp(key, value) => [1] + LengthPrefixed(key) + LengthPrefixed(value)
    case DeleteOp(key) => [0] + LengthPrefixed(key)
  }

  function EncodeOps(ops: seq<Op>): seq<Byte> {
    if ops == [] then [] else EncodeOp(ops[0]) + EncodeOps(ops[1..])
  }

  function Contents(sequence: nat, ops: seq<Op>): seq<Byte> {
    Fixed(8, sequence) + Fixed(4, |ops|) + EncodeOps(ops)
  }

  /** Lengths that fit their 32-bit prefixes. */
  predicate Small(op: Op) {
    |op.key| < 0x1_0000_0000 && (op.PutOp? ==> |op.value| < 0x1_0000_0000)
  }

  ghost predicate ValidOps(ops: seq<Op>) {
    |ops| < 0x8000_0000 && AllSmall(ops)
  }

  ghost predicate AllSmall(ops: seq<Op>) {
    forall op :: op in ops ==> Small(op)
  }

  function EntryOf(sequence: nat, op: Op): Entry {
    match op
    case PutOp(key, value) => Entry(key, sequence, Put, value)
    case DeleteOp(key) => Entry(key, sequence, Deletion, [])
  }

  /** The entries of a batch: consecutive sequence numbers in the order of its operations. */
  function Numbered(sequence: nat, ops: seq<Op>): (es: seq<Entry>)
    ensures |es| == |ops|
    decreases ops
  {
    if ops == [] then [] else [EntryOf(sequence, ops[0])] + Numbered(sequence + 1, ops[1..])
  }

  lemma {:induction false} NumberedConsecutive(sequence: nat, ops: seq<Op>)
    ensures forall i :: 0 <= i < |ops| ==> Numbered(sequence, ops)[i] == EntryOf(sequence + i, ops[i])
    decreases ops
  {
    if ops != [] {
      NumberedConsecutive(sequence + 1, ops[1..]);
      forall i | 0 <= i < |ops| ensures Numbered(sequence, ops)[i] == EntryOf(sequence + i, ops[i]) {
        if i > 0 {
          assert Numbered(sequence, ops)[i] == Numbered(sequence + 1, ops[1..])[i - 1];
        }
      }
    }
  }

  // ----- Reading arbitrary bytes -----

  /** Where the varint at the front of some bytes ends, if it does so within five bytes. */
  function VarintEnd(b: seq<Byte>, n: nat): (r: Option<nat>)
    requires n <= |b| && n <= 5 && forall i :: 0 <= i < n ==> b[i] >= 128
    ensures r.Some? ==> EndsAt(b, r.value) && n < r.value <= 5
    ensures r.None? ==> forall m :: n < m <= 5 ==> !EndsAt(b, m)
    decreases 5 - n
  {
    if n == 5 || n == |b| then None
    else if b[n] < 128 then Some(n + 1)
    else VarintEnd(b, n + 1)
  }

  /** A length and that many bytes, taken off the front: what was taken and how much it used. */
  function TakeSlice(b: seq<Byte>): (r: Option<(seq<Byte>, nat)>)
    ensures r.Some? ==> 0 < r.value.1 <= |b|
  {
    match VarintEnd(b, 0)
    case None => None
    case Some(n) =>
      var length := Bits(b, n) % 0x1_0000_0000;
      if n + length <= |b| then Some((b[n..n + length], n + length)) else None
  }

  lemma TakeSliceRoundTrip(s: seq<Byte>, rest: seq<Byte>)
    requires |s| < 0x1_0000_0000
    ensures TakeSlice(LengthPrefixed(s) + rest) == Some((s, |LengthPrefixed(s)|))
  {
    hide Varint, Bits, EndsAt;
    var b := LengthPrefixed(s) + rest;
    assert b == Varint(|s|) + (s + rest);
    VarintRoundTrip(|s|, s + rest);
    ShortVarint(|s|);
    VarintEndIs(b, |Varint(|s|)|);
    MiddleSlice(Varint(|s|), s, rest);
  }

  lemma VarintEndIs(b: seq<Byte>, n: nat)
    requires EndsAt(b, n) && n <= 5
    ensures VarintEnd(b, 0) == Some(n)
  {
  }

  lemma MiddleSlice(a: seq<Byte>, s: seq<Byte>, rest: seq<Byte>)
    ensures (a + (s + rest))[|a|..|a| + |s|] == s
  {
  }

  datatype Taken = Taken(op: Op, used: nat)

  /** The operation at the front of some bytes, or `None` for an unknown tag or a bad slice. */
  function TakeOp(b: seq<Byte>): (r: Option<Taken>)
    requires b != []
    ensures r.Some? ==> 0 < r.value.used <= |b|
  {
    var key := TakeSlice(b[1..]);
    if b[0] == 1 && key.Some? then
      match TakeSlice(b[1 + key.value.1..])
      case Some(value) => Some(Taken(PutOp(key.value.0, value.0), 1 + key.value.1 + value.1))
      case None => None
    else if b[0] == 0 && key.Some? then Some(Taken(DeleteOp(key.value.0), 1 + key.value.1))
    else None
  }

  datatype Parsed = Parsed(ops: seq<Op>, ok: bool)

  /** The operations up to the end or the first malformed one, and whether the end was reached. */
  function ParseOps(b: seq<Byte>): Parsed {
    if b == [] then Parsed([], true)
    else match TakeOp(b)
         case None => Parsed([], false)
         case Some(t) => var rest := ParseOps(b[t.used..]); Parsed([t.op] + rest.ops, rest.ok)
  }

  lemma TakePut(key: Key, value: Value, rest: seq<Byte>)
    requires Small(PutOp(key, value))
    ensures var a, c := LengthPrefixed(key), LengthPrefixed(value);
            TakeOp([1] + (a + (c + rest))) == Some(Taken(PutOp(key, value), 1 + |a| + |c|))
  {
    hide TakeSlice, LengthPrefixed;
    var a, c := LengthPrefixed(key), LengthPrefixed(value);
    var b := [1] + (a + (c + rest));
    TakeSliceRoundTrip(key, c + rest);
    TakeSliceRoundTrip(value, rest);
    assert b[1..] == a + (c + rest);
    assert b[1 + |a|..] == c + rest;
  }

  lemma TakeOpRoundTrip(op: Op, rest: seq<Byte>)
    requires Small(op)
    ensures TakeOp(EncodeOp(op) + rest) == Some(Taken(op, |EncodeOp(op)|))
  {
    hide TakeSlice, LengthPrefixed;
    match op
    case PutOp(key, value) =>
      TakePut(key, value, rest);
      assert EncodeOp(op) + rest == [1] + (LengthPrefixed(key) + (LengthPrefixed(value) + rest));
    case DeleteOp(key) =>
      TakeSliceRoundTrip(key, rest);
      assert (EncodeOp(op) + rest)[1..] == LengthPrefixed(key) + rest;
  }

  /** Parsing gives back what was encoded. */
  lemma {:induction false} ParseOpsRoundTrip(ops: seq<Op>)
    requires forall op :: op in ops ==> Small(op)
    ensures ParseOps(EncodeOps(ops)) == Parsed(ops, true)
  {
    hide TakeOp, EncodeOp;
    if ops != [] {
      TakeOpRoundTrip(ops[0], EncodeOps(ops[1..]));
      ParseOpsRoundTrip(ops[1..]);
      assert EncodeOps(ops)[|EncodeOp(ops[0])|..] == EncodeOps(ops[1..]);
    }
  }

  lemma {:induction false} ParsedAreSmall(b: seq<Byte>)
    ensures AllSmall(ParseOps(b).ops)
    decreases |b|
  {
    hide TakeOp, Small;
    if b != [] && TakeOp(b).Some? {
      TakenIsSmall(b);
      ParsedAreSmall(b[TakeOp(b).value.used..]);
    }
  }

  lemma TakenIsSmall(b: seq<Byte>)
    requires b != [] && TakeOp(b).Some?
    ensures Small(TakeOp(b).value.op)
  {
    hide VarintEnd, Bits;
  }

  /** Keys and values of 4 GiB and more do not survive: their lengths are cut to 32 bits. Parsing gives
      back what was encoded exactly when every length fits. */
  lemma ParseOpsRoundTripIff(ops: seq<Op>)
    ensures ParseOps(EncodeOps(ops)) == Parsed(ops, true) <==> AllSmall(ops)
  {
    hide ParseOps, EncodeOps, Small;
    if AllSmall(ops) {
      ParseOpsRoundTrip(ops);
    }
    ParsedAreSmall(EncodeOps(ops));
  }

  lemma {:induction false} EncodeOpsConcat(a: seq<Op>, b: seq<Op>)
    ensures EncodeOps(a + b) == EncodeOps(a) + EncodeOps(b)
  {
    if a == [] {
      assert a + b == b;
    } else {
      assert (a + b)[1..] == a[1..] + b;
      EncodeOpsConcat(a[1..], b);
    }
  }

  /** The header fields of a record. */
  function SequenceOf(rep: seq<Byte>): nat
    requires |rep| >= HEADER
  {
    DecodeFixed(rep[..8])
  }

  /** The count is read into a signed 32-bit integer. */
  function CountOf(rep: seq<Byte>): int
    requires |rep| >= HEADER
  {
    Signed(DecodeFixed(rep[8..12]))
  }

  function Signed(v: nat): int {
    if v < 0x8000_0000 then v else v - 0x1_0000_0000
  }

  lemma HeaderRoundTrip(sequence: nat, ops: seq<Op>)
    requires sequence <= MAX_SEQUENCE_NUMBER && |ops| < 0x8000_0000
    ensures SequenceOf(Contents(sequence, ops)) == sequence && CountOf(Contents(sequence, ops)) == |ops|
    ensures Contents(sequence, ops)[HEADER..] == EncodeOps(ops)
  {
    var rep := Contents(sequence, ops);
    assert rep[..8] == Fixed(8, sequence) && rep[8..12] == Fixed(4, |ops|);
    assert Pow(256, 4) == 0x1_0000_0000;
    assert Pow(256, 8) == 0x1_0000_0000_0000_0000;
    FixedRoundTrip(8, sequence);
    FixedRoundTrip(4, |ops|);
  }

  lemma ContentsLength(sequence: nat, ops: seq<Op>)
    ensures |Contents(sequence, ops)| >= HEADER
  {
  }

  /** What applying a record adds to a memtable, and whether the record was well formed. */
  datatype Applied = Applied(ok: bool, entries: seq<Entry>)

  function Apply(rep: seq<Byte>): Applied {
    if |rep| < HEADER then Applied(false, [])
    else
      var parsed := ParseOps(rep[HEADER..]);
      Applied(parsed.ok && |parsed.ops| == CountOf(rep), Numbered(SequenceOf(rep), parsed.ops))
  }

  /** Applying a batch's own bytes adds exactly its entries. */
  lemma ApplyContents(sequence: nat, ops: seq<Op>)
    requires ValidOps(ops) && sequence <= MAX_SEQUENCE_NUMBER
    ensures Apply(Contents(sequence, ops)) == Applied(true, Numbered(sequence, ops))
  {
    HeaderRoundTrip(sequence, ops);
    ParseOpsRoundTrip(ops);
  }

  // ----- The batch as an object -----

  method GetLengthPrefixedSlice(input: seq<Byte>) returns (ok: bool, s: seq<Byte>, rest: seq<Byte>)
    ensures ok == TakeSlice(input).Some?
    ensures ok ==> s == TakeSlice(input).value.0 && rest == input[TakeSlice(input).value.1..]
  {
    var found, length, q := GetVarint32Ptr(input, 0);
    assert input[0..] == input;
    s, rest := [], [];
    ok := found && q + length <= |input|;
    if found {
      EndUnique(input, q);
    }
    if ok {
      s, rest := input[q..q + length], input[q + length..];
    }
  }

  lemma EndUnique(b: seq<Byte>, n: nat)
    requires EndsAt(b, n) && n <= 5
    ensures VarintEnd(b, 0) == Some(n)
  {
  }

  class WriteBatch {
    var rep: seq<Byte>
    ghost var sequence: nat
    ghost var ops: seq<Op>

    constructor ()
      ensures Valid() && sequence == 0 && ops == []
    {
      rep, sequence, ops := Fixed(8, 0) + Fixed(4, 0), 0, [];
      new;
      assert rep == Contents(0, []);
    }

    ghost predicate Valid()
      reads this
    {
      |ops| < 0x8000_0000 && sequence <= MAX_SEQUENCE_NUMBER && rep == Contents(sequence, ops)
    }

    method Clear()
      modifies this
      ensures Valid() && sequence == 0 && ops == []
    {
      rep, sequence, ops := Fixed(8, 0) + Fixed(4, 0), 0, [];
      assert rep == Contents(0, []);
    }

    method Count() returns (n: nat)
      requires Valid()
      ensures n == |ops|
    {
      HeaderRoundTrip(sequence, ops);
      n := Signed(DecodeFixed(rep[8..12]));
    }

    method SetSequence(s: nat)
      requires Valid() && s <= MAX_SEQUENCE_NUMBER
      modifies this
      ensures Valid() && sequence == s && ops == old(ops)
    {
      hide EncodeOps, Fixed;
      rep := Fixed(8, s) + rep[8..];
      sequence := s;
    }

    method Put(key: Key, value: Value)
      requires Valid() && |ops| + 1 < 0x8000_0000
      modifies this
      ensures Valid() && sequence == old(sequence) && ops == old(ops) + [PutOp(key, value)]
    {
      AddOp([1] + LengthPrefixed(key) + LengthPrefixed(value), PutOp(key, value));
    }

    method Delete(key: Key)
      requires Valid() && |ops| + 1 < 0x8000_0000
      modifies this
      ensures Valid() && sequence == old(sequence) && ops == old(ops) + [DeleteOp(key)]
    {
      AddOp([0] + LengthPrefixed(key), DeleteOp(key));
    }

    method AddOp(bytes: seq<Byte>, ghost op: Op)
      requires Valid() && |ops| + 1 < 0x8000_0000 && bytes == EncodeOp(op)
      modifies this
      ensures Valid() && sequence == old(sequence) && ops == old(ops) + [op]
    {
      hide EncodeOps, Fixed;
      var n := Count();
      OpContents(sequence, ops, op);
      rep := rep[..8] + Fixed(4, n + 1) + rep[12..] + bytes;
      ops := ops + [op];
    }

    /** Appends another batch's operations; its sequence number does not matter. */
    method Append(source: WriteBatch)
      requires Valid() && source.Valid() && |ops| + |source.ops| < 0x8000_0000
      modifies this
      ensures Valid() && sequence == old(sequence) && ops == old(ops) + old(source.ops)
    {
      hide EncodeOps, Fixed;
      var n := Count();
      var m := source.Count();
      AppendContents(sequence, ops, source.sequence, source.ops);
      rep := rep[..8] + Fixed(4, n + m) + rep[12..] + source.rep[12..];
      ops := ops + source.ops;
    }
  }

  lemma OneOp(op: Op)
    ensures EncodeOps([op]) == EncodeOp(op)
  {
    assert [op][1..] == [];
  }

  lemma OpContents(sequence: nat, ops: seq<Op>, op: Op)
    requires sequence <= MAX_SEQUENCE_NUMBER && |ops| < 0x8000_0000
    ensures var rep := Contents(sequence, ops);
            rep[..8] + Fixed(4, |ops| + 1) + rep[12..] + EncodeOp(op) == Contents(sequence, ops + [op])
  {
    hide Fixed, EncodeOp, EncodeOps, DecodeFixed, SequenceOf, CountOf;
    HeaderRoundTrip(sequence, ops);
    EncodeOpsConcat(ops, [op]);
    OneOp(op);
    assert Contents(sequence, ops)[..8] == Fixed(8, sequence);
  }

  lemma AppendContents(sequence: nat, a: seq<Op>, other: nat, b: seq<Op>)
    requires sequence <= MAX_SEQUENCE_NUMBER && other <= MAX_SEQUENCE_NUMBER
    requires |a| < 0x8000_0000 && |b| < 0x8000_0000
    ensures var rep := Contents(sequence, a);
            rep[..8] + Fixed(4, |a| + |b|) + rep[12..] + Contents(other, b)[12..] == Contents(sequence, a + b)
  {
    hide EncodeOps, Fixed, DecodeFixed, SequenceOf, CountOf;
    HeaderRoundTrip(sequence, a);
    HeaderRoundTrip(other, b);
    EncodeOpsConcat(a, b);
    assert Contents(sequence, a)[..8] == Fixed(8, sequence);
  }

  /** One turn of Iterate: the operation at the front, or a reason to stop. */
  method ReadOp(input: seq<Byte>) returns (good: bool, kind: Kind, key: Key, value: Value, rest: seq<Byte>)
    requires input != []
    ensures good == TakeOp(input).Some?
    ensures good ==> rest == input[TakeOp(input).value.used..]
    ensures good ==> forall s :: Entry(key, s, kind, value) == EntryOf(s, TakeOp(input).value.op)
  {
    hide TakeSlice;
    kind, value := Entries.Deletion, [];
    good, key, rest := GetLengthPrefixedSlice(input[1..]);
    if input[0] == 1 {
      kind := Entries.Put;
      if good {
        assert rest == input[1 + TakeSlice(input[1..]).value.1..];
        good, value, rest := GetLengthPrefixedSlice(rest);
      }
    } else if input[0] != 0 {
      good := false;
    }
  }

  lemma ParseStep(b: seq<Byte>)
    ensures b == [] ==> ParseOps(b) == Parsed([], true)
    ensures b != [] && TakeOp(b).None? ==> ParseOps(b) == Parsed([], false)
    ensures b != [] && TakeOp(b).Some? ==>
              var t := TakeOp(b).value;
              ParseOps(b) == Parsed([t.op] + ParseOps(b[t.used..]).ops, ParseOps(b[t.used..]).ok)
  {
  }

  /** Adds the entries of the operations in some bytes, up to the first malformed one. */
  method Iterate(bytes: seq<Byte>, sequence: nat) returns (ok: bool, found: nat, added: seq<Entry>)
    ensures var all := ParseOps(bytes);
            ok == all.ok && found >= |all.ops| && (ok ==> found == |all.ops|) && added == Numbered(sequence, all.ops)
  {
    hide TakeOp, Numbered, ParseOps, EntryOf;
    added, found := [], 0;
    var input, next := bytes, sequence;
    ghost var ops: seq<Op> := [];
    NumberedNothing(sequence);
    while input != []
      invariant ParseOps(bytes).ops == ops + ParseOps(input).ops && ParseOps(bytes).ok == ParseOps(input).ok
      invariant found == |ops| && next == sequence + |ops| && added == Numbered(sequence, ops)
      decreases |input|
    {
      ParseStep(input);
      found := found + 1;
      ghost var taken := TakeOp(input);
      var good, kind, key, value, rest := ReadOp(input);
      if !good {
        assert ParseOps(bytes).ops == ops;
        return false, found, added;
      }
      added := added + [Entry(key, next, kind, value)];
      NumberedAppend(sequence, ops, taken.value.op);
      next := next + 1;
      input := rest;
      ops := ops + [taken.value.op];
    }
    ParseStep([]);
    assert ParseOps(bytes).ops == ops;
    ok := true;
  }

  /** Applies the bytes of a record, well formed or not: the entries added before the first
      malformed operation are added either way. */
  method InsertInto(rep: seq<Byte>) returns (ok: bool, added: seq<Entry>)
    ensures Applied(ok, added) == Apply(rep)
  {
    if |rep| < HEADER {
      return false, [];
    }
    var found;
    ok, found, added := Iterate(rep[HEADER..], DecodeFixed(rep[..8]));
    ok := ok && found == Signed(DecodeFixed(rep[8..12]));
  }

  lemma NumberedNothing(sequence: nat)
    ensures Numbered(sequence, []) == []
  {
  }

  lemma {:induction false} NumberedAppend(sequence: nat, ops: seq<Op>, op: Op)
    ensures Numbered(sequence, ops + [op]) == Numbered(sequence, ops) + [EntryOf(sequence + |ops|, op)]
    decreases ops
  {
    if ops == [] {
      assert [op][1..] == [];
    } else {
      assert (ops + [op])[1..] == ops[1..] + [op];
      NumberedAppend(sequence + 1, ops[1..], op);
    }
  }
}
