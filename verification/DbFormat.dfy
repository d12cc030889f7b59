/** Internal keys on bytes: a user key followed by a packed sequence number and type. */
module DbFormat {
  import opened Entries
  import opened Coding

  function PackSequenceAndType(seqno: nat, kind: Kind): nat {
    seqno * 256 + if kind == Put then 1 else 0
  }

  /** The type that sorts first among equal sequence numbers. */
  const VALUE_TYPE_FOR_SEEK := Put

  function InternalKey(key: Key, seqno: nat, kind: Kind): (b: seq<Byte>)
    ensures |b| == |key| + 8
  {
    key + Fixed(8, PackSequenceAndType(seqno, kind))
  }

  function ExtractUserKey(b: seq<Byte>): Key
    requires |b| >= 8
  {
    b[..|b| - 8]
  }

  function Tag(b: seq<Byte>): nat
    requires |b| >= 8
  {
    DecodeFixed(b[|b| - 8..])
  }

  datatype ParsedKey = ParsedKey(key: Key, seqno: nat, kind: Kind)

  /** Refuses keys that are too short or carry an unknown type. */
  function ParseInternalKey(b: seq<Byte>): Option<ParsedKey> {
    if |b| < 8 || Tag(b) % 256 > 1 then None
    else Some(ParsedKey(ExtractUserKey(b), Tag(b) / 256, if Tag(b) % 256 == 1 then Put else Deletion))
  }

  lemma TagRoundTrip(key: Key, seqno: nat, kind: Kind)
    requires seqno <= MAX_SEQUENCE_NUMBER
    ensures Tag(InternalKey(key, seqno, kind)) == PackSequenceAndType(seqno, kind)
    ensures Tag(InternalKey(key, seqno, kind)) % 256 == if kind == Put then 1 else 0
    ensures ExtractUserKey(InternalKey(key, seqno, kind)) == key
  {
    var tag := PackSequenceAndType(seqno, kind);
    assert InternalKey(key, seqno, kind)[|key|..] == Fixed(8, tag);
    assert Pow(256, 8) == 0x1_0000_0000_0000_0000 by { assert Pow(256, 4) == 0x1_0000_0000; }
    FixedRoundTrip(8, tag);
  }

  /** Parsing gives back what was packed, for every legal sequence number. */
  lemma ParseRoundTrip(key: Key, seqno: nat, kind: Kind)
    requires seqno <= MAX_SEQUENCE_NUMBER
    ensures ParseInternalKey(InternalKey(key, seqno, kind)) == Some(ParsedKey(key, seqno, kind))
  {
    TagRoundTrip(key, seqno, kind);
  }

  /** The internal comparator: user keys ascending, then packed tags descending. */
  function Compare(lt: Order, a: seq<Byte>, b: seq<Byte>): int
    requires |a| >= 8 && |b| >= 8
  {
    if lt(ExtractUserKey(a), ExtractUserKey(b)) then -1
    else if lt(ExtractUserKey(b), ExtractUserKey(a)) then 1
    else if Tag(a) > Tag(b) then -1
    else if Tag(a) < Tag(b) then 1
    else 0
  }

  /** Comparing the bytes is comparing the entries. */
  lemma CompareIsBefore(lt: Order, a: Entry, b: Entry)
    requires TotalOrder(lt)
    requires a.seqno <= MAX_SEQUENCE_NUMBER && b.seqno <= MAX_SEQUENCE_NUMBER
    ensures var c := Compare(lt, InternalKey(a.key, a.seqno, a.kind), InternalKey(b.key, b.seqno, b.kind));
      && (c < 0 <==> Before(lt, a, b))
      && (c > 0 <==> Before(lt, b, a))
      && (c == 0 <==> a.(value := b.value) == b)
  {
    TagRoundTrip(a.key, a.seqno, a.kind);
    TagRoundTrip(b.key, b.seqno, b.kind);
  }

  /** The default user order: unsigned bytes, a proper prefix first. */
  predicate BytewiseLess(a: Key, b: Key) {
    b != [] && (a == [] || a[0] < b[0] || (a[0] == b[0] && BytewiseLess(a[1..], b[1..])))
  }

  lemma {:induction false} BytewiseTransitive(a: Key, b: Key, c: Key)
    requires BytewiseLess(a, b) && BytewiseLess(b, c)
    ensures BytewiseLess(a, c)
  {
    if a != [] && a[0] == b[0] && b[0] == c[0] {
      BytewiseTransitive(a[1..], b[1..], c[1..]);
    }
  }

  lemma {:induction false} BytewiseTotal(a: Key, b: Key)
    ensures a == b || BytewiseLess(a, b) || BytewiseLess(b, a)
    ensures !BytewiseLess(a, a)
  {
    if a != [] {
      BytewiseTotal(a[1..], if b == [] then [] else b[1..]);
      if b != [] && a[0] == b[0] && a[1..] == b[1..] {
        assert a == [a[0]] + a[1..] && b == [b[0]] + b[1..];
      }
    }
  }

  /** The default comparator is a legal one. */
  lemma BytewiseIsTotalOrder()
    ensures TotalOrder(BytewiseLess)
  {
    forall a: Key ensures !BytewiseLess(a, a) {
      BytewiseTotal(a, a);
    }
    forall a: Key, b: Key ensures a == b || BytewiseLess(a, b) || BytewiseLess(b, a) {
      BytewiseTotal(a, b);
    }
    forall a: Key, b: Key, c: Key | BytewiseLess(a, b) && BytewiseLess(b, c) ensures BytewiseLess(a, c) {
      BytewiseTransitive(a, b, c);
    }
  }
}
