/** The memory table: entries encoded in byte buffers that a skip list keeps in order. */
module MemTable {
  import opened Entries
  import opened Coding
  import opened DbFormat

  /** What a lookup in one table can say. */
  datatype Lookup = Found(value: Value) | Deleted | Missing

  /** The length goes through 32 bits, whatever it is. */
  function LengthPrefixed(s: seq<Byte>): seq<Byte> {
    Varint(|s| % 0x1_0000_0000) + s
  }

  function EncodeEntry(e: Entry): seq<Byte> {
    LengthPrefixed(InternalKey(e.key, e.seqno, e.kind)) + LengthPrefixed(e.value)
  }

  /** Fits the 32-bit length prefixes and the 56-bit sequence number. */
  predicate Fits(e: Entry) {
    |e.key| + 8 < 0x1_0000_0000 && |e.value| < 0x1_0000_0000 && e.seqno <= MAX_SEQUENCE_NUMBER
  }

  lemma ShortVarint(v: nat)
    requires v < 0x1_0000_0000
    ensures |Varint(v)| <= 5
  {
    assert Pow(128, 5) > 0x1_0000_0000;
    VarintLength(v, 5);
  }

  lemma EndsOnce(b: seq<Byte>, m: nat, n: nat)
    requires EndsAt(b, m) && EndsAt(b, n)
    ensures m == n
  {
  }

  /** Reads the length-prefixed slice at position p of a well-formed buffer. */
  method GetLengthPrefixedSlice(b: seq<Byte>, p: nat, ghost s: seq<Byte>) returns (r: seq<Byte>, q: nat)
    requires p <= |b| && |s| < 0x1_0000_0000 && LengthPrefixed(s) <= b[p..]
    ensures r == s && q == p + |LengthPrefixed(s)| && q <= |b|
  {
    hide Varint, Bits, EndsAt, Pow;
    ghost var rest := b[p..][|Varint(|s|)|..];
    assert b[p..] == Varint(|s|) + rest;
    VarintRoundTrip(|s|, rest);
    ShortVarint(|s|);
    var ok, len, at := GetVarint32Ptr(b, p);
    if ok {
      EndsOnce(b[p..], at - p, |Varint(|s|)|);
    }
    assert b[at..] == rest && rest[..len] == s;
    r, q := b[at..at + len], at + len;
  }

  class MemTable {
    const lt: Order
    var table: seq<seq<Byte>>
    ghost var entries: seq<Entry>

    constructor (lt: Order)
      requires TotalOrder(lt)
      ensures Valid() && entries == [] && this.lt == lt
    {
      this.lt, table, entries := lt, [], [];
    }

    ghost predicate Valid()
      reads this
    {
      && TotalOrder(lt) && Sorted(lt, entries) && DistinctVersions(Elements(entries))
      && |table| == |entries|
      && forall i :: 0 <= i < |entries| ==> table[i] == EncodeEntry(entries[i]) && Fits(entries[i])
    }

    /** The skip list's search: the first buffer whose key is not before the target's. */
    method FindGreaterOrEqual(target: seq<Byte>, ghost t: Entry) returns (n: nat)
      requires Valid() && Fits(t) && LengthPrefixed(InternalKey(t.key, t.seqno, t.kind)) <= target
      ensures n <= |entries|
      ensures forall i :: 0 <= i < n ==> Before(lt, entries[i], t)
      ensures n < |entries| ==> !Before(lt, entries[n], t)
    {
      var wanted, _ := GetLengthPrefixedSlice(target, 0, InternalKey(t.key, t.seqno, t.kind));
      n := 0;
      while n < |table|
        invariant n <= |table|
        invariant forall i :: 0 <= i < n ==> Before(lt, entries[i], t)
      {
        ghost var e := entries[n];
        var key, _ := GetLengthPrefixedSlice(table[n], 0, InternalKey(e.key, e.seqno, e.kind));
        CompareIsBefore(lt, e, t);
        if Compare(lt, key, wanted) >= 0 {
          return;
        }
        n := n + 1;
      }
    }

    method Add(seqno: nat, kind: Kind, key: Key, value: Value)
      requires Valid() && Fits(Entry(key, seqno, kind, value))
      requires forall e :: e in entries && e.key == key ==> e.seqno != seqno
      modifies this
      ensures Valid()
      ensures Elements(entries) == old(Elements(entries)) + {Entry(key, seqno, kind, value)}
    {
      hide Varint, Fixed, Before, Sorted, DistinctVersions, Elements, TotalOrder, EncodeEntry;
      ghost var e := Entry(key, seqno, kind, value);
      var size := EncodeVarint32(|key| + 8);
      var vsize := EncodeVarint32(|value|);
      var buf := size + key + Fixed(8, PackSequenceAndType(seqno, kind)) + vsize + value;
      BufferIs(e, buf);
      var n := FindGreaterOrEqual(buf, e);
      InsertKeepsOrder(lt, entries, e, n);
      ghost var was, rows := entries, table;
      table := table[..n] + [buf] + table[n..];
      entries := was[..n] + [e] + was[n..];
      forall i | 0 <= i < |entries| ensures table[i] == EncodeEntry(entries[i]) && Fits(entries[i]) {
        if i != n {
          var j := if i < n then i else i - 1;
          assert table[i] == rows[j] && entries[i] == was[j];
        }
      }
    }

    static lemma BufferIs(e: Entry, buf: seq<Byte>)
      requires Fits(e)
      requires buf == Varint(|e.key| + 8) + e.key + Fixed(8, PackSequenceAndType(e.seqno, e.kind)) +
                      Varint(|e.value|) + e.value
      ensures buf == EncodeEntry(e) && LengthPrefixed(InternalKey(e.key, e.seqno, e.kind)) <= buf
    {
      hide Varint, Fixed;
      var k := LengthPrefixed(InternalKey(e.key, e.seqno, e.kind));
      assert k == Varint(|e.key| + 8) + e.key + Fixed(8, PackSequenceAndType(e.seqno, e.kind));
      assert buf == k + (Varint(|e.value|) + e.value);
    }

    static lemma InsertKeepsOrder(lt: Order, es: seq<Entry>, e: Entry, n: nat)
      requires TotalOrder(lt) && Sorted(lt, es) && DistinctVersions(Elements(es)) && n <= |es|
      requires forall f :: f in es && f.key == e.key ==> f.seqno != e.seqno
      requires forall i :: 0 <= i < n ==> Before(lt, es[i], e)
      requires n < |es| ==> !Before(lt, es[n], e)
      ensures var fs := es[..n] + [e] + es[n..];
        Sorted(lt, fs) && DistinctVersions(Elements(fs)) && Elements(fs) == Elements(es) + {e}
    {
      InsertSorted(lt, es, e, n);
      assert Elements(es[..n] + [e] + es[n..]) == Elements(es) + {e} by {
        assert es == es[..n] + es[n..];
      }
    }

    /** Looks up a user key at a sequence number. */
    method Get(key: Key, s: nat) returns (r: Lookup)
      requires Valid() && Fits(Entry(key, s, Put, []))
      ensures r.Missing? <==> !HasVersion(Elements(entries), key, s)
      ensures r.Found? ==> Read(Elements(entries), key, s) == Some(r.value)
      ensures r.Deleted? ==> Read(Elements(entries), key, s) == None
    {
      hide Fixed, DecodeFixed, Before, Sorted, DistinctVersions, PackSequenceAndType, Varint;
      ghost var t := Entry(key, s, VALUE_TYPE_FOR_SEEK, []);
      var size := EncodeVarint32(|key| + 8);
      var memkey := size + key + Fixed(8, PackSequenceAndType(s, VALUE_TYPE_FOR_SEEK));
      assert memkey == LengthPrefixed(InternalKey(key, s, Put));
      var n := FindGreaterOrEqual(memkey, t);
      SeekFindsNewest(lt, entries, t, n);
      if n < |table| {
        ghost var e := entries[n];
        var ikey, q := GetLengthPrefixedSlice(table[n], 0, InternalKey(e.key, e.seqno, e.kind));
        TagRoundTrip(e.key, e.seqno, e.kind);
        if ExtractUserKey(ikey) == key {
          if Tag(ikey) % 256 == 1 {
            assert table[n][q..] == LengthPrefixed(e.value);
            var v, _ := GetLengthPrefixedSlice(table[n], q, e.value);
            return Found(v);
          } else {
            return Deleted;
          }
        }
      }
      r := Missing;
    }

    /** The first entry at or after the lookup key is the newest visible version, when it has the key at all. */
    static lemma SeekFindsNewest(lt: Order, es: seq<Entry>, t: Entry, n: nat)
      requires TotalOrder(lt) && Sorted(lt, es) && DistinctVersions(Elements(es)) && n <= |es| && t.kind == Put
      requires forall i :: 0 <= i < n ==> Before(lt, es[i], t)
      requires n < |es| ==> !Before(lt, es[n], t)
      ensures n < |es| && es[n].key == t.key ==>
        IsNewest(Elements(es), t.key, t.seqno, es[n]) && Read(Elements(es), t.key, t.seqno) == Outcome(es[n])
      ensures n == |es| || es[n].key != t.key ==> !HasVersion(Elements(es), t.key, t.seqno)
    {
      forall f | f in Elements(es) && f.key == t.key && f.seqno <= t.seqno
        ensures n < |es| && es[n].key == t.key && f.seqno <= es[n].seqno
      {
        var j :| 0 <= j < |es| && es[j] == f;
        assert n <= j;
        if n < j {
          assert Before(lt, es[n], es[j]);
        }
      }
      if n < |es| && es[n].key == t.key {
        ReadIs(Elements(es), t.key, t.seqno, es[n]);
      }
    }
  }
}
