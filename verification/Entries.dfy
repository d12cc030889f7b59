/** The multi-version data model shared by the storage-engine modules: entries, the order in which
    every memtable and table keeps them, and what reading a user key at a sequence number means. */
module Entries {

  type Byte = b: int | 0 <= b < 256
  type Key = seq<Byte>
  type Value = seq<Byte>

  /** The user-supplied comparator, as the strict order it induces. */
  type Order = (Key, Key) -> bool

  datatype Option<+T> = None | Some(value: T)

  datatype Kind = Deletion | Put

  datatype Entry = Entry(key: Key, seqno: nat, kind: Kind, value: Value)

  /** Sequence numbers occupy 56 bits of a packed 64-bit tag. */
  const MAX_SEQUENCE_NUMBER: nat := 0xFF_FFFF_FFFF_FFFF

  const NUM_LEVELS := 7

  ghost predicate TotalOrder(lt: Order) {
    && (forall a :: !lt(a, a))
    && (forall a, b, c :: lt(a, b) && lt(b, c) ==> lt(a, c))
    && (forall a, b :: a == b || lt(a, b) || lt(b, a))
  }

  predicate AtMost(lt: Order, a: Key, b: Key) {
    a == b || lt(a, b)
  }

  /** Increasing user key, then decreasing sequence number, then decreasing type. */
  predicate Before(lt: Order, a: Entry, b: Entry) {
    || lt(a.key, b.key)
    || (a.key == b.key && (a.seqno > b.seqno || (a.seqno == b.seqno && a.kind == Put && b.kind == Deletion)))
  }

  ghost predicate Sorted(lt: Order, es: seq<Entry>) {
    forall i, j {:trigger Before(lt, es[i], es[j])} :: 0 <= i < j < |es| ==> Before(lt, es[i], es[j])
  }

  /** No two versions of one user key carry the same sequence number. */
  ghost predicate DistinctVersions(es: set<Entry>) {
    forall a, b :: a in es && b in es && a.key == b.key && a.seqno == b.seqno ==> a == b
  }

  ghost predicate IsNewest(es: set<Entry>, k: Key, s: nat, e: Entry) {
    && e in es && e.key == k && e.seqno <= s
    && forall f :: f in es && f.key == k && f.seqno <= s ==> f.seqno <= e.seqno
  }

  ghost predicate HasVersion(es: set<Entry>, k: Key, s: nat) {
    exists e :: e in es && e.key == k && e.seqno <= s
  }

  /** The value a read of `k` at sequence number `s` must return: that of the newest version at or
      below `s`, or nothing when there is none or it is a deletion marker. */
  ghost function Read(es: set<Entry>, k: Key, s: nat): Option<Value> {
    if HasVersion(es, k, s) then
      NewestExists(es, k, s);
      var e :| IsNewest(es, k, s, e);
      Outcome(e)
    else
      None
  }

  function Outcome(e: Entry): Option<Value> {
    if e.kind == Put then Some(e.value) else None
  }

  lemma {:induction false} NewestExists(es: set<Entry>, k: Key, s: nat)
    requires HasVersion(es, k, s)
    ensures exists e :: IsNewest(es, k, s, e)
    decreases es
  {
    var c :| c in es && c.key == k && c.seqno <= s;
    var rest := es - {c};
    if HasVersion(rest, k, s) {
      NewestExists(rest, k, s);
      var n :| IsNewest(rest, k, s, n);
      assert IsNewest(es, k, s, if n.seqno < c.seqno then c else n);
    } else {
      assert IsNewest(es, k, s, c);
    }
  }

  /** A newest version decides the read. */
  lemma ReadIs(es: set<Entry>, k: Key, s: nat, e: Entry)
    requires DistinctVersions(es) && IsNewest(es, k, s, e)
    ensures Read(es, k, s) == Outcome(e)
  {
    assert HasVersion(es, k, s);
    NewestExists(es, k, s);
    var n :| IsNewest(es, k, s, n) && Read(es, k, s) == Outcome(n);
  }

  /** Two sets with the same newest version, or with none, read alike. */
  lemma ReadsAgree(es: set<Entry>, fs: set<Entry>, k: Key, s: nat)
    requires DistinctVersions(es) && DistinctVersions(fs)
    requires forall e :: IsNewest(es, k, s, e) ==> IsNewest(fs, k, s, e)
    requires HasVersion(fs, k, s) ==> HasVersion(es, k, s)
    ensures Read(es, k, s) == Read(fs, k, s)
  {
    if HasVersion(es, k, s) {
      NewestExists(es, k, s);
      var n :| IsNewest(es, k, s, n);
      ReadIs(es, k, s, n);
      ReadIs(fs, k, s, n);
    }
  }

  ghost function Elements(es: seq<Entry>): set<Entry> {
    set e | e in es
  }

  /** Inserting a version where the search for it ends keeps the order. */
  lemma InsertSorted(lt: Order, es: seq<Entry>, e: Entry, n: nat)
    requires TotalOrder(lt) && Sorted(lt, es) && n <= |es|
    requires forall f :: f in es && f.key == e.key ==> f.seqno != e.seqno
    requires forall i :: 0 <= i < n ==> Before(lt, es[i], e)
    requires n < |es| ==> !Before(lt, es[n], e)
    ensures Sorted(lt, es[..n] + [e] + es[n..])
  {
    var fs := es[..n] + [e] + es[n..];
    forall j | n <= j < |es| ensures Before(lt, e, es[j]) {
      assert es[n] in es;
      if n < j {
        assert Before(lt, es[n], es[j]);
      }
    }
    forall i, j | 0 <= i < j < |fs| ensures Before(lt, fs[i], fs[j]) {
      var i', j' := if i <= n then i else i - 1, if j <= n then j else j - 1;
      if i' < j' < |es| {
        assert Before(lt, es[i'], es[j']);
      }
    }
  }
}
