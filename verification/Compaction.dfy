/** The background compaction: which versions it throws away, and why no read can tell. */
module Compaction {
  import opened Entries

  /** What the input iterator yields: a well-formed entry, or a key whose tag does not parse. */
  datatype Item = Good(e: Entry) | Corrupt(raw: seq<Byte>)

  datatype FileRange = FileRange(smallest: Key, largest: Key)

  datatype Status = Ok | Failed

  // ----- The drop rule, stated by position -----

  /** `last_sequence_for_key` on reaching position i: the sequence number of the entry just before it
      when that entry has the same user key, and the maximum otherwise. */
  function PreviousSeqno(items: seq<Item>, i: nat): nat
    requires i < |items| && items[i].Good?
  {
    if i > 0 && items[i - 1].Good? && items[i - 1].e.key == items[i].e.key
    then items[i - 1].e.seqno
    else MAX_SEQUENCE_NUMBER
  }

  predicate Dropped(items: seq<Item>, snap: nat, base: Key -> bool, i: nat)
    requires i < |items|
  {
    items[i].Good? &&
    (|| PreviousSeqno(items, i) <= snap
     || (items[i].e.kind == Deletion && items[i].e.seqno <= snap && base(items[i].e.key)))
  }

  /** The surviving items among the first n, in order. */
  function KeptTo(items: seq<Item>, snap: nat, base: Key -> bool, n: nat): seq<Item>
    requires n <= |items|
  {
    if n == 0 then []
    else KeptTo(items, snap, base, n - 1) + (if Dropped(items, snap, base, n - 1) then [] else [items[n - 1]])
  }

  function Kept(items: seq<Item>, snap: nat, base: Key -> bool): seq<Item> {
    KeptTo(items, snap, base, |items|)
  }

  ghost function EntriesOf(items: seq<Item>): set<Entry> {
    set x | x in items && x.Good? :: x.e
  }

  /** The table order among versions whose sequence numbers differ. */
  predicate Precedes(lt: Order, a: Entry, b: Entry) {
    lt(a.key, b.key) || (a.key == b.key && a.seqno > b.seqno)
  }

  ghost predicate SortedItems(lt: Order, items: seq<Item>) {
    && (forall i, j :: 0 <= i < j < |items| && items[i].Good? && items[j].Good? ==>
                         Precedes(lt, items[i].e, items[j].e))
    && (forall i :: 0 <= i < |items| && items[i].Good? ==> items[i].e.seqno <= MAX_SEQUENCE_NUMBER)
  }

  // ----- What a compaction must not change -----

  /** The rest of the database: versions above the input are newer than the input's versions of the
      same key, and an input key at its base level has no version below. */
  ghost predicate Surroundings(items: seq<Item>, base: Key -> bool, upper: set<Entry>, deeper: set<Entry>) {
    && DistinctVersions(upper + EntriesOf(items) + deeper)
    && (forall u, e :: u in upper && e in EntriesOf(items) && u.key == e.key ==> u.seqno > e.seqno)
    && (forall d, e :: d in deeper && e in EntriesOf(items) && d.key == e.key ==> !base(d.key))
  }

  ghost predicate SameReads(items: seq<Item>, snap: nat, base: Key -> bool, upper: set<Entry>, deeper: set<Entry>,
                            k: Key, s: nat)
  {
    Read(upper + EntriesOf(items) + deeper, k, s) ==
    Read(upper + EntriesOf(Kept(items, snap, base)) + deeper, k, s)
  }

  /** Every read at or above the smallest snapshot is unchanged, whatever surrounds the input. */
  ghost predicate ReadsPreserved(items: seq<Item>, snap: nat, base: Key -> bool) {
    forall upper, deeper, k, s ::
      Surroundings(items, base, upper, deeper) && s >= snap ==> SameReads(items, snap, base, upper, deeper, k, s)
  }

  /** Position i holds the newest version of its key at or below the snapshot. */
  ghost predicate NewestAt(items: seq<Item>, snap: nat, i: nat) {
    && i < |items| && items[i].Good?
    && IsNewest(EntriesOf(items), items[i].e.key, snap, items[i].e)
  }

  /** A corrupt key that separates a deletion marker from an older value of the same user key makes
      the loop forget the marker: the marker is dropped and the value survives. */
  ghost predicate Resurrects(items: seq<Item>, snap: nat, base: Key -> bool) {
    exists i, j | 0 <= i < j < |items| :: ResurrectsAt(items, snap, base, i, j)
  }

  ghost predicate ResurrectsAt(items: seq<Item>, snap: nat, base: Key -> bool, i: nat, j: nat)
    requires i < j < |items|
  {
    && NewestAt(items, snap, i) && items[i].e.kind == Deletion && base(items[i].e.key)
    && items[j].Good? && items[j].e.key == items[i].e.key && items[j].e.kind == Put
    && items[j - 1].Corrupt?
  }

  // ----- Lemmas about the survivors -----

  lemma {:induction false} KeptMembers(items: seq<Item>, snap: nat, base: Key -> bool, n: nat)
    requires n <= |items|
    ensures forall x :: x in KeptTo(items, snap, base, n) <==>
                          exists i :: 0 <= i < n && items[i] == x && !Dropped(items, snap, base, i)
  {
    if n > 0 {
      KeptMembers(items, snap, base, n - 1);
      assert n - 1 < n && items[n - 1] == items[n - 1];
    }
  }

  lemma KeptEntries(items: seq<Item>, snap: nat, base: Key -> bool)
    ensures forall e :: e in EntriesOf(Kept(items, snap, base)) <==>
                          exists i :: 0 <= i < |items| && items[i] == Good(e) && !Dropped(items, snap, base, i)
  {
    KeptMembers(items, snap, base, |items|);
    forall e ensures e in EntriesOf(Kept(items, snap, base)) <==>
                       exists i :: 0 <= i < |items| && items[i] == Good(e) && !Dropped(items, snap, base, i)
    {
      assert e in EntriesOf(Kept(items, snap, base)) <==> Good(e) in Kept(items, snap, base);
    }
  }

  lemma EntryAt(items: seq<Item>, e: Entry) returns (i: nat)
    requires e in EntriesOf(items)
    ensures i < |items| && items[i] == Good(e)
  {
    i :| 0 <= i < |items| && items[i] == Good(e);
  }

  /** In sorted input, the item before an entry that is not a corrupt key has the same user key
      whenever any earlier entry does. */
  lemma RunsAreContiguous(lt: Order, items: seq<Item>, i: nat, j: nat)
    requires TotalOrder(lt) && SortedItems(lt, items)
    requires i < j < |items| && items[i].Good? && items[j].Good? && items[i].e.key == items[j].e.key
    ensures items[j - 1].Good? ==> items[j - 1].e.key == items[j].e.key && items[j - 1].e.seqno <= items[i].e.seqno
  {
    if items[j - 1].Good? && i < j - 1 {
      assert Precedes(lt, items[i].e, items[j - 1].e) && Precedes(lt, items[j - 1].e, items[j].e);
    }
  }

  /** The newest version at the snapshot is dropped only as a deletion marker at its base level. */
  lemma NewestSurvives(lt: Order, items: seq<Item>, snap: nat, base: Key -> bool, i: nat)
    requires TotalOrder(lt) && SortedItems(lt, items) && snap < MAX_SEQUENCE_NUMBER
    requires NewestAt(items, snap, i)
    ensures Dropped(items, snap, base, i) <==> items[i].e.kind == Deletion && base(items[i].e.key)
  {
    if i > 0 && items[i - 1].Good? && items[i - 1].e.key == items[i].e.key {
      assert Precedes(lt, items[i - 1].e, items[i].e);
      assert items[i - 1].e in EntriesOf(items);
      assert items[i - 1].e.seqno > snap;
    }
  }

  /** An entry above the snapshot is never dropped. */
  lemma RecentSurvives(lt: Order, items: seq<Item>, snap: nat, base: Key -> bool, i: nat)
    requires TotalOrder(lt) && SortedItems(lt, items) && snap < MAX_SEQUENCE_NUMBER
    requires i < |items| && items[i].Good? && items[i].e.seqno > snap
    ensures !Dropped(items, snap, base, i)
  {
    if i > 0 && items[i - 1].Good? && items[i - 1].e.key == items[i].e.key {
      assert Precedes(lt, items[i - 1].e, items[i].e);
    }
  }

  /** When nothing is resurrected, everything below a dropped newest marker is dropped with it. */
  lemma NothingBelowDroppedMarker(lt: Order, items: seq<Item>, snap: nat, base: Key -> bool, i: nat, j: nat)
    requires TotalOrder(lt) && SortedItems(lt, items)
    requires !Resurrects(items, snap, base)
    requires NewestAt(items, snap, i) && items[i].e.kind == Deletion && base(items[i].e.key)
    requires i < j < |items| && items[j].Good? && items[j].e.key == items[i].e.key
    ensures Dropped(items, snap, base, j)
  {
    RunsAreContiguous(lt, items, i, j);
    assert Precedes(lt, items[i].e, items[j].e);
    if items[j - 1].Corrupt? {
      assert !ResurrectsAt(items, snap, base, i, j);
    }
  }

  lemma OutputsAreInputs(items: seq<Item>, snap: nat, base: Key -> bool)
    ensures EntriesOf(Kept(items, snap, base)) <= EntriesOf(items)
  {
    KeptEntries(items, snap, base);
  }

  /** The newest version of the whole database stays the newest, unless it is an input marker that
      was dropped. */
  lemma NewestUnchanged(lt: Order, items: seq<Item>, snap: nat, base: Key -> bool, upper: set<Entry>,
                        deeper: set<Entry>, k: Key, s: nat, e: Entry)
    requires TotalOrder(lt) && SortedItems(lt, items) && snap < MAX_SEQUENCE_NUMBER && s >= snap
    requires Surroundings(items, base, upper, deeper)
    requires IsNewest(upper + EntriesOf(items) + deeper, k, s, e)
    ensures || IsNewest(upper + EntriesOf(Kept(items, snap, base)) + deeper, k, s, e)
            || (e.kind == Deletion && base(k) && e.seqno <= snap && e in EntriesOf(items)
                && exists i: nat :: NewestAt(items, snap, i) && items[i].e == e)
  {
    KeptEntries(items, snap, base);
    if e !in upper && e !in deeper {
      var i := EntryAt(items, e);
      if e.seqno > snap {
        RecentSurvives(lt, items, snap, base, i);
      } else {
        assert NewestAt(items, snap, i);
        NewestSurvives(lt, items, snap, base, i);
      }
    }
  }

  /** After a dropped newest marker nothing of that key is left to read. */
  lemma NothingVisibleAfterMarker(lt: Order, items: seq<Item>, snap: nat, base: Key -> bool,
                                  upper: set<Entry>, deeper: set<Entry>, k: Key, s: nat, i: nat, f: Entry)
    requires TotalOrder(lt) && SortedItems(lt, items) && snap < MAX_SEQUENCE_NUMBER && s >= snap
    requires Surroundings(items, base, upper, deeper) && !Resurrects(items, snap, base)
    requires NewestAt(items, snap, i) && items[i].e.key == k && items[i].e.kind == Deletion && base(k)
    requires IsNewest(upper + EntriesOf(items) + deeper, k, s, items[i].e)
    requires f in upper + EntriesOf(Kept(items, snap, base)) + deeper && f.key == k
    ensures f.seqno > s
  {
    KeptEntries(items, snap, base);
    NewestSurvives(lt, items, snap, base, i);
    OutputsAreInputs(items, snap, base);
    if f !in upper {
      var j :| 0 <= j < |items| && items[j] == Good(f) && !Dropped(items, snap, base, j);
      assert i != j;
      if i < j {
        NothingBelowDroppedMarker(lt, items, snap, base, i, j);
        assert false;
      }
      assert Precedes(lt, items[j].e, items[i].e);
    }
    assert f in upper + EntriesOf(items) + deeper;
  }

  lemma SubsetDistinct(es: set<Entry>, fs: set<Entry>)
    requires es <= fs && DistinctVersions(fs)
    ensures DistinctVersions(es)
  {
  }

  lemma PreservedOnce(lt: Order, items: seq<Item>, snap: nat, base: Key -> bool,
                      upper: set<Entry>, deeper: set<Entry>, k: Key, s: nat)
    requires TotalOrder(lt) && SortedItems(lt, items) && snap < MAX_SEQUENCE_NUMBER && s >= snap
    requires Surroundings(items, base, upper, deeper) && !Resurrects(items, snap, base)
    ensures SameReads(items, snap, base, upper, deeper, k, s)
  {
    var before := upper + EntriesOf(items) + deeper;
    var after := upper + EntriesOf(Kept(items, snap, base)) + deeper;
    OutputsAreInputs(items, snap, base);
    SubsetDistinct(after, before);
    if HasVersion(before, k, s) {
      NewestExists(before, k, s);
      var e :| IsNewest(before, k, s, e);
      NewestUnchanged(lt, items, snap, base, upper, deeper, k, s, e);
      ReadIs(before, k, s, e);
      if IsNewest(after, k, s, e) {
        ReadIs(after, k, s, e);
      } else {
        var i: nat :| NewestAt(items, snap, i) && items[i].e == e;
        forall f | f in after && f.key == k ensures f.seqno > s {
          NothingVisibleAfterMarker(lt, items, snap, base, upper, deeper, k, s, i, f);
        }
      }
    }
  }

  lemma InputsAreDistinct(lt: Order, items: seq<Item>)
    requires TotalOrder(lt) && SortedItems(lt, items)
    ensures DistinctVersions(EntriesOf(items))
  {
    forall a, b | a in EntriesOf(items) && b in EntriesOf(items) && a.key == b.key && a.seqno == b.seqno
      ensures a == b
    {
      var i := EntryAt(items, a);
      var j := EntryAt(items, b);
      assert i == j;
    }
  }

  /** Survivors of a key whose newest marker may be dropped are values, if visible at all. */
  lemma SurvivorsAreValues(items: seq<Item>, snap: nat, base: Key -> bool, e: Entry)
    requires e in EntriesOf(Kept(items, snap, base)) && e.seqno <= snap && base(e.key)
    ensures e.kind == Put
  {
    KeptEntries(items, snap, base);
  }

  /** A resurrected value is visible at the snapshot itself, in a database that holds nothing else. */
  lemma ResurrectionVisible(lt: Order, items: seq<Item>, snap: nat, base: Key -> bool, i: nat, j: nat)
    requires TotalOrder(lt) && SortedItems(lt, items) && snap < MAX_SEQUENCE_NUMBER
    requires i < j < |items| && ResurrectsAt(items, snap, base, i, j)
    ensures Read(EntriesOf(items), items[i].e.key, snap) == None
    ensures Read(EntriesOf(Kept(items, snap, base)), items[i].e.key, snap).Some?
  {
    var k := items[i].e.key;
    var out := EntriesOf(Kept(items, snap, base));
    InputsAreDistinct(lt, items);
    ReadIs(EntriesOf(items), k, snap, items[i].e);
    OutputsAreInputs(items, snap, base);
    SubsetDistinct(out, EntriesOf(items));
    assert items[j].e in out && items[j].e.seqno <= snap by {
      assert Precedes(lt, items[i].e, items[j].e);
      KeptEntries(items, snap, base);
      assert !Dropped(items, snap, base, j);
    }
    NewestExists(out, k, snap);
    var n :| IsNewest(out, k, snap, n);
    ReadIs(out, k, snap, n);
    SurvivorsAreValues(items, snap, base, n);
  }

  lemma ResurrectionShows(lt: Order, items: seq<Item>, snap: nat, base: Key -> bool)
    requires TotalOrder(lt) && SortedItems(lt, items) && snap < MAX_SEQUENCE_NUMBER
    requires Resurrects(items, snap, base)
    ensures !ReadsPreserved(items, snap, base)
  {
    var i, j :| 0 <= i < j < |items| && ResurrectsAt(items, snap, base, i, j);
    ResurrectionVisible(lt, items, snap, base, i, j);
    InputsAreDistinct(lt, items);
    var none: set<Entry> := {};
    assert none + EntriesOf(items) + none == EntriesOf(items);
    assert none + EntriesOf(Kept(items, snap, base)) + none == EntriesOf(Kept(items, snap, base));
    assert Surroundings(items, base, none, none);
    assert !SameReads(items, snap, base, none, none, items[i].e.key, snap);
  }

  /** Compaction is invisible exactly when no corrupt key separates a droppable deletion marker from
      an older value of its key. */
  lemma CompactionPreservesReadsIff(lt: Order, items: seq<Item>, snap: nat, base: Key -> bool)
    requires TotalOrder(lt) && SortedItems(lt, items) && snap < MAX_SEQUENCE_NUMBER
    ensures ReadsPreserved(items, snap, base) <==> !Resurrects(items, snap, base)
  {
    if Resurrects(items, snap, base) {
      ResurrectionShows(lt, items, snap, base);
    } else {
      forall upper, deeper, k, s | Surroundings(items, base, upper, deeper) && s >= snap
        ensures SameReads(items, snap, base, upper, deeper, k, s)
      {
        PreservedOnce(lt, items, snap, base, upper, deeper, k, s);
      }
    }
  }

  /** Without corrupt keys the compaction preserves every read it must. */
  lemma CompactionPreservesReads(lt: Order, items: seq<Item>, snap: nat, base: Key -> bool)
    requires TotalOrder(lt) && SortedItems(lt, items) && snap < MAX_SEQUENCE_NUMBER
    requires forall i :: 0 <= i < |items| ==> items[i].Good?
    ensures ReadsPreserved(items, snap, base)
  {
    CompactionPreservesReadsIff(lt, items, snap, base);
  }

  // ----- Inputs that leave older versions beside them -----

  /** A marker that hides a value outside the inputs and may be dropped: the newest input version of
      its key at the snapshot is a deletion marker at its base level, and the newest version
      outside the inputs is an older value. */
  ghost predicate Uncovers(es: set<Entry>, snap: nat, base: Key -> bool, rest: set<Entry>) {
    exists d, x {:trigger UncoversBy(es, snap, base, rest, d, x)} :: UncoversBy(es, snap, base, rest, d, x)
  }

  ghost predicate UncoversBy(es: set<Entry>, snap: nat, base: Key -> bool, rest: set<Entry>, d: Entry, x: Entry) {
    && IsNewest(es, d.key, snap, d) && d.kind == Deletion && base(d.key)
    && IsNewest(rest, d.key, snap, x) && x.seqno < d.seqno && x.kind == Put
  }

  /** Reads at or above the snapshot cannot tell the merged inputs from the inputs. */
  ghost predicate SameBeside(items: seq<Item>, snap: nat, base: Key -> bool, rest: set<Entry>) {
    forall k, s {:trigger Read(rest + EntriesOf(items), k, s)} :: s >= snap ==>
      Read(rest + EntriesOf(Kept(items, snap, base)), k, s) == Read(rest + EntriesOf(items), k, s)
  }

  lemma GoodDoNotResurrect(items: seq<Item>, snap: nat, base: Key -> bool)
    requires forall i :: 0 <= i < |items| ==> items[i].Good?
    ensures !Resurrects(items, snap, base)
  {
  }

  /** Of a key whose newest marker at the snapshot is dropped, nothing at or below the snapshot is kept. */
  lemma MarkerTakesAll(lt: Order, items: seq<Item>, snap: nat, base: Key -> bool, d: Entry, f: Entry)
    requires TotalOrder(lt) && SortedItems(lt, items) && snap < MAX_SEQUENCE_NUMBER
    requires forall i :: 0 <= i < |items| ==> items[i].Good?
    requires IsNewest(EntriesOf(items), d.key, snap, d) && d.kind == Deletion && base(d.key)
    requires f in EntriesOf(Kept(items, snap, base)) && f.key == d.key
    ensures f.seqno > snap
  {
    KeptEntries(items, snap, base);
    GoodDoNotResurrect(items, snap, base);
    var i := EntryAt(items, d);
    NewestSurvives(lt, items, snap, base, i);
    var j :| 0 <= j < |items| && items[j] == Good(f) && !Dropped(items, snap, base, j);
    if i < j {
      NothingBelowDroppedMarker(lt, items, snap, base, i, j);
      assert false;
    }
    assert j < i;
    assert Precedes(lt, items[j].e, items[i].e);
  }

  lemma UncoveredShows(lt: Order, items: seq<Item>, snap: nat, base: Key -> bool, rest: set<Entry>, d: Entry, x: Entry)
    requires TotalOrder(lt) && SortedItems(lt, items) && snap < MAX_SEQUENCE_NUMBER
    requires forall i :: 0 <= i < |items| ==> items[i].Good?
    requires DistinctVersions(rest + EntriesOf(items)) && UncoversBy(EntriesOf(items), snap, base, rest, d, x)
    ensures Read(rest + EntriesOf(items), d.key, snap) == None
    ensures Read(rest + EntriesOf(Kept(items, snap, base)), d.key, snap) == Some(x.value)
  {
    var before, after := rest + EntriesOf(items), rest + EntriesOf(Kept(items, snap, base));
    OutputsAreInputs(items, snap, base);
    SubsetDistinct(after, before);
    ReadIs(before, d.key, snap, d);
    forall f | f in after && f.key == d.key && f.seqno <= snap ensures f.seqno <= x.seqno {
      if f in EntriesOf(Kept(items, snap, base)) {
        MarkerTakesAll(lt, items, snap, base, d, f);
      }
    }
    ReadIs(after, d.key, snap, x);
  }

  lemma CoveredReads(lt: Order, items: seq<Item>, snap: nat, base: Key -> bool, rest: set<Entry>, k: Key, s: nat)
    requires TotalOrder(lt) && SortedItems(lt, items) && snap < MAX_SEQUENCE_NUMBER && s >= snap
    requires forall i :: 0 <= i < |items| ==> items[i].Good?
    requires DistinctVersions(rest + EntriesOf(items)) && !Uncovers(EntriesOf(items), snap, base, rest)
    ensures Read(rest + EntriesOf(Kept(items, snap, base)), k, s) == Read(rest + EntriesOf(items), k, s)
  {
    var before, after := rest + EntriesOf(items), rest + EntriesOf(Kept(items, snap, base));
    OutputsAreInputs(items, snap, base);
    SubsetDistinct(after, before);
    if HasVersion(before, k, s) {
      NewestExists(before, k, s);
      var e :| IsNewest(before, k, s, e);
      ReadIs(before, k, s, e);
      if e in after {
        ReadIs(after, k, s, e);
      } else {
        NotKept(lt, items, snap, base, e);
        OnlyOlderLeft(lt, items, snap, base, rest, e, s);
      }
    }
  }

  /** An input version that is the newest of its key and is not kept is a dropped marker. */
  lemma NotKept(lt: Order, items: seq<Item>, snap: nat, base: Key -> bool, e: Entry)
    requires TotalOrder(lt) && SortedItems(lt, items) && snap < MAX_SEQUENCE_NUMBER
    requires e in EntriesOf(items) && e !in EntriesOf(Kept(items, snap, base))
    requires forall f :: f in EntriesOf(items) && f.key == e.key && f.seqno <= snap ==>
               e.seqno > snap || f.seqno <= e.seqno
    ensures e.seqno <= snap && e.kind == Deletion && base(e.key)
  {
    KeptEntries(items, snap, base);
    var i := EntryAt(items, e);
    if e.seqno > snap {
      RecentSurvives(lt, items, snap, base, i);
    } else {
      assert NewestAt(items, snap, i);
      NewestSurvives(lt, items, snap, base, i);
    }
  }

  /** What is left to read after a dropped marker is a deletion, or nothing. */
  lemma OnlyOlderLeft(lt: Order, items: seq<Item>, snap: nat, base: Key -> bool, rest: set<Entry>, e: Entry, s: nat)
    requires TotalOrder(lt) && SortedItems(lt, items) && snap < MAX_SEQUENCE_NUMBER && s >= snap
    requires forall i :: 0 <= i < |items| ==> items[i].Good?
    requires DistinctVersions(rest + EntriesOf(items)) && !Uncovers(EntriesOf(items), snap, base, rest)
    requires IsNewest(rest + EntriesOf(items), e.key, s, e) && e in EntriesOf(items)
    requires e.seqno <= snap && e.kind == Deletion && base(e.key)
    ensures Read(rest + EntriesOf(Kept(items, snap, base)), e.key, s) == None
  {
    var k := e.key;
    var before, after := rest + EntriesOf(items), rest + EntriesOf(Kept(items, snap, base));
    OutputsAreInputs(items, snap, base);
    SubsetDistinct(after, before);
    assert IsNewest(EntriesOf(items), k, snap, e);
    forall f | f in after && f.key == k && f.seqno <= s ensures f in rest && f.seqno <= snap {
      if f in EntriesOf(Kept(items, snap, base)) {
        MarkerTakesAll(lt, items, snap, base, e, f);
      }
    }
    if HasVersion(rest, k, snap) {
      SubsetDistinct(rest, before);
      NewestExists(rest, k, snap);
      var x :| IsNewest(rest, k, snap, x);
      assert x in before && x.seqno <= e.seqno;
      assert !UncoversBy(EntriesOf(items), snap, base, rest, e, x);
      if x.seqno == e.seqno {
        assert x == e;
      }
      ReadIs(after, k, s, x);
    }
  }

  /** Whatever lies beside the inputs: the merge is invisible to every read at or above the snapshot
      exactly when no marker that may be dropped hides an older value there. */
  lemma MergedReadsIff(lt: Order, items: seq<Item>, snap: nat, base: Key -> bool, rest: set<Entry>)
    requires TotalOrder(lt) && SortedItems(lt, items) && snap < MAX_SEQUENCE_NUMBER
    requires forall i :: 0 <= i < |items| ==> items[i].Good?
    requires DistinctVersions(rest + EntriesOf(items))
    ensures SameBeside(items, snap, base, rest) <==> !Uncovers(EntriesOf(items), snap, base, rest)
  {
    if Uncovers(EntriesOf(items), snap, base, rest) {
      var d, x :| UncoversBy(EntriesOf(items), snap, base, rest, d, x);
      UncoveredShows(lt, items, snap, base, rest, d, x);
      assert Read(rest + EntriesOf(items), d.key, snap) == None;
    } else {
      forall k, s | s >= snap
        ensures Read(rest + EntriesOf(Kept(items, snap, base)), k, s) == Read(rest + EntriesOf(items), k, s)
      {
        CoveredReads(lt, items, snap, base, rest, k, s);
      }
    }
  }

  /** With a snapshot at the very last sequence number the initial `last_sequence_for_key` already
      counts as hidden, and the loop keeps no entry at all. */
  lemma MaximalSnapshotKeepsNothing(items: seq<Item>, snap: nat, base: Key -> bool)
    requires forall i :: 0 <= i < |items| && items[i].Good? ==> items[i].e.seqno <= MAX_SEQUENCE_NUMBER
    requires snap >= MAX_SEQUENCE_NUMBER
    ensures EntriesOf(Kept(items, snap, base)) == {}
  {
    KeptEntries(items, snap, base);
  }

  // ----- The loop -----

  predicate InRange(lt: Order, f: FileRange, k: Key) {
    AtMost(lt, f.smallest, k) && AtMost(lt, k, f.largest)
  }

  /** No file two or more levels below the compaction's level can hold the key. */
  predicate IsBase(lt: Order, files: seq<seq<FileRange>>, level: nat, k: Key) {
    forall l, i | level + 2 <= l < |files| && 0 <= i < |files[l]| :: !InRange(lt, files[l][i], k)
  }

  function Flatten(outputs: seq<seq<Item>>): seq<Item> {
    if outputs == [] then [] else Flatten(outputs[..|outputs| - 1]) + outputs[|outputs| - 1]
  }

  /** How writing one output went. */
  datatype Writing = Writing(finished: bool, synced: bool, closed: bool, usable: bool)

  class Compaction {
    const lt: Order
    const level: nat
    const files: seq<seq<FileRange>>
    const levelPtrs: array<nat>

    constructor (lt: Order, level: nat, files: seq<seq<FileRange>>)
      requires TotalOrder(lt) && |files| == NUM_LEVELS && LevelsSorted(lt, files)
      ensures Valid() && this.lt == lt && this.level == level && this.files == files
      ensures fresh(levelPtrs) && forall input :: PassedFrom(input, 0)
    {
      this.lt, this.level, this.files := lt, level, files;
      levelPtrs := new nat[NUM_LEVELS](_ => 0);
    }

    /** Below level 0 the files of a level follow one another; neighbours may share a user key. */
    static ghost predicate LevelsSorted(lt: Order, files: seq<seq<FileRange>>) {
      && (forall l, i | 0 <= l < |files| && 0 <= i < |files[l]| ::
            AtMost(lt, files[l][i].smallest, files[l][i].largest))
      && (forall l, i, j | 1 <= l < |files| && 0 <= i < j < |files[l]| ::
            AtMost(lt, files[l][i].largest, files[l][j].smallest))
    }

    ghost predicate Valid() {
      TotalOrder(lt) && |files| == NUM_LEVELS && levelPtrs.Length == NUM_LEVELS && LevelsSorted(lt, files)
    }

    /** Everything the level pointers have moved past ends before k. */
    ghost predicate Passed(k: Key)
      requires Valid()
      reads levelPtrs
    {
      forall l | 0 <= l < NUM_LEVELS :: PassedIn(l, levelPtrs[l], k)
    }

    ghost predicate PassedFrom(input: seq<Item>, i: nat)
      requires Valid()
      reads levelPtrs
    {
      forall j | i <= j < |input| && input[j].Good? :: Passed(input[j].e.key)
    }

    ghost predicate PassedIn(l: nat, n: nat, k: Key)
      requires Valid() && l < NUM_LEVELS
    {
      n <= |files[l]| && forall i | 0 <= i < n :: lt(files[l][i].largest, k)
    }

    ghost function Base(): Key -> bool {
      k => IsBase(lt, files, level, k)
    }

    method IsBaseLevelForKey(k: Key) returns (r: bool)
      requires Valid() && Passed(k)
      modifies levelPtrs
      ensures Passed(k)
      ensures r == Base()(k)
    {
      var l := level + 2;
      while l < NUM_LEVELS
        invariant level + 2 <= l && Passed(k)
        invariant forall m, i | level + 2 <= m < l && m < NUM_LEVELS && 0 <= i < |files[m]| ::
                    !InRange(lt, files[m][i], k)
      {
        while levelPtrs[l] < |files[l]|
          invariant Passed(k) && PassedIn(l, levelPtrs[l], k)
          decreases |files[l]| - levelPtrs[l]
        {
          var f := files[l][levelPtrs[l]];
          if AtMost(lt, k, f.largest) {
            if AtMost(lt, f.smallest, k) {
              return false;
            }
            break;
          }
          levelPtrs[l] := levelPtrs[l] + 1;
        }
        NotInLevel(l, levelPtrs[l], k);
        l := l + 1;
      }
      r := true;
    }

    /** Once a level's pointer has stopped short of k, no file of that level can hold k. */
    lemma NotInLevel(l: nat, n: nat, k: Key)
      requires Valid() && 1 <= l < NUM_LEVELS && PassedIn(l, n, k)
      requires n < |files[l]| ==> lt(k, files[l][n].smallest)
      ensures forall i | 0 <= i < |files[l]| :: !InRange(lt, files[l][i], k)
    {
      forall i | n < i < |files[l]| ensures lt(k, files[l][i].smallest) {
        assert AtMost(lt, files[l][n].largest, files[l][i].smallest);
      }
    }

    /** One entry's fate: the two drop rules, and the state carried to the next entry. */
    method JudgeEntry(input: seq<Item>, i: nat, snap: nat, current: Option<Key>, last: nat)
      returns (drop: bool, current': Option<Key>, last': nat)
      requires Valid() && i < |input|
      requires Carried(input, i, current, last)
      requires SortedItems(lt, input) && PassedFrom(input, i)
      modifies levelPtrs
      ensures PassedFrom(input, i + 1)
      ensures drop == Dropped(input, snap, Base(), i)
      ensures Carried(input, i + 1, current', last')
    {
      drop, current', last' := false, current, last;
      var item := input[i];
      if item.Corrupt? {
        current', last' := None, MAX_SEQUENCE_NUMBER;
      } else {
        if current != Some(item.e.key) {
          current', last' := Some(item.e.key), MAX_SEQUENCE_NUMBER;
        }
        if last' <= snap {
          drop := true;
        } else if item.e.kind == Deletion && item.e.seqno <= snap {
          drop := IsBaseLevelForKey(item.e.key);
          LaterKeysPassed(input, i);
        }
        last' := item.e.seqno;
      }
    }

    ghost predicate Carried(input: seq<Item>, i: nat, current: Option<Key>, last: nat)
      requires i <= |input|
    {
      if i > 0 && input[i - 1].Good? then current == Some(input[i - 1].e.key) && last == input[i - 1].e.seqno
      else current == None
    }

    /** The compaction loop. `stopBefore` and `full` stand for the two size rules that end an output
        file, `inputOk(i)` for the input iterator's status after i items, `openOk` and `writes` for the
        outcome of file operations, and shutdown is noticed from iteration `shutdownAt` on. */
    method DoCompactionWork(input: seq<Item>, snap: nat, stopBefore: nat -> bool, full: seq<Item> -> bool,
                            inputOk: nat -> bool, openOk: nat -> bool, writes: nat -> Writing, shutdownAt: nat)
      returns (status: Status, outputs: seq<seq<Item>>)
      requires Valid() && SortedItems(lt, input)
      requires PassedFrom(input, 0)
      modifies levelPtrs
      ensures status == Ok ==> Flatten(outputs) == Kept(input, snap, Base()) && [] !in outputs
      ensures shutdownAt > |input| &&
              (forall n :: inputOk(n) && openOk(n) && writes(n) == Writing(true, true, true, true)) ==>
                status == Ok
      ensures shutdownAt <= |input| || !inputOk(|input|) ==> status == Failed
    {
      hide Flatten, KeptTo, Dropped, Carried, PassedFrom, SortedItems;
      status, outputs := Ok, [];
      var builder: seq<Item> := [];
      var current: Option<Key> := None;
      var last := MAX_SEQUENCE_NUMBER;
      var i := 0;
      ghost var fine := forall n :: inputOk(n) && openOk(n) && writes(n) == Writing(true, true, true, true);
      NothingKept(input, snap);
      while i < |input| && i < shutdownAt && status == Ok
        invariant i <= |input| && [] !in outputs
        invariant status == Ok ==> Flatten(outputs) + builder == KeptTo(input, snap, Base(), i)
        invariant status == Ok ==> Carried(input, i, current, last)
        invariant fine ==> status == Ok
        invariant PassedFrom(input, i)
      {
        if stopBefore(i) && builder != [] {
          status, outputs, builder := FinishCompactionOutputFile(outputs, builder, inputOk(i), writes(|outputs|));
          if status == Failed {
            break;
          }
        }
        var drop;
        drop, current, last := JudgeEntry(input, i, snap, current, last);
        OneMoreJudged(input, snap, i);
        if !drop {
          if builder == [] && !openOk(|outputs|) {
            status := Failed;
            break;
          }
          builder := builder + [input[i]];
          assert Flatten(outputs) + builder == KeptTo(input, snap, Base(), i + 1);
          if full(builder) {
            status, outputs, builder := FinishCompactionOutputFile(outputs, builder, inputOk(i), writes(|outputs|));
          }
        }
        i := i + 1;
      }
      if status == Ok && shutdownAt <= |input| {
        status := Failed;
      }
      if status == Ok && builder != [] {
        status, outputs, builder := FinishCompactionOutputFile(outputs, builder, inputOk(i), writes(|outputs|));
      }
      if status == Ok && !inputOk(i) {
        status := Failed;
      }
    }

    lemma NothingKept(input: seq<Item>, snap: nat)
      ensures Flatten([]) == KeptTo(input, snap, Base(), 0) == []
      ensures Carried(input, 0, None, MAX_SEQUENCE_NUMBER)
    {
    }

    lemma OneMoreJudged(input: seq<Item>, snap: nat, i: nat)
      requires i < |input|
      ensures KeptTo(input, snap, Base(), i + 1) ==
              KeptTo(input, snap, Base(), i) + (if Dropped(input, snap, Base(), i) then [] else [input[i]])
    {
    }

    /** Finishing an output: the iterator's status, building the table, sync, close, and opening it. */
    method FinishCompactionOutputFile(outputs: seq<seq<Item>>, builder: seq<Item>, inputOk: bool, w: Writing)
      returns (status: Status, outputs': seq<seq<Item>>, builder': seq<Item>)
      requires builder != [] && [] !in outputs
      ensures [] !in outputs'
      ensures (status == Ok) == (inputOk && w == Writing(true, true, true, true))
      ensures status == Ok ==> builder' == [] && Flatten(outputs') + builder' == Flatten(outputs) + builder
      ensures status == Failed ==> outputs' == outputs
    {
      var ok := inputOk;
      if ok {
        ok := w.finished;
      }
      if ok {
        ok := w.synced;
      }
      if ok {
        ok := w.closed;
      }
      if ok {
        ok := w.usable;
      }
      if ok {
        status, outputs', builder' := Ok, outputs + [builder], [];
        assert outputs'[..|outputs|] == outputs;
      } else {
        status, outputs', builder' := Failed, outputs, [];
      }
    }

    /** Pointers that are right for one key are right for every key after it. */
    lemma LaterKeysPassed(input: seq<Item>, i: nat)
      requires Valid() && SortedItems(lt, input)
      requires i < |input| && input[i].Good? && Passed(input[i].e.key)
      ensures PassedFrom(input, i)
    {
      forall j | i < j < |input| && input[j].Good? ensures Passed(input[j].e.key) {
        assert Precedes(lt, input[i].e, input[j].e);
      }
    }
  }
}
