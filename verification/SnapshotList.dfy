/** The list of live snapshots: a circular doubly linked list through a dummy head. */
module SnapshotList {

  class SnapshotImpl {
    var prev: SnapshotImpl
    var next: SnapshotImpl
    const sequenceNumber: nat

    constructor (sequenceNumber: nat)
      ensures this.sequenceNumber == sequenceNumber && prev == this && next == this
    {
      this.sequenceNumber := sequenceNumber;
      prev, next := this, this;
    }
  }

  class SnapshotList {
    const head: SnapshotImpl
    /** The nodes in list order, the dummy head first. */
    ghost var ring: seq<SnapshotImpl>

    constructor ()
      ensures Valid() && Snapshots() == []
      ensures fresh(head)
    {
      head := new SnapshotImpl(0);
      ring := [head];
    }

    ghost predicate Valid()
      reads this, ring
    {
      && |ring| > 0 && ring[0] == head
      && Ordered(ring)
      && forall i {:trigger Linked(ring, i)} :: 0 <= i < |ring| ==> Linked(ring, i)
    }

    /** Distinct nodes, oldest snapshot first. */
    static ghost predicate Ordered(ring: seq<SnapshotImpl>) {
      && (forall i, j :: 0 <= i < j < |ring| ==> ring[i] != ring[j])
      && (forall i, j :: 1 <= i < j < |ring| ==> ring[i].sequenceNumber <= ring[j].sequenceNumber)
    }

    /** Node i points to its neighbours around the ring. */
    static ghost predicate Linked(ring: seq<SnapshotImpl>, i: nat)
      requires i < |ring|
      reads ring[i]
    {
      ring[i].next == After(ring, i) && ring[i].prev == PrecededBy(ring, i)
    }

    static ghost function After(ring: seq<SnapshotImpl>, i: nat): SnapshotImpl
      requires i < |ring|
    {
      if i + 1 < |ring| then ring[i + 1] else ring[0]
    }

    static ghost function PrecededBy(ring: seq<SnapshotImpl>, i: nat): SnapshotImpl
      requires i < |ring|
    {
      if i > 0 then ring[i - 1] else ring[|ring| - 1]
    }

    /** The place node i of what is left had before node m was taken out. */
    static ghost function Was(m: nat, i: nat): nat {
      if i < m then i else i + 1
    }

    static lemma LeftAt(ring: seq<SnapshotImpl>, m: nat, i: nat)
      requires 1 <= m < |ring| && i < |ring| - 1
      ensures (ring[..m] + ring[m + 1..])[i] == ring[Was(m, i)]
    {
    }

    static lemma Distinct(ring: seq<SnapshotImpl>, i: nat, j: nat)
      requires Ordered(ring) && i < |ring| && j < |ring|
      ensures ring[i] == ring[j] <==> i == j
    {
    }

    /** Taking node m out of the ring changes the successor of exactly one node. */
    static lemma AfterWithout(ring: seq<SnapshotImpl>, m: nat, i: nat)
      requires Ordered(ring) && 1 <= m < |ring| && i < |ring| - 1
      ensures var left, j := ring[..m] + ring[m + 1..], Was(m, i);
              && left[i] == ring[j] && left[i] != ring[m]
              && (left[i] == PrecededBy(ring, m) <==> After(ring, j) == ring[m])
              && After(left, i) == if After(ring, j) == ring[m] then After(ring, m) else After(ring, j)
    {
      hide Ordered;
      var j, n := Was(m, i), |ring|;
      LeftAt(ring, m, i);
      LeftAt(ring, m, if i + 1 < n - 1 then i + 1 else 0);
      Distinct(ring, j, m);
      Distinct(ring, j, m - 1);
      Distinct(ring, if j + 1 < n then j + 1 else 0, m);
    }

    /** And the predecessor of exactly one node. */
    static lemma BeforeWithout(ring: seq<SnapshotImpl>, m: nat, i: nat)
      requires Ordered(ring) && 1 <= m < |ring| && i < |ring| - 1
      ensures var left, j := ring[..m] + ring[m + 1..], Was(m, i);
              && left[i] == ring[j]
              && (left[i] == After(ring, m) <==> PrecededBy(ring, j) == ring[m])
              && PrecededBy(left, i) ==
                 if PrecededBy(ring, j) == ring[m] then PrecededBy(ring, m) else PrecededBy(ring, j)
    {
      hide Ordered;
      var j, n := Was(m, i), |ring|;
      LeftAt(ring, m, i);
      LeftAt(ring, m, if i > 0 then i - 1 else n - 2);
      Distinct(ring, j, if m + 1 < n then m + 1 else 0);
      Distinct(ring, if j > 0 then j - 1 else n - 1, m);
    }

    static lemma OrderedWithout(ring: seq<SnapshotImpl>, m: nat)
      requires Ordered(ring) && 1 <= m < |ring|
      ensures Ordered(ring[..m] + ring[m + 1..])
    {
    }

    /** The live snapshots, oldest first. */
    ghost function Snapshots(): seq<SnapshotImpl>
      requires Valid()
      reads this, ring
    {
      ring[1..]
    }

    method Empty() returns (r: bool)
      requires Valid()
      ensures r == (Snapshots() == [])
    {
      r := head.next == head;
      assert Linked(ring, 0);
    }

    /** The oldest snapshot: no live snapshot has a smaller sequence number. */
    method Oldest() returns (s: SnapshotImpl)
      requires Valid() && Snapshots() != []
      ensures s == Snapshots()[0]
      ensures forall t :: t in Snapshots() ==> s.sequenceNumber <= t.sequenceNumber
    {
      s := head.next;
      assert Linked(ring, 0);
    }

    method Newest() returns (s: SnapshotImpl)
      requires Valid() && Snapshots() != []
      ensures s == Snapshots()[|Snapshots()| - 1]
      ensures forall t :: t in Snapshots() ==> t.sequenceNumber <= s.sequenceNumber
    {
      s := head.prev;
      assert Linked(ring, 0);
    }

    method New(sequenceNumber: nat) returns (s: SnapshotImpl)
      requires Valid()
      requires forall t :: t in Snapshots() ==> t.sequenceNumber <= sequenceNumber
      modifies this, ring
      ensures Valid() && fresh(s) && s.sequenceNumber == sequenceNumber
      ensures Snapshots() == old(Snapshots()) + [s]
    {
      s := new SnapshotImpl(sequenceNumber);
      ghost var n := |ring|;
      assert Linked(ring, 0) && Linked(ring, n - 1);
      s.next := head;
      s.prev := head.prev;
      s.prev.next := s;
      s.next.prev := s;
      ghost var was := ring;
      ring := was + [s];
      forall i | 0 <= i < |ring| ensures Linked(ring, i) {
        assert i < n ==> old(Linked(was, i));
      }
      OrderedWith(was, s);
    }

    static lemma OrderedWith(ring: seq<SnapshotImpl>, s: SnapshotImpl)
      requires Ordered(ring) && |ring| > 0 && s !in ring
      requires forall t :: t in ring[1..] ==> t.sequenceNumber <= s.sequenceNumber
      ensures Ordered(ring + [s])
    {
      forall i | 1 <= i < |ring| ensures ring[i].sequenceNumber <= s.sequenceNumber {
        assert ring[1..][i - 1] == ring[i];
      }
    }

    method Delete(s: SnapshotImpl) returns (ghost k: nat)
      requires Valid() && s in Snapshots()
      modifies this`ring, s.prev`next, s.next`prev
      ensures Valid()
      ensures k < |old(Snapshots())| && old(Snapshots())[k] == s
      ensures Snapshots() == old(Snapshots())[..k] + old(Snapshots())[k + 1..]
    {
      hide Ordered, After, PrecededBy;
      ghost var m :| 1 <= m < |ring| && ring[m] == s;
      k := m - 1;
      ghost var was := ring;
      assert Linked(was, m);
      s.prev.next := s.next;
      s.next.prev := s.prev;
      ring := was[..m] + was[m + 1..];
      OrderedWithout(was, m);
      forall i | 0 <= i < |ring| ensures Linked(ring, i) {
        AfterWithout(was, m, i);
        BeforeWithout(was, m, i);
        assert old(Linked(was, Was(m, i)));
      }
    }
  }
}
