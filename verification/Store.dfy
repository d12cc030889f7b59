/** The engine in memory as a transition system: one step is one stretch of work between two
    releases of the mutex. Group commits, memtable switches, flushes, compactions, snapshots and
    readers interleave freely; what a reader finds never depends on how. */
module Store {
  import opened Entries
  import opened Versions
  import C = Compaction

  /** The leader's combined batch; the first `done` entries are already in the memtable. */
  datatype Group = Group(es: seq<Entry>, done: nat)

  /** A running compaction. `based` holds the keys judged to be at their base level. */
  datatype Merge = Merge(snap: nat, level: nat, inputs: Version, based: set<Key>)

  /** What a reader took under the mutex: a sequence number, the memtables, and the version. */
  datatype Reader = Reader(seqno: nat, mem: nat, imm: Option<nat>, version: Version)

  /** `memtables` lists every memtable ever used, oldest first: the last is the mutable one, and the
      one before it is the immutable one when `immutable` is set. The last four fields are history:
      all entries inserted so far, the sequence number at which each memtable began, the completed
      groups, and the sequence number below which compactions may have forgotten versions. */
  datatype Store = Store(lastSequence: nat, memtables: seq<set<Entry>>, immutable: bool, version: Version,
                         snapshots: seq<nat>, group: Option<Group>, merge: Option<Merge>, readers: map<nat, Reader>,
                         history: set<Entry>, starts: seq<nat>, groups: seq<seq<Entry>>, floor: nat)

  datatype Step =
    | BeginGroup(es: seq<Entry>)
    | InsertNext
    | EndGroup
    | FailGroup
    | SwitchMemtable
    | Flush(number: nat, to: nat)
    | BeginMerge(level: nat, inputs: Version, based: set<Key>)
    | FinishMerge(items: seq<C.Item>, outputs: Version)
    | AbandonMerge
    | MoveTable(t: Table)
    | TakeSnapshot
    | ReleaseSnapshot(i: nat)
    | BeginRead(id: nat, at: nat)
    | EndRead(id: nat)

  function Initial(): Store {
    Store(0, [{}], false, {}, [], None, None, map[], {}, [0], [], 0)
  }

  // ----- Views -----

  predicate Shaped(st: Store) {
    |st.memtables| == |st.starts| && |st.memtables| > if st.immutable then 1 else 0
  }

  function OldestLive(st: Store): nat
    requires Shaped(st)
  {
    |st.memtables| - 1 - if st.immutable then 1 else 0
  }

  /** What the i-th memtable holds: the entries inserted while it was the mutable one. */
  ghost function Slice(history: set<Entry>, starts: seq<nat>, i: nat): set<Entry>
    requires i < |starts|
  {
    set e | e in history && starts[i] < e.seqno && (i + 1 < |starts| ==> e.seqno <= starts[i + 1])
  }

  ghost function UpTo(history: set<Entry>, s: nat): set<Entry> {
    set e | e in history && e.seqno <= s
  }

  /** Everything that has left the memtables for tables. */
  ghost function Flushed(st: Store): set<Entry>
    requires Shaped(st)
  {
    UpTo(st.history, st.starts[OldestLive(st)])
  }

  function SmallestSnapshot(st: Store): nat {
    if st.snapshots == [] then st.lastSequence else st.snapshots[0]
  }

  function Numbers(v: Version): set<nat> {
    set t | t in v :: t.number
  }

  /** `Get`: the memtable, then the immutable memtable, then the version. */
  ghost function GetResult(memtables: seq<set<Entry>>, r: Reader, k: Key): Option<Value>
    requires r.mem < |memtables| && (r.imm.Some? ==> r.imm.value < |memtables|)
  {
    if HasVersion(memtables[r.mem], k, r.seqno) then Read(memtables[r.mem], k, r.seqno)
    else if r.imm.Some? && HasVersion(memtables[r.imm.value], k, r.seqno) then Read(memtables[r.imm.value], k, r.seqno)
    else
      var found := Versions.Get(r.version, k, r.seqno);
      if found.Some? then found.value else None
  }

  // ----- Steps -----

  ghost predicate Enabled(lt: Order, st: Store, step: Step)
    requires Shaped(st)
  {
    match step
    case BeginGroup(es) =>
      && st.group == None && st.lastSequence + |es| < MAX_SEQUENCE_NUMBER
      && forall i :: 0 <= i < |es| ==> es[i].seqno == st.lastSequence + 1 + i
    case InsertNext => st.group.Some? && st.group.value.done < |st.group.value.es|
    case EndGroup => st.group.Some? && st.group.value.done == |st.group.value.es|
    case FailGroup => st.group.Some? && st.group.value.done == 0
    case SwitchMemtable => st.group == None && !st.immutable
    case Flush(number, to) =>
      && st.immutable
      && (forall t :: t in st.version ==> t.number < number)
      && Fits(st.version, st.memtables[OldestLive(st)], to)
    case BeginMerge(level, inputs, based) =>
      && st.merge == None && Closed(st.version, level, inputs)
      && HidesNothing(st.version, inputs, SmallestSnapshot(st), based)
    case FinishMerge(items, outputs) =>
      && st.merge.Some? && Merged(lt, items, st.merge.value, outputs)
      && Numbers(outputs) !! Numbers(st.version - st.merge.value.inputs) && DistinctNumbers(outputs)
    case AbandonMerge => st.merge.Some?
    case MoveTable(t) => st.merge == None && Closed(st.version, t.level, {t})
    case TakeSnapshot => true
    case ReleaseSnapshot(i) => i < |st.snapshots|
    case BeginRead(id, at) => id !in st.readers && (at == st.lastSequence || at in st.snapshots)
    case EndRead(id) => id in st.readers
  }

  /** The keys judged to be at their base level, as the compaction loop asks for them. */
  function Among(based: set<Key>): Key -> bool {
    k => k in based
  }

  /** No marker the compaction may drop hides an older value in a table that is not an input. Only
      tables count: what a memtable hides may be gone after a crash. */
  ghost predicate HidesNothing(v: Version, inputs: Version, snap: nat, based: set<Key>) {
    !C.Uncovers(AllOf(inputs), snap, Among(based), AllOf(v - inputs))
  }

  ghost predicate DistinctNumbers(v: Version) {
    forall t, u :: t in v && u in v && t.number == u.number ==> t == u
  }

  /** The outputs hold exactly what the compaction loop keeps of the merged inputs. */
  ghost predicate Merged(lt: Order, items: seq<C.Item>, m: Merge, outputs: Version) {
    && C.SortedItems(lt, items) && (forall i :: 0 <= i < |items| ==> items[i].Good?)
    && C.EntriesOf(items) == AllOf(m.inputs)
    && AllOf(outputs) == C.EntriesOf(C.Kept(items, m.snap, Among(m.based)))
    && forall t :: t in outputs ==> t.level == m.level + 1
  }

  ghost function Do(lt: Order, st: Store, step: Step): Store
    requires Shaped(st) && Enabled(lt, st, step)
  {
    match step
    case BeginGroup(es) => st.(group := Some(Group(es, 0)))
    case InsertNext =>
      var g, n := st.group.value, |st.memtables| - 1;
      st.(group := Some(g.(done := g.done + 1)), history := st.history + {g.es[g.done]},
          memtables := st.memtables[n := st.memtables[n] + {g.es[g.done]}])
    case EndGroup =>
      st.(group := None, lastSequence := st.lastSequence + |st.group.value.es|,
          groups := st.groups + [st.group.value.es])
    case FailGroup => st.(group := None, lastSequence := st.lastSequence + |st.group.value.es|)
    case SwitchMemtable =>
      st.(memtables := st.memtables + [{}], starts := st.starts + [st.lastSequence], immutable := true)
    case Flush(number, to) =>
      var es := st.memtables[OldestLive(st)];
      st.(immutable := false, version := if es == {} then st.version else st.version + {Table(number, to, es)})
    case BeginMerge(level, inputs, based) => st.(merge := Some(Merge(SmallestSnapshot(st), level, inputs, based)))
    case FinishMerge(items, outputs) =>
      st.(merge := None, version := st.version - st.merge.value.inputs + outputs, floor := st.merge.value.snap)
    case AbandonMerge => st.(merge := None)
    case MoveTable(t) => st.(version := st.version - {t} + {t.(level := t.level + 1)})
    case TakeSnapshot => st.(snapshots := st.snapshots + [st.lastSequence])
    case ReleaseSnapshot(i) => st.(snapshots := st.snapshots[..i] + st.snapshots[i + 1..])
    case BeginRead(id, at) =>
      var n := |st.memtables| - 1;
      st.(readers := st.readers[id := Reader(at, n, if st.immutable then Some(n - 1) else None, st.version)])
    case EndRead(id) => st.(readers := st.readers - {id})
  }

  // ----- The invariant -----

  /** Reads at or above the floor cannot tell the two sets apart. */
  ghost predicate SameFrom(floor: nat, a: set<Entry>, b: set<Entry>) {
    forall k, s {:trigger Read(a, k, s)} :: s >= floor ==> Read(a, k, s) == Read(b, k, s)
  }

  /** Sequence numbers are never given out twice, and only the group being applied lies beyond
      `lastSequence`. */
  ghost predicate SequenceOk(history: set<Entry>, last: nat, group: Option<Group>) {
    && (forall a, b :: a in history && b in history && a.seqno == b.seqno ==> a == b)
    && last < MAX_SEQUENCE_NUMBER
    && match group
       case None => forall e :: e in history ==> e.seqno <= last
       case Some(g) =>
         && g.done <= |g.es| && last + |g.es| < MAX_SEQUENCE_NUMBER
         && (forall i :: 0 <= i < |g.es| ==> g.es[i].seqno == last + 1 + i)
         && (forall i :: 0 <= i < g.done ==> g.es[i] in history)
         && forall e :: e in history && e.seqno > last ==> e in g.es[..g.done]
  }

  ghost predicate MemtablesOk(memtables: seq<set<Entry>>, starts: seq<nat>, history: set<Entry>, last: nat)
    requires |memtables| == |starts|
  {
    && (forall i, j :: 0 <= i <= j < |starts| ==> starts[i] <= starts[j])
    && (forall i :: 0 <= i < |starts| ==> starts[i] <= last)
    && (forall i :: 0 <= i < |starts| ==> memtables[i] == Slice(history, starts, i))
  }

  ghost predicate VersionOk(version: Version, flushed: set<Entry>, floor: nat) {
    LevelOrder(version) && AllOf(version) <= flushed && SameFrom(floor, AllOf(version), flushed)
  }

  /** No snapshot, held or still to come, lies below what a compaction may forget. */
  ghost predicate SnapshotsOk(snapshots: seq<nat>, last: nat, merge: Option<Merge>, floor: nat) {
    && (forall i, j :: 0 <= i <= j < |snapshots| ==> snapshots[i] <= snapshots[j])
    && (forall i :: 0 <= i < |snapshots| ==> floor <= snapshots[i] <= last)
    && floor <= last
    && (merge.Some? ==> floor <= merge.value.snap <= last && forall q :: q in snapshots ==> merge.value.snap <= q)
  }

  /** The running compaction's inputs are still in place, and its judgements still right. */
  ghost predicate MergeOk(version: Version, merge: Option<Merge>) {
    merge.Some? ==>
      && Closed(version, merge.value.level, merge.value.inputs)
      && HidesNothing(version, merge.value.inputs, merge.value.snap, merge.value.based)
  }

  ghost predicate ReaderOk(r: Reader, starts: seq<nat>, history: set<Entry>, last: nat) {
    && r.mem < |starts| && (r.imm.Some? ==> r.imm.value + 1 == r.mem)
    && r.seqno <= last && (r.mem + 1 < |starts| ==> r.seqno <= starts[r.mem + 1])
    && VersionOk(r.version, UpTo(history, starts[if r.imm.Some? then r.imm.value else r.mem]), r.seqno)
  }

  ghost predicate ReadersOk(readers: map<nat, Reader>, starts: seq<nat>, history: set<Entry>, last: nat) {
    forall id :: id in readers ==> ReaderOk(readers[id], starts, history, last)
  }

  /** A group is visible as a whole or not at all. */
  ghost predicate Whole(es: seq<Entry>, s: nat) {
    (forall i :: 0 <= i < |es| ==> es[i].seqno <= s) || (forall i :: 0 <= i < |es| ==> es[i].seqno > s)
  }

  ghost predicate GroupsOk(groups: seq<seq<Entry>>, s: nat) {
    forall g :: g in groups ==> Whole(g, s)
  }

  /** Groups are visible as a whole at every sequence number at which anything reads. */
  ghost predicate AtomicOk(groups: seq<seq<Entry>>, snapshots: seq<nat>, readers: map<nat, Reader>, last: nat) {
    && (forall g: seq<Entry>, i :: g in groups && 0 <= i < |g| ==> g[i].seqno <= last)
    && (forall q :: q in snapshots ==> GroupsOk(groups, q))
    && (forall id :: id in readers ==> GroupsOk(groups, readers[id].seqno))
  }

  ghost function EntriesIn(groups: seq<seq<Entry>>): set<Entry> {
    set g, e | g in groups && e in g :: e
  }

  ghost predicate Ascending(groups: seq<seq<Entry>>) {
    forall i, j, a: Entry, b: Entry {:trigger a in groups[i], b in groups[j]} ::
      0 <= i < j < |groups| && a in groups[i] && b in groups[j] ==> a.seqno < b.seqno
  }

  /** What has been inserted is the completed groups, in order, and the applied part of the current one. */
  ghost predicate HistoryOk(history: set<Entry>, groups: seq<seq<Entry>>, group: Option<Group>)
    requires group.Some? ==> group.value.done <= |group.value.es|
  {
    && Ascending(groups)
    && history == EntriesIn(groups) + match group case None => {} case Some(g) => Elements(g.es[..g.done])
  }

  ghost predicate Inv(st: Store) {
    && Shaped(st)
    && SequenceOk(st.history, st.lastSequence, st.group)
    && MemtablesOk(st.memtables, st.starts, st.history, st.lastSequence)
    && VersionOk(st.version, Flushed(st), st.floor)
    && SnapshotsOk(st.snapshots, st.lastSequence, st.merge, st.floor)
    && MergeOk(st.version, st.merge)
    && ReadersOk(st.readers, st.starts, st.history, st.lastSequence)
    && AtomicOk(st.groups, st.snapshots, st.readers, st.lastSequence)
    && HistoryOk(st.history, st.groups, st.group)
  }

  // ----- Reading a consistent state -----

  lemma UniqueIsDistinct(history: set<Entry>, es: set<Entry>)
    requires es <= history && forall a, b :: a in history && b in history && a.seqno == b.seqno ==> a == b
    ensures DistinctVersions(es)
  {
  }

  lemma SameUnder(floor: nat, x: set<Entry>, a: set<Entry>, b: set<Entry>)
    requires SameFrom(floor, a, b) && Newer(x, a) && Newer(x, b)
    requires DistinctVersions(x + a) && DistinctVersions(x + b)
    ensures SameFrom(floor, x + a, x + b)
  {
    forall k, s | s >= floor ensures Read(x + a, k, s) == Read(x + b, k, s) {
      ReadLayered(x, a, k, s);
      ReadLayered(x, b, k, s);
    }
  }

  lemma ReadIgnoresLater(whole: set<Entry>, part: set<Entry>, k: Key, s: nat)
    requires DistinctVersions(whole) && part <= whole
    requires forall e :: e in whole && e.seqno <= s ==> e in part
    ensures Read(whole, k, s) == Read(part, k, s)
  {
    ReadsAgree(whole, part, k, s);
  }

  /** Memtables and version, searched in order, give what a read of everything up to the reader's
      sequence number gives. */
  lemma SearchFinds(memtables: seq<set<Entry>>, r: Reader, starts: seq<nat>, history: set<Entry>, last: nat, k: Key)
    requires |memtables| == |starts| && MemtablesOk(memtables, starts, history, last)
    requires forall a, b :: a in history && b in history && a.seqno == b.seqno ==> a == b
    requires ReaderOk(r, starts, history, last)
    ensures GetResult(memtables, r, k) == Read(history, k, r.seqno)
  {
    hide SameFrom, LevelOrder;
    var first := if r.imm.Some? then r.imm.value else r.mem;
    var mem, imm := memtables[r.mem], if r.imm.Some? then memtables[r.imm.value] else {};
    var past, held := UpTo(history, starts[first]), AllOf(r.version);
    UniqueIsDistinct(history, imm + past);
    UniqueIsDistinct(history, mem + (imm + past));
    UniqueIsDistinct(history, history);
    assert starts[first] <= starts[r.mem];
    assert held <= past && Newer(imm, past) && Newer(mem, imm + past);
    UniqueIsDistinct(history, imm + held);
    UniqueIsDistinct(history, held);
    UniqueIsDistinct(history, mem + (imm + held));
    ReadIgnoresLater(history, mem + (imm + past), k, r.seqno);
    LayersAgree(mem, imm, held, past, r.version, k, r.seqno);
  }

  lemma LayersAgree(mem: set<Entry>, imm: set<Entry>, held: set<Entry>, past: set<Entry>, v: Version, k: Key, s: nat)
    requires DistinctVersions(mem + (imm + held)) && DistinctVersions(mem + (imm + past)) && DistinctVersions(held)
    requires DistinctVersions(imm + held) && DistinctVersions(imm + past)
    requires Newer(mem, imm + past) && Newer(imm, past) && held <= past && held == AllOf(v)
    requires LevelOrder(v) && SameFrom(s, held, past)
    ensures Read(mem + (imm + past), k, s) ==
            if HasVersion(mem, k, s) then Read(mem, k, s)
            else if HasVersion(imm, k, s) then Read(imm, k, s)
            else match Versions.Get(v, k, s) case Some(found) => found case None => None
  {
    hide LevelOrder;
    GetIsVisible(v, k, s);
    ReadLayered(mem, imm + past, k, s);
    ReadLayered(imm, past, k, s);
    assert Read(held, k, s) == Read(past, k, s);
  }

  /** Every Get, whatever has run since it released the mutex, returns the newest version at or below
      its sequence number. */
  lemma ReaderFinds(st: Store, id: nat, k: Key)
    requires Inv(st) && id in st.readers
    ensures GetResult(st.memtables, st.readers[id], k) == Read(st.history, k, st.readers[id].seqno)
  {
    SearchFinds(st.memtables, st.readers[id], st.starts, st.history, st.lastSequence, k);
  }

  // ----- Every step keeps the invariant -----

  lemma InitialInv()
    ensures Inv(Initial())
  {
    var st := Initial();
    assert AllOf(st.version) == {} && Flushed(st) == {};
    assert st.memtables[0] == Slice(st.history, st.starts, 0);
  }

  /** An entry beyond `lastSequence` touches nothing but the mutable memtable. */
  lemma LaterEntry(history: set<Entry>, starts: seq<nat>, last: nat, e: Entry)
    requires e.seqno > last && |starts| > 0 && forall i :: 0 <= i < |starts| ==> starts[i] <= last
    ensures forall i :: 0 <= i < |starts| - 1 ==> Slice(history + {e}, starts, i) == Slice(history, starts, i)
    ensures Slice(history + {e}, starts, |starts| - 1) == Slice(history, starts, |starts| - 1) + {e}
    ensures forall q: nat :: q <= last ==> UpTo(history + {e}, q) == UpTo(history, q)
  {
  }

  lemma InsertSequence(history: set<Entry>, last: nat, g: Group)
    requires SequenceOk(history, last, Some(g)) && g.done < |g.es|
    ensures SequenceOk(history + {g.es[g.done]}, last, Some(g.(done := g.done + 1)))
    ensures g.es[g.done].seqno > last
  {
    assert g.es[..g.done + 1] == g.es[..g.done] + [g.es[g.done]];
  }

  lemma InsertHistory(history: set<Entry>, groups: seq<seq<Entry>>, g: Group)
    requires g.done < |g.es| && HistoryOk(history, groups, Some(g))
    ensures HistoryOk(history + {g.es[g.done]}, groups, Some(g.(done := g.done + 1)))
  {
    assert g.es[..g.done + 1] == g.es[..g.done] + [g.es[g.done]];
  }

  lemma EndHistory(history: set<Entry>, groups: seq<seq<Entry>>, g: Group, snapshots: seq<nat>,
                   readers: map<nat, Reader>, last: nat)
    requires g.done <= |g.es| && HistoryOk(history, groups, Some(g))
    requires AtomicOk(groups, snapshots, readers, last)
    requires forall i :: 0 <= i < |g.es| ==> last < g.es[i].seqno <= last + |g.es|
    ensures g.done == 0 ==> HistoryOk(history, groups, None)
    ensures g.done == |g.es| ==> HistoryOk(history, groups + [g.es], None)
  {
    hide GroupsOk;
    if g.done == |g.es| {
      assert g.es[..g.done] == g.es;
      EntriesInAppend(groups, g.es);
      var groups' := groups + [g.es];
      forall i, j, a: Entry, b: Entry | 0 <= i < j < |groups'| && a in groups'[i] && b in groups'[j]
        ensures a.seqno < b.seqno
      {
        assert groups[i] in groups && a in groups[i];
        if j == |groups| {
          assert a.seqno <= last;
        } else {
          assert b in groups[j];
        }
      }
    }
  }

  lemma EntriesInAppend(groups: seq<seq<Entry>>, es: seq<Entry>)
    ensures EntriesIn(groups + [es]) == EntriesIn(groups) + Elements(es)
  {
    forall e ensures e in EntriesIn(groups + [es]) <==> e in EntriesIn(groups) + Elements(es) {
      if e in EntriesIn(groups) {
        var g :| g in groups && e in g;
        assert g in groups + [es];
      }
      if e in es {
        assert es in groups + [es];
      }
    }
  }

  lemma InsertMemtables(memtables: seq<set<Entry>>, starts: seq<nat>, history: set<Entry>, last: nat, e: Entry)
    requires |memtables| == |starts| > 0 && MemtablesOk(memtables, starts, history, last) && e.seqno > last
    ensures var n := |memtables| - 1;
            MemtablesOk(memtables[n := memtables[n] + {e}], starts, history + {e}, last)
  {
    LaterEntry(history, starts, last, e);
  }

  lemma InsertReaders(readers: map<nat, Reader>, starts: seq<nat>, history: set<Entry>, last: nat, e: Entry)
    requires ReadersOk(readers, starts, history, last) && e.seqno > last && |starts| > 0
    requires forall i :: 0 <= i < |starts| ==> starts[i] <= last
    ensures ReadersOk(readers, starts, history + {e}, last)
  {
    hide VersionOk;
    LaterEntry(history, starts, last, e);
  }

  lemma InsertKeeps(lt: Order, st: Store)
    requires Inv(st) && Enabled(lt, st, InsertNext)
    ensures Inv(Do(lt, st, InsertNext))
  {
    hide VersionOk, MergeOk, SnapshotsOk, ReadersOk, MemtablesOk, AtomicOk, HistoryOk, SequenceOk, Closed;
    hide Fits, HidesNothing, Merged;
    var g := st.group.value;
    InsertSequence(st.history, st.lastSequence, g);
    InsertHistory(st.history, st.groups, g);
    InsertMemtables(st.memtables, st.starts, st.history, st.lastSequence, g.es[g.done]);
    StartsBelow(st);
    InsertReaders(st.readers, st.starts, st.history, st.lastSequence, g.es[g.done]);
    LaterEntry(st.history, st.starts, st.lastSequence, g.es[g.done]);
  }

  lemma StartsBelow(st: Store)
    requires Shaped(st) && MemtablesOk(st.memtables, st.starts, st.history, st.lastSequence)
    ensures forall i :: 0 <= i < |st.starts| ==> st.starts[i] <= st.lastSequence
  {
  }

  lemma EndSequence(history: set<Entry>, last: nat, g: Group)
    requires SequenceOk(history, last, Some(g))
    ensures g.done == |g.es| || g.done == 0 ==> SequenceOk(history, last + |g.es|, None)
    ensures forall i :: 0 <= i < |g.es| ==> last < g.es[i].seqno <= last + |g.es|
  {
  }

  lemma EndAtomic(groups: seq<seq<Entry>>, snapshots: seq<nat>, readers: map<nat, Reader>, last: nat, es: seq<Entry>,
                  starts: seq<nat>, history: set<Entry>, merge: Option<Merge>, floor: nat)
    requires AtomicOk(groups, snapshots, readers, last)
    requires ReadersOk(readers, starts, history, last) && SnapshotsOk(snapshots, last, merge, floor)
    requires forall i :: 0 <= i < |es| ==> last < es[i].seqno <= last + |es|
    ensures AtomicOk(groups, snapshots, readers, last + |es|)
    ensures AtomicOk(groups + [es], snapshots, readers, last + |es|)
  {
    hide VersionOk;
    forall q: nat | q <= last ensures Whole(es, q) {
    }
    assert forall q :: q in snapshots ==> q <= last;
    assert forall id :: id in readers ==> ReaderOk(readers[id], starts, history, last);
  }

  lemma LaterLast(st: Store, n: nat)
    requires Shaped(st) && MemtablesOk(st.memtables, st.starts, st.history, st.lastSequence)
    requires ReadersOk(st.readers, st.starts, st.history, st.lastSequence)
    requires SnapshotsOk(st.snapshots, st.lastSequence, st.merge, st.floor)
    ensures MemtablesOk(st.memtables, st.starts, st.history, st.lastSequence + n)
    ensures ReadersOk(st.readers, st.starts, st.history, st.lastSequence + n)
    ensures SnapshotsOk(st.snapshots, st.lastSequence + n, st.merge, st.floor)
  {
    hide VersionOk;
  }

  lemma EndKeeps(lt: Order, st: Store, step: Step)
    requires Inv(st) && Enabled(lt, st, step) && (step.EndGroup? || step.FailGroup?)
    ensures Inv(Do(lt, st, step))
  {
    hide VersionOk, MergeOk, SnapshotsOk, ReadersOk, MemtablesOk, AtomicOk, HistoryOk, SequenceOk, Closed;
    hide Fits, HidesNothing, Merged;
    var g := st.group.value;
    EndSequence(st.history, st.lastSequence, g);
    EndHistory(st.history, st.groups, g, st.snapshots, st.readers, st.lastSequence);
    EndAtomic(st.groups, st.snapshots, st.readers, st.lastSequence, g.es, st.starts, st.history, st.merge, st.floor);
    LaterLast(st, |g.es|);
  }

  lemma SwitchMemtables(memtables: seq<set<Entry>>, starts: seq<nat>, history: set<Entry>, last: nat)
    requires |memtables| == |starts| > 0 && MemtablesOk(memtables, starts, history, last)
    requires SequenceOk(history, last, None)
    ensures MemtablesOk(memtables + [{}], starts + [last], history, last)
  {
    var starts' := starts + [last];
    forall i | 0 <= i < |starts| ensures Slice(history, starts', i) == Slice(history, starts, i) {
    }
  }

  lemma SwitchReaders(readers: map<nat, Reader>, starts: seq<nat>, history: set<Entry>, last: nat)
    requires ReadersOk(readers, starts, history, last)
    ensures ReadersOk(readers, starts + [last], history, last)
  {
    hide VersionOk;
  }

  lemma SwitchKeeps(lt: Order, st: Store)
    requires Inv(st) && Enabled(lt, st, SwitchMemtable)
    ensures Inv(Do(lt, st, SwitchMemtable))
  {
    hide VersionOk, MergeOk, SnapshotsOk, ReadersOk, MemtablesOk, AtomicOk, HistoryOk, SequenceOk, Closed;
    hide Fits, HidesNothing, Merged;
    SwitchMemtables(st.memtables, st.starts, st.history, st.lastSequence);
    SwitchReaders(st.readers, st.starts, st.history, st.lastSequence);
  }

  lemma FlushVersion(st: Store, number: nat, to: nat)
    requires Inv(st) && st.immutable && (forall t :: t in st.version ==> t.number < number)
    requires Fits(st.version, st.memtables[OldestLive(st)], to)
    ensures var es := st.memtables[OldestLive(st)];
            VersionOk(if es == {} then st.version else st.version + {Table(number, to, es)},
                      Flushed(st.(immutable := false)), st.floor)
  {
    hide MergeOk, SnapshotsOk, ReadersOk, AtomicOk, SameFrom, LevelOrder, Fits;
    var es := st.memtables[OldestLive(st)];
    var flushed, held := Flushed(st), AllOf(st.version);
    assert Flushed(st.(immutable := false)) == es + flushed;
    UniqueIsDistinct(st.history, es + flushed);
    UniqueIsDistinct(st.history, es + held);
    SameUnder(st.floor, es, held, flushed);
    FlushKeepsOrder(st.version, Table(number, to, es));
    assert {} + held == held && {} + flushed == flushed && held + es == es + held;
  }

  lemma FlushMerge(v: Version, merge: Option<Merge>, t: Table)
    requires MergeOk(v, merge) && Newer(t.es, AllOf(v)) && Fits(v, t.es, t.level)
    requires t !in v
    ensures MergeOk(v + {t}, merge)
  {
    if merge.Some? {
      var m := merge.value;
      assert AllOf(m.inputs) <= AllOf(v);
      StillHidesNothing(v, m, t);
      forall u, i | u in (v + {t}) - m.inputs && i in m.inputs && u.level <= m.level ensures Newer(u.es, i.es) {
        assert i.es <= AllOf(v);
      }
    }
  }

  /** A new table changes nothing about what the markers of a running compaction hide. */
  lemma StillHidesNothing(v: Version, m: Merge, t: Table)
    requires HidesNothing(v, m.inputs, m.snap, m.based) && m.inputs <= v && Newer(t.es, AllOf(v)) && t !in v
    ensures HidesNothing(v + {t}, m.inputs, m.snap, m.based)
  {
    var es, rest, rest' := AllOf(m.inputs), AllOf(v - m.inputs), AllOf(v + {t} - m.inputs);
    assert rest' == rest + t.es && es <= AllOf(v);
    forall d, x ensures !C.UncoversBy(es, m.snap, Among(m.based), rest', d, x) {
      if C.UncoversBy(es, m.snap, Among(m.based), rest', d, x) {
        assert x !in t.es;
        assert C.UncoversBy(es, m.snap, Among(m.based), rest, d, x);
        assert false;
      }
    }
  }

  lemma FlushIsNewer(st: Store)
    requires Inv(st) && st.immutable
    ensures Newer(st.memtables[OldestLive(st)], AllOf(st.version))
  {
    hide MergeOk, SnapshotsOk, ReadersOk, AtomicOk, SameFrom, LevelOrder;
  }

  lemma FlushKeeps(lt: Order, st: Store, number: nat, to: nat)
    requires Inv(st) && Enabled(lt, st, Flush(number, to))
    ensures Inv(Do(lt, st, Flush(number, to)))
  {
    hide VersionOk, MergeOk, SnapshotsOk, ReadersOk, MemtablesOk, AtomicOk, HistoryOk, SequenceOk, Closed;
    hide Fits, HidesNothing, Merged;
    FlushVersion(st, number, to);
    FlushIsNewer(st);
    FlushMerge(st.version, st.merge, Table(number, to, st.memtables[OldestLive(st)]));
  }

  lemma BeginMergeKeeps(lt: Order, st: Store, level: nat, inputs: Version, based: set<Key>)
    requires Inv(st) && Enabled(lt, st, BeginMerge(level, inputs, based))
    ensures Inv(Do(lt, st, BeginMerge(level, inputs, based)))
  {
    hide VersionOk, ReadersOk, MemtablesOk, HistoryOk, AtomicOk, SequenceOk, Closed, Fits, HidesNothing, Merged;
  }

  /** What the compaction loop drops no read at or above its smallest snapshot can miss. */
  lemma MergeReads(lt: Order, items: seq<C.Item>, m: Merge, v: Version, outputs: Version)
    requires TotalOrder(lt) && Merged(lt, items, m, outputs) && m.snap < MAX_SEQUENCE_NUMBER
    requires Closed(v, m.level, m.inputs) && HidesNothing(v, m.inputs, m.snap, m.based)
    requires DistinctVersions(AllOf(v))
    ensures SameFrom(m.snap, AllOf(v - m.inputs) + AllOf(outputs), AllOf(v))
    ensures AllOf(outputs) <= AllOf(m.inputs)
  {
    hide C.Uncovers;
    var rest := AllOf(v - m.inputs);
    assert AllOf(v) == rest + C.EntriesOf(items);
    C.MergedReadsIff(lt, items, m.snap, Among(m.based), rest);
    C.OutputsAreInputs(items, m.snap, Among(m.based));
    forall k, s | s >= m.snap ensures Read(rest + AllOf(outputs), k, s) == Read(AllOf(v), k, s) {
      assert Read(rest + C.EntriesOf(items), k, s) == Read(AllOf(v), k, s);
    }
  }

  lemma SameTwice(floor: nat, snap: nat, a: set<Entry>, b: set<Entry>, c: set<Entry>)
    requires SameFrom(snap, a, b) && SameFrom(floor, b, c) && floor <= snap
    ensures SameFrom(snap, a, c)
  {
    forall k, s | s >= snap ensures Read(a, k, s) == Read(c, k, s) {
      assert Read(a, k, s) == Read(b, k, s);
    }
  }

  lemma MergeVersion(lt: Order, items: seq<C.Item>, m: Merge, v: Version, outputs: Version, flushed: set<Entry>,
                     floor: nat)
    requires TotalOrder(lt) && VersionOk(v, flushed, floor) && DistinctVersions(flushed)
    requires MergeOk(v, Some(m)) && Merged(lt, items, m, outputs) && floor <= m.snap < MAX_SEQUENCE_NUMBER
    requires Numbers(outputs) !! Numbers(v - m.inputs) && DistinctNumbers(outputs)
    ensures VersionOk(v - m.inputs + outputs, flushed, m.snap)
  {
    hide SameFrom, LevelOrder, Closed, HidesNothing;
    MergeReads(lt, items, m, v, outputs);
    forall t, u | t in outputs && u in (v - m.inputs) + outputs && t.number == u.number ensures t == u {
      assert t.number in Numbers(outputs);
      assert u in v - m.inputs ==> u.number in Numbers(v - m.inputs);
    }
    MergeKeepsOrder(v, m.level, m.inputs, outputs);
    SameTwice(floor, m.snap, AllOf(v - m.inputs) + AllOf(outputs), AllOf(v), flushed);
    InputsWithin(v, m.level, m.inputs);
  }

  lemma InputsWithin(v: Version, level: nat, inputs: Version)
    requires Closed(v, level, inputs)
    ensures AllOf(inputs) <= AllOf(v) && AllOf(v - inputs) <= AllOf(v)
  {
  }

  lemma FlushedDistinct(st: Store)
    requires Shaped(st) && SequenceOk(st.history, st.lastSequence, st.group)
    ensures DistinctVersions(Flushed(st)) && st.lastSequence < MAX_SEQUENCE_NUMBER
  {
    UniqueIsDistinct(st.history, Flushed(st));
  }

  lemma FinishMergeKeeps(lt: Order, st: Store, items: seq<C.Item>, outputs: Version)
    requires TotalOrder(lt) && Inv(st) && Enabled(lt, st, FinishMerge(items, outputs))
    ensures Inv(Do(lt, st, FinishMerge(items, outputs)))
  {
    hide VersionOk, ReadersOk, MemtablesOk, HistoryOk, AtomicOk, SequenceOk, Closed, Fits, HidesNothing;
    hide Merged, Numbers, DistinctNumbers;
    FlushedDistinct(st);
    assert forall i :: 0 <= i < |st.snapshots| ==> st.snapshots[i] in st.snapshots;
    assert SnapshotsOk(st.snapshots, st.lastSequence, None, st.merge.value.snap);
    MergeVersion(lt, items, st.merge.value, st.version, outputs, Flushed(st), st.floor);
  }

  lemma AbandonKeeps(lt: Order, st: Store)
    requires Inv(st) && Enabled(lt, st, AbandonMerge)
    ensures Inv(Do(lt, st, AbandonMerge))
  {
    hide VersionOk, ReadersOk, MemtablesOk, HistoryOk, AtomicOk, SequenceOk, Closed, Fits, HidesNothing, Merged;
  }

  lemma MoveVersion(v: Version, t: Table, flushed: set<Entry>, floor: nat)
    requires VersionOk(v, flushed, floor) && Closed(v, t.level, {t})
    ensures VersionOk(v - {t} + {t.(level := t.level + 1)}, flushed, floor)
  {
    hide SameFrom;
    var moved := t.(level := t.level + 1);
    assert AllOf({t}) == t.es == AllOf({moved});
    MergeKeepsOrder(v, t.level, {t}, {moved});
    assert AllOf(v) == AllOf(v - {t}) + AllOf({moved});
  }

  lemma MoveKeeps(lt: Order, st: Store, t: Table)
    requires Inv(st) && Enabled(lt, st, MoveTable(t))
    ensures Inv(Do(lt, st, MoveTable(t)))
  {
    hide VersionOk, ReadersOk, MemtablesOk, HistoryOk, AtomicOk, SequenceOk, Closed, Fits, HidesNothing;
    hide Merged, SnapshotsOk;
    MoveVersion(st.version, t, Flushed(st), st.floor);
  }

  lemma SnapshotTaken(groups: seq<seq<Entry>>, snapshots: seq<nat>, readers: map<nat, Reader>, last: nat,
                      merge: Option<Merge>, floor: nat)
    requires SnapshotsOk(snapshots, last, merge, floor) && AtomicOk(groups, snapshots, readers, last)
    ensures SnapshotsOk(snapshots + [last], last, merge, floor) && AtomicOk(groups, snapshots + [last], readers, last)
  {
  }

  lemma SnapshotReleased(groups: seq<seq<Entry>>, snapshots: seq<nat>, readers: map<nat, Reader>, last: nat,
                         merge: Option<Merge>, floor: nat, i: nat)
    requires SnapshotsOk(snapshots, last, merge, floor) && AtomicOk(groups, snapshots, readers, last)
    requires i < |snapshots|
    ensures SnapshotsOk(snapshots[..i] + snapshots[i + 1..], last, merge, floor)
    ensures AtomicOk(groups, snapshots[..i] + snapshots[i + 1..], readers, last)
  {
    hide GroupsOk;
    var left := snapshots[..i] + snapshots[i + 1..];
    assert forall j :: 0 <= j < |left| ==> left[j] == snapshots[if j < i then j else j + 1];
    assert forall q :: q in left ==> q in snapshots;
  }

  lemma SnapshotKeeps(lt: Order, st: Store, step: Step)
    requires Inv(st) && Enabled(lt, st, step) && (step.TakeSnapshot? || step.ReleaseSnapshot?)
    ensures Inv(Do(lt, st, step))
  {
    hide VersionOk, ReadersOk, MemtablesOk, HistoryOk, SequenceOk, Closed, Fits, HidesNothing, Merged, MergeOk;
    hide SnapshotsOk, AtomicOk;
    if step.TakeSnapshot? {
      SnapshotTaken(st.groups, st.snapshots, st.readers, st.lastSequence, st.merge, st.floor);
    } else {
      SnapshotReleased(st.groups, st.snapshots, st.readers, st.lastSequence, st.merge, st.floor, step.i);
    }
  }

  lemma NewReader(st: Store, at: nat)
    requires Inv(st) && (at == st.lastSequence || at in st.snapshots)
    ensures var n := |st.memtables| - 1;
            ReaderOk(Reader(at, n, if st.immutable then Some(n - 1) else None, st.version),
                     st.starts, st.history, st.lastSequence)
    ensures GroupsOk(st.groups, at)
  {
    hide LevelOrder, MergeOk, ReadersOk, SequenceOk;
  }

  lemma BeginReadKeeps(lt: Order, st: Store, id: nat, at: nat)
    requires Inv(st) && Enabled(lt, st, BeginRead(id, at))
    ensures Inv(Do(lt, st, BeginRead(id, at)))
  {
    hide VersionOk, ReaderOk, GroupsOk, MemtablesOk, SequenceOk, Closed, Fits, HidesNothing, Merged;
    hide SnapshotsOk, MergeOk;
    NewReader(st, at);
  }

  lemma EndReadKeeps(lt: Order, st: Store, id: nat)
    requires Inv(st) && Enabled(lt, st, EndRead(id))
    ensures Inv(Do(lt, st, EndRead(id)))
  {
    hide VersionOk, ReaderOk, GroupsOk, MemtablesOk, SequenceOk, Closed, Fits, HidesNothing, Merged;
    hide SnapshotsOk, MergeOk;
  }

  lemma BeginGroupKeeps(lt: Order, st: Store, es: seq<Entry>)
    requires Inv(st) && Enabled(lt, st, BeginGroup(es))
    ensures Inv(Do(lt, st, BeginGroup(es)))
  {
    hide VersionOk, ReadersOk, AtomicOk, MemtablesOk, Closed, Fits, HidesNothing, Merged, SnapshotsOk, MergeOk;
  }

  lemma StepKeeps(lt: Order, st: Store, step: Step)
    requires TotalOrder(lt) && Inv(st) && Enabled(lt, st, step)
    ensures Inv(Do(lt, st, step))
  {
    hide Inv, Enabled, Do;
    match step
    case BeginGroup(es) => BeginGroupKeeps(lt, st, es);
    case InsertNext => InsertKeeps(lt, st);
    case EndGroup => EndKeeps(lt, st, step);
    case FailGroup => EndKeeps(lt, st, step);
    case SwitchMemtable => SwitchKeeps(lt, st);
    case Flush(number, to) => FlushKeeps(lt, st, number, to);
    case BeginMerge(level, inputs, based) => BeginMergeKeeps(lt, st, level, inputs, based);
    case FinishMerge(items, outputs) => FinishMergeKeeps(lt, st, items, outputs);
    case AbandonMerge => AbandonKeeps(lt, st);
    case MoveTable(t) => MoveKeeps(lt, st, t);
    case TakeSnapshot => SnapshotKeeps(lt, st, step);
    case ReleaseSnapshot(_) => SnapshotKeeps(lt, st, step);
    case BeginRead(id, at) => BeginReadKeeps(lt, st, id, at);
    case EndRead(id) => EndReadKeeps(lt, st, id);
  }

  // ----- Every run -----

  /** A run from the empty store: `sts` lists the states, `steps` what happened in between. */
  ghost predicate IsRun(lt: Order, sts: seq<Store>, steps: seq<Step>) {
    && |sts| == |steps| + 1 && sts[0] == Initial()
    && forall i {:trigger steps[i]} :: 0 <= i < |steps| ==>
         Shaped(sts[i]) && Enabled(lt, sts[i], steps[i]) && sts[i + 1] == Do(lt, sts[i], steps[i])
  }

  lemma {:induction false} RunInv(lt: Order, sts: seq<Store>, steps: seq<Step>, i: nat)
    requires TotalOrder(lt) && IsRun(lt, sts, steps) && i < |sts|
    ensures Inv(sts[i])
  {
    hide Inv, Enabled, Do;
    if i == 0 {
      InitialInv();
    } else {
      RunInv(lt, sts, steps, i - 1);
      assert steps[i - 1] == steps[i - 1];
      StepKeeps(lt, sts[i - 1], steps[i - 1]);
    }
  }

  /** Once the last non-empty group is visible, so is every earlier one. */
  lemma EarlierVisible(init: seq<seq<Entry>>, g: seq<Entry>, s: nat)
    requires Ascending(init + [g]) && g != [] && g[0].seqno <= s
    ensures UpTo(EntriesIn(init), s) == EntriesIn(init)
  {
    var groups := init + [g];
    assert g[0] in groups[|init|];
    forall a | a in EntriesIn(init) ensures a.seqno <= s {
      var i :| 0 <= i < |init| && a in init[i];
      assert a in groups[i];
    }
  }

  lemma AscendingInit(init: seq<seq<Entry>>, g: seq<Entry>)
    requires Ascending(init + [g])
    ensures Ascending(init)
  {
    var groups := init + [g];
    forall i, j, a: Entry, b: Entry | 0 <= i < j < |init| && a in init[i] && b in init[j] ensures a.seqno < b.seqno {
      assert a in groups[i] && b in groups[j];
    }
  }

  /** At a sequence number that splits no group, what is visible is a prefix of the groups. */
  lemma {:induction false} VisiblePrefix(groups: seq<seq<Entry>>, s: nat) returns (n: nat)
    requires Ascending(groups) && GroupsOk(groups, s)
    ensures n <= |groups| && UpTo(EntriesIn(groups), s) == EntriesIn(groups[..n])
  {
    hide Ascending;
    n := 0;
    if groups != [] {
      var init, g := groups[..|groups| - 1], groups[|groups| - 1];
      assert groups == init + [g] && g in groups;
      EntriesInAppend(init, g);
      AscendingInit(init, g);
      n := VisiblePrefix(init, s);
      if g != [] && g[0].seqno <= s {
        EarlierVisible(init, g, s);
        n := |groups|;
        assert groups[..n] == groups;
      } else {
        assert groups[..n] == init[..n];
      }
    }
  }

  /** A Get that released the mutex at any earlier point of any run answers from a prefix of the
      completed groups: never from part of a group, and never from an older version. */
  lemma StableAtomicReads(lt: Order, sts: seq<Store>, steps: seq<Step>, i: nat, id: nat) returns (n: nat)
    requires TotalOrder(lt) && IsRun(lt, sts, steps) && i < |sts| && id in sts[i].readers
    ensures Inv(sts[i]) && n <= |sts[i].groups|
    ensures var r := sts[i].readers[id];
            && UpTo(sts[i].history, r.seqno) == EntriesIn(sts[i].groups[..n])
            && forall k :: GetResult(sts[i].memtables, r, k) == Read(EntriesIn(sts[i].groups[..n]), k, r.seqno)
  {
    RunInv(lt, sts, steps, i);
    var st, r := sts[i], sts[i].readers[id];
    n := ReaderPrefix(st, id);
    forall k ensures GetResult(st.memtables, r, k) == Read(EntriesIn(st.groups[..n]), k, r.seqno) {
      ReaderFinds(st, id, k);
      HistoryIsDistinct(st);
      ReadIgnoresLater(st.history, UpTo(st.history, r.seqno), k, r.seqno);
    }
  }

  lemma HistoryIsDistinct(st: Store)
    requires Inv(st)
    ensures DistinctVersions(st.history)
  {
    UniqueIsDistinct(st.history, st.history);
  }

  lemma ReaderPrefix(st: Store, id: nat) returns (n: nat)
    requires Inv(st) && id in st.readers
    ensures n <= |st.groups| && UpTo(st.history, st.readers[id].seqno) == EntriesIn(st.groups[..n])
  {
    hide VersionOk, MemtablesOk, SnapshotsOk, MergeOk, Whole;
    var s := st.readers[id].seqno;
    n := VisiblePrefix(st.groups, s);
    assert ReaderOk(st.readers[id], st.starts, st.history, st.lastSequence);
    assert UpTo(st.history, s) == UpTo(EntriesIn(st.groups), s);
  }

  /** What a reader can see never changes: later steps only add entries beyond every sequence number
      handed out so far. */
  lemma ReadsNeverChange(lt: Order, st: Store, step: Step, id: nat, k: Key)
    requires TotalOrder(lt) && Inv(st) && Enabled(lt, st, step)
    requires id in st.readers && id in Do(lt, st, step).readers
    ensures Inv(Do(lt, st, step)) && Do(lt, st, step).readers[id] == st.readers[id]
    ensures GetResult(Do(lt, st, step).memtables, st.readers[id], k) == GetResult(st.memtables, st.readers[id], k)
  {
    hide Enabled, Do, SequenceOk, VersionOk, MemtablesOk, SnapshotsOk, MergeOk, AtomicOk, HistoryOk, ReadersOk;
    StepKeeps(lt, st, step);
    ReaderFinds(st, id, k);
    HistoryGrows(lt, st, step, id);
    ReaderFinds(Do(lt, st, step), id, k);
    HistoryIsDistinct(Do(lt, st, step));
    ReadIgnoresLater(Do(lt, st, step).history, st.history, k, st.readers[id].seqno);
  }

  lemma HistoryGrows(lt: Order, st: Store, step: Step, id: nat)
    requires Inv(st) && Enabled(lt, st, step) && id in st.readers && id in Do(lt, st, step).readers
    ensures var st' := Do(lt, st, step);
            && st'.readers[id] == st.readers[id] && st.history <= st'.history
            && forall e :: e in st'.history && e.seqno <= st.readers[id].seqno ==> e in st.history
  {
    hide VersionOk, MemtablesOk, SnapshotsOk, MergeOk, AtomicOk, HistoryOk, Fits, HidesNothing, Merged, Closed;
    assert ReaderOk(st.readers[id], st.starts, st.history, st.lastSequence);
  }

  /** What the engine holds now reads like everything ever written, at `lastSequence` and at every
      snapshot, however much the compactions of the run have thrown away. */
  lemma CompactionsForgetNothingVisible(lt: Order, sts: seq<Store>, steps: seq<Step>, i: nat, s: nat, k: Key)
    requires TotalOrder(lt) && IsRun(lt, sts, steps) && i < |sts|
    requires s == sts[i].lastSequence || s in sts[i].snapshots
    ensures Inv(sts[i]) && sts[i].floor <= s
    ensures var st := sts[i];
            Read(AllOf(st.version) + Live(st), k, s) == Read(st.history, k, s)
  {
    RunInv(lt, sts, steps, i);
    CurrentReads(sts[i], k, s);
  }

  /** What the memtables in use hold. */
  ghost function Live(st: Store): set<Entry>
    requires Shaped(st)
  {
    st.memtables[|st.memtables| - 1] + if st.immutable then st.memtables[|st.memtables| - 2] else {}
  }

  lemma CurrentReads(st: Store, k: Key, s: nat)
    requires Inv(st) && (s == st.lastSequence || s in st.snapshots)
    ensures st.floor <= s
    ensures Read(AllOf(st.version) + Live(st), k, s) == Read(st.history, k, s)
  {
    hide SameFrom, LevelOrder, MergeOk, ReadersOk, AtomicOk, HistoryOk;
    var live, held, past := Live(st), AllOf(st.version), Flushed(st);
    LiveIsRest(st);
    UniqueIsDistinct(st.history, live + past);
    UniqueIsDistinct(st.history, live + held);
    SameUnder(st.floor, live, held, past);
    assert live + past == st.history && held + live == live + held;
    AtFloor(st.floor, live + held, live + past, k, s);
  }

  lemma AtFloor(floor: nat, a: set<Entry>, b: set<Entry>, k: Key, s: nat)
    requires SameFrom(floor, a, b) && s >= floor
    ensures Read(a, k, s) == Read(b, k, s)
  {
  }

  /** The live memtables hold exactly what has not been flushed. */
  lemma LiveIsRest(st: Store)
    requires Shaped(st) && MemtablesOk(st.memtables, st.starts, st.history, st.lastSequence)
    ensures Live(st) ==
            set e | e in st.history && e.seqno > st.starts[OldestLive(st)]
  {
  }
}
