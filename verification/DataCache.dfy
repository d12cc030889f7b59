/** Nuke's disk cache: changes are staged in memory and flushed to disk by a serial queue. */
module DataCache {
  import opened Entries

  type Data = seq<Byte>
  type Name = string

  datatype ChangeType = Add(data: Data) | Remove

  datatype Change = Change(id: nat, kind: ChangeType)

  /** A struct: copying it takes a snapshot. */
  datatype Staging = Staging(changes: map<Name, Change>, removeAll: Option<nat>, nextChangeId: nat) {
    function ChangeFor(key: Name): Option<ChangeType> {
      if key in changes then Some(changes[key].kind)
      else if removeAll.Some? then Some(Remove)
      else None
    }

    function Adding(key: Name, kind: ChangeType): Staging {
      Staging(changes[key := Change(nextChangeId + 1, kind)], removeAll, nextChangeId + 1)
    }

    function RemovingAll(): Staging {
      Staging(map[], Some(nextChangeId + 1), nextChangeId + 1)
    }

    function WithoutChange(key: Name, change: Change): Staging {
      if key in changes && changes[key].id == change.id then this.(changes := changes - {key}) else this
    }

    /** What stays staged once a snapshot is on disk: whatever was staged after it was taken. */
    function Without(snapshot: Staging): Staging {
      var left := map k | k in changes && !(k in snapshot.changes && snapshot.changes[k].id == changes[k].id) ::
        changes[k];
      Staging(left, if snapshot.removeAll.Some? && removeAll == snapshot.removeAll then None else removeAll,
              nextChangeId)
    }
  }

  function Stored(kind: ChangeType): Option<Data> {
    match kind case Add(data) => Some(data) case Remove => None
  }

  function Get(m: map<Name, Data>, key: Name): Option<Data> {
    if key in m then Some(m[key]) else None
  }

  function Applied(m: map<Name, Data>, key: Name, kind: ChangeType): map<Name, Data> {
    match kind case Add(data) => m[key := data] case Remove => m - {key}
  }

  /** The source's loop over the snapshot's changes, in whatever order the dictionary gives them. */
  method Flushed(staging: Staging, snapshot: Staging) returns (r: Staging)
    ensures r == staging.Without(snapshot)
  {
    r := staging;
    var todo := snapshot.changes.Keys;
    while todo != {}
      invariant todo <= snapshot.changes.Keys
      invariant r.removeAll == staging.removeAll && r.nextChangeId == staging.nextChangeId
      invariant forall k :: k in r.changes <==>
        k in staging.changes && !(k in snapshot.changes - todo && snapshot.changes[k].id == staging.changes[k].id)
      invariant forall k :: k in r.changes ==> r.changes[k] == staging.changes[k]
      decreases todo
    {
      var k :| k in todo;
      todo := todo - {k};
      r := r.WithoutChange(k, snapshot.changes[k]);
    }
    assert r.changes == staging.Without(snapshot).changes;
    if snapshot.removeAll.Some? && r.removeAll == snapshot.removeAll {
      r := r.(removeAll := None);
    }
  }

  /** A flush under way: the snapshot it works from and what it has still to do on disk. */
  datatype Work = Work(snapshot: Staging, removeAllDue: bool, todo: set<Name>)

  /** A flush of one key under way. */
  datatype Single = Single(key: Name, change: Change, performed: bool)

  /** What a reader finds: the staging area first, then the disk. */
  function Shows(named: Name -> bool, staging: Staging, disk: map<Name, Data>, key: Name): Option<Data> {
    match staging.ChangeFor(key)
    case Some(kind) => Stored(kind)
    case None => if named(key) then Get(disk, key) else None
  }

  /** The cache behaves like the dictionary. */
  ghost predicate Agree(named: Name -> bool, staging: Staging, disk: map<Name, Data>, contents: map<Name, Data>) {
    forall key {:trigger Get(contents, key)} :: named(key) ==> Shows(named, staging, disk, key) == Get(contents, key)
  }

  ghost predicate WellStaged(s: Staging) {
    && (forall k :: k in s.changes ==> s.changes[k].id <= s.nextChangeId)
    && (s.removeAll.Some? ==> s.removeAll.value <= s.nextChangeId)
  }

  /** What the flush under way will leave on disk for a key. */
  function Target(w: Work, disk: map<Name, Data>, key: Name): Option<Data> {
    if key in w.todo && key in w.snapshot.changes then Stored(w.snapshot.changes[key].kind)
    else if w.removeAllDue then None
    else Get(disk, key)
  }

  /** Since the snapshot a key was staged anew, or everything was removed, or nothing happened to it. */
  ghost predicate SinceSnapshot(staging: Staging, s: Staging, contents: map<Name, Data>,
                                contentsThen: map<Name, Data>, key: Name)
  {
    || (key in staging.changes && staging.changes[key].id > s.nextChangeId)
    || (key !in staging.changes && staging.removeAll.Some? && staging.removeAll.value > s.nextChangeId)
    || (&& (key in staging.changes <==> key in s.changes)
        && (key in staging.changes ==> staging.changes[key] == s.changes[key])
        && staging.removeAll == s.removeAll && Get(contents, key) == Get(contentsThen, key))
  }

  ghost predicate Tracks(staging: Staging, s: Staging, contents: map<Name, Data>, contentsThen: map<Name, Data>) {
    && s.nextChangeId <= staging.nextChangeId && WellStaged(s)
    && forall key :: SinceSnapshot(staging, s, contents, contentsThen, key)
  }

  /** The disk will hold what the dictionary held when the snapshot was taken. */
  ghost predicate WillHold(named: Name -> bool, w: Work, disk: map<Name, Data>, contentsThen: map<Name, Data>) {
    && w.todo <= w.snapshot.changes.Keys
    && (w.removeAllDue ==> w.snapshot.removeAll.Some? && w.todo == w.snapshot.changes.Keys)
    && forall key {:trigger Get(contentsThen, key)} :: named(key) ==> Target(w, disk, key) == Get(contentsThen, key)
  }

  /** Whatever the disk holds for the key being read, or will hold after the file operations under way,
      the dictionary has held since the read began. */
  ghost predicate ReadAgrees(named: Name -> bool, reading: Option<Name>, seen: set<Option<Data>>,
                             contents: map<Name, Data>, disk: map<Name, Data>, staging: Staging, work: Option<Work>,
                             single: Option<Single>)
  {
    reading.Some? && named(reading.value) ==>
      var key := reading.value;
      && Get(contents, key) in seen && Get(disk, key) in seen
      && (key in staging.changes ==> Stored(staging.changes[key].kind) in seen)
      && (staging.removeAll.Some? ==> None in seen)
      && (work.Some? ==>
            && (work.value.removeAllDue ==> None in seen)
            && (key in work.value.todo && key in work.value.snapshot.changes ==>
                  Stored(work.value.snapshot.changes[key].kind) in seen))
      && (single.Some? && single.value.key == key ==> Stored(single.value.change.kind) in seen)
  }

  ghost function SeenNow(reading: Option<Name>, seen: set<Option<Data>>, contents: map<Name, Data>): set<Option<Data>> {
    if reading.Some? then seen + {Get(contents, reading.value)} else seen
  }

  lemma StagingIsSeen(named: Name -> bool, reading: Option<Name>, seen: set<Option<Data>>, contents: map<Name, Data>,
                      disk: map<Name, Data>, staging: Staging, work: Option<Work>, single: Option<Single>,
                      key: Name, kind: ChangeType)
    requires ReadAgrees(named, reading, seen, contents, disk, staging, work, single)
    ensures var contents' := Applied(contents, key, kind);
            ReadAgrees(named, reading, SeenNow(reading, seen, contents'), contents', disk, staging.Adding(key, kind),
                       work, single)
    ensures ReadAgrees(named, reading, SeenNow(reading, seen, map[]), map[], disk, staging.RemovingAll(), work, single)
  {
  }

  /** What must hold of the flags: whatever is staged and not being flushed has a flush scheduled. */
  ghost predicate Scheduled(staging: Staging, work: Option<Work>, isFlushNeeded: bool, isFlushScheduled: bool,
                            queued: nat)
  {
    && (isFlushNeeded ==> isFlushScheduled)
    && (isFlushScheduled && work.None? ==> queued > 0 && isFlushNeeded)
    && (work.None? && (staging.changes != map[] || staging.removeAll.Some?) ==> isFlushNeeded)
    && (work.Some? && staging.Without(work.value.snapshot) != Staging(map[], None, staging.nextChangeId) ==>
        isFlushNeeded)
  }

  /** Staging one change, or the removal of everything, does to the cache what it does to the dictionary. */
  lemma StagingAgrees(named: Name -> bool, staging: Staging, disk: map<Name, Data>, contents: map<Name, Data>,
                      key: Name, kind: ChangeType)
    requires Agree(named, staging, disk, contents)
    ensures Agree(named, staging.Adding(key, kind), disk, Applied(contents, key, kind))
    ensures Agree(named, staging.RemovingAll(), disk, map[])
  {
    forall k | named(k)
      ensures Shows(named, staging.Adding(key, kind), disk, k) == Get(Applied(contents, key, kind), k)
    {
      assert k != key ==> Get(Applied(contents, key, kind), k) == Get(contents, k);
    }
  }

  lemma StagingTracks(staging: Staging, s: Staging, contents: map<Name, Data>, contentsThen: map<Name, Data>,
                      key: Name, kind: ChangeType)
    requires Tracks(staging, s, contents, contentsThen)
    ensures Tracks(staging.Adding(key, kind), s, Applied(contents, key, kind), contentsThen)
    ensures Tracks(staging.RemovingAll(), s, map[], contentsThen)
  {
    forall k ensures SinceSnapshot(staging.Adding(key, kind), s, Applied(contents, key, kind), contentsThen, k) {
      assert SinceSnapshot(staging, s, contents, contentsThen, k);
    }
  }

  /** While a flush is under way a reader does not depend on what it has yet to do to the disk. */
  lemma DiskHidden(named: Name -> bool, staging: Staging, w: Work, disk: map<Name, Data>, disk': map<Name, Data>,
                   contents: map<Name, Data>, contentsThen: map<Name, Data>)
    requires Agree(named, staging, disk, contents) && Tracks(staging, w.snapshot, contents, contentsThen)
    requires forall key :: named(key) && w.snapshot.ChangeFor(key) == None ==> Get(disk', key) == Get(disk, key)
    ensures Agree(named, staging, disk', contents)
  {
    forall key | named(key) ensures Shows(named, staging, disk', key) == Get(contents, key) {
      assert SinceSnapshot(staging, w.snapshot, contents, contentsThen, key);
      assert Shows(named, staging, disk, key) == Get(contents, key);
    }
  }

  /** Once everything is on disk, forgetting the snapshot's changes shows the disk instead. */
  lemma FlushedAgrees(named: Name -> bool, staging: Staging, w: Work, disk: map<Name, Data>,
                      contents: map<Name, Data>, contentsThen: map<Name, Data>)
    requires Agree(named, staging, disk, contents) && Tracks(staging, w.snapshot, contents, contentsThen)
    requires WillHold(named, w, disk, contentsThen) && !w.removeAllDue && w.todo == {}
    ensures Agree(named, staging.Without(w.snapshot), disk, contents)
  {
    forall key | named(key) ensures Shows(named, staging.Without(w.snapshot), disk, key) == Get(contents, key) {
      assert SinceSnapshot(staging, w.snapshot, contents, contentsThen, key);
      assert Shows(named, staging, disk, key) == Get(contents, key);
      assert Target(w, disk, key) == Get(contentsThen, key);
    }
  }

  class DataCache {
    /** Keys the filename generator has a name for; different keys get different names. */
    const named: Name -> bool
    var staging: Staging
    var isFlushNeeded: bool
    var isFlushScheduled: bool
    /** Flushes the serial queue has been asked to run later. */
    var queued: nat
    var disk: map<Name, Data>
    var work: Option<Work>
    var single: Option<Single>
    /** A read that found nothing staged and has not looked at the disk yet; and, as history, what a
        plain dictionary has held for that key since it began. */
    var reading: Option<Name>
    ghost var seen: set<Option<Data>>
    /** What a plain dictionary would hold, now and when the flush under way took its snapshot. */
    ghost var contents: map<Name, Data>
    ghost var contentsThen: map<Name, Data>

    constructor (named: Name -> bool, disk: map<Name, Data>)
      ensures Valid() && this.named == named && contents == disk
    {
      this.named, this.disk := named, disk;
      staging, isFlushNeeded, isFlushScheduled, queued := Staging(map[], None, 0), false, false, 0;
      work, single, contents, contentsThen := None, None, disk, disk;
      reading, seen := None, {};
    }

    function Shown(key: Name): Option<Data>
      reads this
    {
      Shows(named, staging, disk, key)
    }

    ghost predicate Agrees()
      reads this
    {
      Agree(named, staging, disk, contents)
    }

    ghost predicate WorkOk()
      reads this
    {
      work.Some? ==>
        && single.None? && Tracks(staging, work.value.snapshot, contents, contentsThen)
        && WillHold(named, work.value, disk, contentsThen)
    }

    ghost predicate SingleOk()
      reads this
    {
      single.Some? ==>
        var s := single.value;
        && s.change.id <= staging.nextChangeId
        && (s.key in staging.changes && staging.changes[s.key].id == s.change.id ==> staging.changes[s.key] == s.change)
        && (s.key in staging.changes || staging.removeAll.Some?)
        && (s.performed && named(s.key) ==> Get(disk, s.key) == Stored(s.change.kind))
    }

    ghost predicate ScheduleOk()
      reads this
    {
      Scheduled(staging, work, isFlushNeeded, isFlushScheduled, queued)
    }

    ghost predicate ReadOk()
      reads this
    {
      ReadAgrees(named, reading, seen, contents, disk, staging, work, single)
    }

    ghost predicate Valid()
      reads this
    {
      WellStaged(staging) && Agrees() && WorkOk() && SingleOk() && ScheduleOk() && ReadOk()
    }

    // ----- The public interface -----

    method CachedData(key: Name) returns (r: Option<Data>)
      requires Valid()
      ensures r == Shown(key) && (named(key) ==> r == Get(contents, key))
    {
      var change := staging.ChangeFor(key);
      if change.Some? {
        return match change.value case Add(data) => Some(data) case Remove => None;
      }
      r := if named(key) && key in disk then Some(disk[key]) else None;
    }

    /** The locked half of `cachedData`: what is staged, or else a read of the disk to come. */
    method BeginRead(key: Name) returns (change: Option<ChangeType>)
      requires Valid() && reading == None
      modifies this`reading, this`seen
      ensures Valid() && change == staging.ChangeFor(key)
      ensures change.Some? ==> reading == None && (named(key) ==> Stored(change.value) == Get(contents, key))
      ensures change.None? ==> reading == Some(key) && seen == {Get(contents, key)}
    {
      change := staging.ChangeFor(key);
      if change.None? {
        reading, seen := Some(key), {Get(contents, key)};
        NothingUnderWay(key);
      }
    }

    /** Nothing staged for a key, nothing under way for it either. */
    lemma NothingUnderWay(key: Name)
      requires WellStaged(staging) && WorkOk() && SingleOk() && staging.ChangeFor(key) == None
      ensures work.Some? ==> !work.value.removeAllDue && key !in work.value.snapshot.changes
      ensures single.Some? ==> single.value.key != key
    {
      if work.Some? {
        assert SinceSnapshot(staging, work.value.snapshot, contents, contentsThen, key);
      }
    }

    /** The unlocked half, any number of steps of other threads later: what it finds on disk is what the
        dictionary held at some moment since the read began. */
    method EndRead() returns (r: Option<Data>)
      requires Valid() && reading.Some?
      modifies this`reading
      ensures Valid() && reading == None
      ensures if named(old(reading.value)) then r in seen else r == None
    {
      var key := reading.value;
      r := if named(key) && key in disk then Some(disk[key]) else None;
      reading := None;
    }

    method StoreData(data: Data, key: Name)
      requires Valid()
      modifies this
      ensures Valid() && staging == old(staging).Adding(key, Add(data))
      ensures contents == old(contents)[key := data] && unchanged(`disk) && unchanged(`work) && unchanged(`single)
      ensures unchanged(`reading) && seen == SeenNow(reading, old(seen), contents) && (HidesAdd() ==> old(HidesAdd()))
    {
      hide Tracks, Agree, WillHold, ReadAgrees, Scheduled;
      ghost var was := staging;
      StagingAgrees(named, staging, disk, contents, key, Add(data));
      StagingIsSeen(named, reading, seen, contents, disk, staging, work, single, key, Add(data));
      if work.Some? {
        StagingTracks(staging, work.value.snapshot, contents, contentsThen, key, Add(data));
      }
      staging := staging.Adding(key, Add(data));
      contents := contents[key := data];
      seen := SeenNow(reading, seen, contents);
      SetNeedsFlushChanges(was);
    }

    method RemoveData(key: Name)
      requires Valid()
      modifies this
      ensures Valid() && staging == old(staging).Adding(key, Remove)
      ensures contents == old(contents) - {key} && unchanged(`disk) && unchanged(`work) && unchanged(`single)
      ensures unchanged(`reading) && seen == SeenNow(reading, old(seen), contents) && (HidesAdd() ==> old(HidesAdd()))
    {
      hide Tracks, Agree, WillHold, ReadAgrees, Scheduled;
      ghost var was := staging;
      StagingAgrees(named, staging, disk, contents, key, Remove);
      StagingIsSeen(named, reading, seen, contents, disk, staging, work, single, key, Remove);
      if work.Some? {
        StagingTracks(staging, work.value.snapshot, contents, contentsThen, key, Remove);
      }
      staging := staging.Adding(key, Remove);
      contents := contents - {key};
      seen := SeenNow(reading, seen, contents);
      SetNeedsFlushChanges(was);
    }

    method RemoveAll()
      requires Valid()
      modifies this
      ensures Valid() && staging == old(staging).RemovingAll()
      ensures contents == map[] && unchanged(`disk) && unchanged(`work) && unchanged(`single)
      ensures unchanged(`reading) && seen == SeenNow(reading, old(seen), contents) && (HidesAdd() ==> old(HidesAdd()))
    {
      hide Tracks, Agree, WillHold, ReadAgrees, Scheduled;
      ghost var was := staging;
      StagingAgrees(named, staging, disk, contents, "", Remove);
      StagingIsSeen(named, reading, seen, contents, disk, staging, work, single, "", Remove);
      if work.Some? {
        StagingTracks(staging, work.value.snapshot, contents, contentsThen, "", Remove);
      }
      staging := staging.RemovingAll();
      contents := map[];
      seen := SeenNow(reading, seen, contents);
      SetNeedsFlushChanges(was);
    }

    /** Called when something was staged; `was` is the staging area before. */
    method SetNeedsFlushChanges(ghost was: Staging)
      requires Scheduled(was, work, isFlushNeeded, isFlushScheduled, queued)
      modifies this`isFlushNeeded, this`isFlushScheduled, this`queued
      ensures isFlushNeeded && ScheduleOk()
    {
      if isFlushNeeded {
        return;
      }
      isFlushNeeded := true;
      ScheduleNextFlush();
    }

    method ScheduleNextFlush()
      modifies this`isFlushScheduled, this`queued
      ensures isFlushScheduled && queued == old(queued) + if old(isFlushScheduled) then 0 else 1
    {
      if isFlushScheduled {
        return;
      }
      isFlushScheduled := true;
      queued := queued + 1;
    }

    // ----- The serial queue -----

    /** A flush begins, from the queue or from a caller of `flush`: the first locked section. */
    method BeginFlush(fromQueue: bool)
      requires Valid() && work == None && single == None && (fromQueue ==> queued > 0)
      modifies this
      ensures Valid() && unchanged(`contents) && unchanged(`staging) && unchanged(`disk)
      ensures work.Some? == old(isFlushNeeded) && (work.Some? ==> work.value.snapshot == staging)
    {
      if fromQueue {
        queued := queued - 1;
      }
      if !isFlushNeeded {
        return;
      }
      work := Some(Work(staging, staging.removeAll.Some?, staging.changes.Keys));
      isFlushNeeded := false;
      contentsThen := contents;
    }

    /** The directory is removed and made anew. */
    method PerformRemoveAll()
      requires Valid() && work.Some? && work.value.removeAllDue
      modifies this`disk, this`work
      ensures Valid() && disk == map[] && work == Some(old(work.value).(removeAllDue := false))
    {
      hide Tracks, Agree;
      DiskHidden(named, staging, work.value, disk, map[], contents, contentsThen);
      disk := map[];
      work := Some(work.value.(removeAllDue := false));
    }

    /** One change is applied to disk; the dictionary decides the order. */
    method PerformChange(key: Name)
      requires Valid() && work.Some? && !work.value.removeAllDue && key in work.value.todo
      modifies this`disk, this`work
      ensures Valid() && work == Some(old(work.value).(todo := old(work.value.todo) - {key}))
      ensures disk == if named(key) then Applied(old(disk), key, old(work.value).snapshot.changes[key].kind)
                 else old(disk)
    {
      hide Tracks, Agree;
      var w := work.value;
      DiskHidden(named, staging, w, disk, Applied(disk, key, w.snapshot.changes[key].kind), contents, contentsThen);
      if named(key) {
        disk := Applied(disk, key, w.snapshot.changes[key].kind);
      }
      work := Some(w.(todo := w.todo - {key}));
    }

    /** The last locked section: forget what the snapshot held, and go on if more was staged. */
    method EndFlush()
      requires Valid() && work.Some? && !work.value.removeAllDue && work.value.todo == {}
      modifies this
      ensures Valid() && unchanged(`contents) && unchanged(`disk) && work == None
      ensures staging == old(staging.Without(work.value.snapshot))
    {
      hide Tracks, Agree, WillHold;
      var w := work.value;
      FlushedAgrees(named, staging, w, disk, contents, contentsThen);
      staging := Flushed(staging, w.snapshot);
      work := None;
      isFlushScheduled := false;
      if isFlushNeeded {
        ScheduleNextFlush();
      }
    }

    // ----- Flushing one key -----

    method BeginFlushFor(key: Name)
      requires Valid() && work == None && single == None
      modifies this`single
      ensures Valid() && single.Some? == (key in staging.changes)
      ensures single.Some? ==> single.value == Single(key, staging.changes[key], false)
      ensures HidesAdd() <==> WouldHideAdd(key)
    {
      if key in staging.changes {
        single := Some(Single(key, staging.changes[key], false));
      }
    }

    method PerformFor()
      requires Valid() && work == None && single.Some?
      modifies this`disk, this`single
      ensures Valid() && single == Some(old(single.value).(performed := true))
      ensures var s := old(single.value);
        disk == if named(s.key) then Applied(old(disk), s.key, s.change.kind) else old(disk)
      ensures HidesAdd() == old(HidesAdd())
    {
      var s := single.value;
      if named(s.key) {
        disk := Applied(disk, s.key, s.change.kind);
      }
      single := Some(s.(performed := true));
    }

    /** What a caller of `flush(for:)` can check first: the key is staged to be added, and a removal of
        everything is staged too. */
    predicate WouldHideAdd(key: Name)
      reads this
    {
      staging.removeAll.Some? && named(key) && key in staging.changes && staging.changes[key].kind.Add?
    }

    /** An add is dropped from the staging area while a removal of everything is still waiting there. */
    predicate HidesAdd()
      reads this
    {
      && single.Some? && single.value.change.kind.Add? && named(single.value.key) && staging.removeAll.Some?
      && single.value.key in staging.changes && staging.changes[single.value.key].id == single.value.change.id
    }

    /** The last step of `flush(for:)`. The cache still behaves like the dictionary exactly when no
        pending removal of everything comes to hide, and later to delete, what was just written. */
    method EndFlushFor()
      requires Valid() && work == None && single.Some? && single.value.performed
      modifies this`staging, this`single
      ensures single == None && staging == old(staging.WithoutChange(single.value.key, single.value.change))
      ensures Agrees() <==> !old(HidesAdd())
      ensures !old(HidesAdd()) ==> Valid()
    {
      var s := single.value;
      ghost var hides := HidesAdd();
      staging := staging.WithoutChange(s.key, s.change);
      single := None;
      if hides {
        assert Shown(s.key) == None && Get(contents, s.key).Some?;
      }
    }

    /** `flush(for:)` without interruption. The cache still behaves like the dictionary exactly when it
        was not called for an added key under a pending removal of everything; otherwise the key now
        looks absent. */
    method FlushFor(key: Name)
      requires Valid() && work == None && single == None
      modifies this`staging, this`disk, this`single
      ensures single == None && work == None
      ensures Agrees() <==> !old(WouldHideAdd(key))
      ensures if old(WouldHideAdd(key)) then Shown(key) == None && Get(contents, key).Some? else Valid()
    {
      BeginFlushFor(key);
      if single.Some? {
        PerformFor();
        EndFlushFor();
      }
    }

    /** `flush` without interruption: what the cache shows, right or wrong, is then what the disk holds. */
    method Flush()
      requires work == None && single == None
      modifies this
      ensures unchanged(`contents) && !isFlushNeeded
      ensures old(isFlushNeeded) ==>
        && staging.changes == map[] && staging.removeAll == None
        && forall key :: named(key) ==> Get(disk, key) == old(Shown(key))
      ensures !old(isFlushNeeded) ==> unchanged(this)
    {
      if !isFlushNeeded {
        return;
      }
      var snapshot := staging;
      isFlushNeeded := false;
      ghost var was := disk;
      if snapshot.removeAll.Some? {
        disk := map[];
      }
      var todo := snapshot.changes.Keys;
      while todo != {}
        invariant todo <= snapshot.changes.Keys && staging == snapshot && !isFlushNeeded && unchanged(`contents)
        invariant forall key {:trigger Get(disk, key)} :: named(key) ==>
          (Get(disk, key) == if key in snapshot.changes && key !in todo then Stored(snapshot.changes[key].kind)
                             else if snapshot.removeAll.Some? then None else Get(was, key))
        decreases todo
      {
        var key :| key in todo;
        ghost var before := disk;
        if named(key) {
          disk := Applied(disk, key, snapshot.changes[key].kind);
        }
        assert forall k :: k != key ==> Get(disk, k) == Get(before, k);
        todo := todo - {key};
      }
      staging := Flushed(staging, snapshot);
      isFlushScheduled := false;
      assert staging.changes == map[];
    }

    /** From any state in which `flush(for:)` hides an added key, the next flush deletes it. */
    method FlushForDeletes(key: Name)
      requires Valid() && work == None && single == None && WouldHideAdd(key)
      modifies this
      ensures key in contents && contents == old(contents) && key !in disk
    {
      FlushFor(key);
      Flush();
      assert Get(disk, key) == None;
    }
  }

  /** Such a state comes from `removeAll` and `storeData` in a row, on any cache. */
  method RemoveAllThenStore(cache: DataCache, key: Name, data: Data)
    requires cache.Valid() && cache.work == None && cache.single == None && cache.named(key)
    modifies cache
    ensures cache.contents == map[key := data] && key !in cache.disk
  {
    cache.RemoveAll();
    cache.StoreData(data, key);
    cache.FlushForDeletes(key);
  }
}
