/** The search for a key in a version: level 0 file by file, newest first, and below it one file a level. */
module LevelSearch {
  import opened Entries
  import opened Versions
  import opened Picking
  import LevelRuns
  import MemTable

  /** A version as the engine has it: valid files, and sorted runs below level 0. */
  ghost predicate WellFormed(lt: Order, levels: seq<seq<File>>) {
    && |levels| == NUM_LEVELS
    && (forall l, f :: 0 <= l < NUM_LEVELS && f in levels[l] ==> ValidFile(lt, f))
    && (forall l :: 1 <= l < NUM_LEVELS ==> SortedLevel(lt, levels[l]))
    && LevelOrder(VersionOf(levels)) && DistinctVersions(AllOf(VersionOf(levels)))
  }

  // ----- One table -----

  /** Where a table's iterator lands when it seeks t. */
  function SeekFrom(lt: Order, es: seq<Entry>, t: Entry, i: nat): (n: nat)
    requires i <= |es|
    ensures i <= n <= |es| && forall j :: i <= j < n ==> Before(lt, es[j], t)
    ensures n < |es| ==> !Before(lt, es[n], t)
    decreases |es| - i
  {
    if i < |es| && Before(lt, es[i], t) then SeekFrom(lt, es, t, i + 1) else i
  }

  /** The table's answer: nothing, a value, or a deletion marker. */
  function TableGet(lt: Order, f: File, k: Key, s: nat): Option<Option<Value>> {
    var n := SeekFrom(lt, f.es, Entry(k, s, Put, []), 0);
    if n < |f.es| && f.es[n].key == k then Some(Outcome(f.es[n])) else None
  }

  lemma TableGetIsVisible(lt: Order, f: File, k: Key, s: nat)
    requires TotalOrder(lt) && ValidFile(lt, f) && DistinctVersions(Elements(f.es))
    ensures TableGet(lt, f, k, s) == Visible(Elements(f.es), k, s)
  {
    hide Sorted, TotalOrder, DistinctVersions, Before;
    var t := Entry(k, s, Put, []);
    MemTable.MemTable.SeekFindsNewest(lt, f.es, t, SeekFrom(lt, f.es, t, 0));
  }

  // ----- Level 0 -----

  ghost predicate NewestFirst(files: seq<File>) {
    forall i, j :: 0 <= i < j < |files| ==> files[i].number >= files[j].number
  }

  function Insert(f: File, files: seq<File>): (r: seq<File>)
    requires NewestFirst(files)
    ensures NewestFirst(r) && forall g :: g in r <==> g == f || g in files
  {
    if files == [] || f.number > files[0].number then [f] + files
    else
      var rest := Insert(f, files[1..]);
      assert forall j :: 0 <= j < |rest| ==> rest[j] in rest;
      [files[0]] + rest
  }

  function SortNewestFirst(files: seq<File>): (r: seq<File>)
    ensures NewestFirst(r) && forall g :: g in r <==> g in files
  {
    if files == [] then [] else Insert(files[0], SortNewestFirst(files[1..]))
  }

  /** The first table that holds a visible version, newest first, decides what level 0 holds. */
  lemma NewestDecides(v: Version, t: Table, k: Key, s: nat)
    requires LevelOrder(v) && DistinctVersions(AllOf(v)) && t in AtLevel(v, 0) && HasVersion(t.es, k, s)
    requires forall u :: u in AtLevel(v, 0) && u.number > t.number ==> !HasVersion(u.es, k, s)
    ensures Visible(AllOf(AtLevel(v, 0)), k, s) == Visible(t.es, k, s)
  {
    hide Read;
    var all := AllOf(AtLevel(v, 0));
    assert t.es <= all <= AllOf(v);
    NewestExists(t.es, k, s);
    var n :| IsNewest(t.es, k, s, n);
    forall e | e in all && e.key == k && e.seqno <= s ensures e.seqno <= n.seqno {
      var u :| u in AtLevel(v, 0) && e in u.es;
      assert u.number == t.number ==> u == t;
      assert u.number < t.number ==> SearchedBefore(t, u);
    }
    ReadIs(all, k, s, n);
    ReadIs(t.es, k, s, n);
  }

  lemma NoneDecides(v: Version, k: Key, s: nat)
    requires forall u :: u in v ==> !HasVersion(u.es, k, s)
    ensures Visible(AllOf(v), k, s) == None
  {
  }

  /** A table whose range leaves the key out holds no version of it. */
  lemma OutOfRange(lt: Order, f: File, k: Key, s: nat)
    requires TotalOrder(lt) && ValidFile(lt, f) && (lt(k, Smallest(f).key) || lt(Largest(f).key, k))
    ensures !HasVersion(Elements(f.es), k, s)
  {
    if HasVersion(Elements(f.es), k, s) {
      var e :| e in Elements(f.es) && e.key == k && e.seqno <= s;
      EndsInOrder(lt, f);
      HolderOverlaps(lt, f, e, k, k);
    }
  }

  lemma FileDistinct(lt: Order, levels: seq<seq<File>>, l: nat, f: File)
    requires WellFormed(lt, levels) && l < NUM_LEVELS && f in levels[l]
    ensures ValidFile(lt, f) && DistinctVersions(Elements(f.es)) && DistinctVersions(EntriesIn(levels[l]))
    ensures AtLevelTable(f, l) in AtLevel(VersionOf(levels), l) && AtLevelTable(f, l).es == Elements(f.es)
  {
    LevelTables(levels, l);
    assert Elements(f.es) <= EntriesIn(levels[l]);
  }

  lemma LevelCount(lt: Order, levels: seq<seq<File>>)
    requires WellFormed(lt, levels)
    ensures |levels| == NUM_LEVELS
  {
  }

  /** Level 0: the files whose range holds the key, from the newest to the oldest. */
  method GetLevel0(lt: Order, levels: seq<seq<File>>, k: Key, s: nat) returns (r: Option<Option<Value>>)
    requires TotalOrder(lt) && WellFormed(lt, levels)
    ensures r == Visible(EntriesIn(levels[0]), k, s)
  {
    hide WellFormed, Visible, HasVersion, EntriesIn, ValidFile, TotalOrder, VersionOf, TableGet;
    LevelCount(lt, levels);
    var tmp := [];
    for i := 0 to |levels[0]|
      invariant forall f :: f in tmp ==> f in levels[0]
      invariant forall f :: f in levels[0][..i] && f !in tmp ==> !HasVersion(Elements(f.es), k, s)
    {
      var f := levels[0][i];
      FileDistinct(lt, levels, 0, f);
      if !lt(k, Smallest(f).key) && !lt(Largest(f).key, k) {
        tmp := tmp + [f];
      } else {
        OutOfRange(lt, f, k, s);
      }
    }
    var files := SortNewestFirst(tmp);
    for i := 0 to |files|
      invariant forall j :: 0 <= j < i ==> !HasVersion(Elements(files[j].es), k, s)
    {
      var f := files[i];
      FileDistinct(lt, levels, 0, f);
      TableGetIsVisible(lt, f, k, s);
      r := TableGet(lt, f, k, s);
      if r.Some? {
        FirstDecides(lt, levels, files, i, k, s);
        return;
      }
      NotVisible(Elements(f.es), k, s);
    }
    r := None;
    NothingAtLevel0(lt, levels, k, s);
  }

  lemma NotVisible(es: set<Entry>, k: Key, s: nat)
    ensures Visible(es, k, s) == None <==> !HasVersion(es, k, s)
  {
  }

  lemma FirstDecides(lt: Order, levels: seq<seq<File>>, files: seq<File>, i: nat, k: Key, s: nat)
    requires WellFormed(lt, levels) && i < |files| && NewestFirst(files) && (forall f :: f in files ==> f in levels[0])
    requires forall f :: f in levels[0] && f !in files ==> !HasVersion(Elements(f.es), k, s)
    requires forall j :: 0 <= j < i ==> !HasVersion(Elements(files[j].es), k, s)
    requires Visible(Elements(files[i].es), k, s).Some?
    ensures Visible(EntriesIn(levels[0]), k, s) == Visible(Elements(files[i].es), k, s)
  {
    hide HasVersion, ValidFile, EntriesIn, LevelOrder, DistinctVersions;
    var v, t := VersionOf(levels), AtLevelTable(files[i], 0);
    FileDistinct(lt, levels, 0, files[i]);
    LevelTables(levels, 0);
    forall u | u in AtLevel(v, 0) && u.number > t.number ensures !HasVersion(u.es, k, s) {
      var f :| f in levels[0] && u == AtLevelTable(f, 0);
      assert u.es == Elements(f.es);
      if f in files {
        var j :| 0 <= j < |files| && files[j] == f;
        assert j < i;
      }
    }
    NewestDecides(v, t, k, s);
  }

  lemma NothingAtLevel0(lt: Order, levels: seq<seq<File>>, k: Key, s: nat)
    requires WellFormed(lt, levels) && forall f :: f in levels[0] ==> !HasVersion(Elements(f.es), k, s)
    ensures Visible(EntriesIn(levels[0]), k, s) == None
  {
    hide HasVersion, ValidFile, LevelOrder, DistinctVersions;
    LevelTables(levels, 0);
    forall u | u in AtLevel(VersionOf(levels), 0) ensures !HasVersion(u.es, k, s) {
      var f :| f in levels[0] && u == AtLevelTable(f, 0);
      assert u.es == Elements(f.es);
    }
    NoneDecides(AtLevel(VersionOf(levels), 0), k, s);
  }

  // ----- Below level 0 -----

  /** One binary search, and at most one table. */
  method GetLevel(lt: Order, levels: seq<seq<File>>, level: nat, k: Key, s: nat) returns (r: Option<Option<Value>>)
    requires TotalOrder(lt) && WellFormed(lt, levels) && 1 <= level < NUM_LEVELS
    ensures r == Visible(EntriesIn(levels[level]), k, s)
  {
    hide HasVersion, EntriesIn, ValidFile, TotalOrder, VersionOf, TableGet, SortedLevel, DistinctVersions, LevelOrder;
    var files := levels[level];
    LevelDistinct(lt, levels, level);
    var index := FindFile(lt, files, Entry(k, s, Put, []));
    OneFileDecides(lt, files, k, s, index);
    if index >= |files| {
      return None;
    }
    var f := files[index];
    FileDistinct(lt, levels, level, f);
    if lt(k, Smallest(f).key) {
      OutOfRange(lt, f, k, s);
      return None;
    }
    TableGetIsVisible(lt, f, k, s);
    r := TableGet(lt, f, k, s);
  }

  lemma LevelDistinct(lt: Order, levels: seq<seq<File>>, level: nat)
    requires WellFormed(lt, levels) && level < NUM_LEVELS
    ensures DistinctVersions(EntriesIn(levels[level]))
  {
    LevelTables(levels, level);
  }

  // ----- The whole version -----

  /** `Version::Get` finds exactly what all tables of the version together hold. */
  method Get(lt: Order, levels: seq<seq<File>>, k: Key, s: nat) returns (r: Option<Option<Value>>)
    requires TotalOrder(lt) && WellFormed(lt, levels)
    ensures r == Visible(AllOf(VersionOf(levels)), k, s)
  {
    hide Visible, HasVersion, EntriesIn, ValidFile, TotalOrder, VersionOf, SortedLevel, DistinctVersions, LevelOrder;
    hide Newer, AllOf;
    ghost var v := VersionOf(levels);
    WholeBelow(v);
    for level := 0 to NUM_LEVELS
      invariant Visible(AllOf(v), k, s) == Visible(AllOf(Below(v, level)), k, s)
    {
      if level == 0 {
        r := GetLevel0(lt, levels, k, s);
      } else {
        r := GetLevel(lt, levels, level, k, s);
      }
      NextLevel(lt, levels, level, k, s);
      if r.Some? {
        return;
      }
    }
    r := None;
    NothingBelow(lt, levels, k, s);
  }

  lemma WholeBelow(v: Version)
    ensures Below(v, 0) == v
  {
  }

  lemma NextLevel(lt: Order, levels: seq<seq<File>>, level: nat, k: Key, s: nat)
    requires WellFormed(lt, levels) && level < NUM_LEVELS
    ensures var v, here := VersionOf(levels), Visible(EntriesIn(levels[level]), k, s);
            Visible(AllOf(Below(v, level)), k, s) ==
            if here.Some? then here else Visible(AllOf(Below(v, level + 1)), k, s)
  {
    hide Visible, ValidFile, SortedLevel, Newer, LevelOrder;
    var v := VersionOf(levels);
    LevelTables(levels, level);
    ShallowerIsNewer(v, level);
    assert AllOf(Below(v, level)) <= AllOf(v);
    VisibleLayered(AllOf(AtLevel(v, level)), AllOf(Below(v, level + 1)), k, s);
  }

  lemma NothingBelow(lt: Order, levels: seq<seq<File>>, k: Key, s: nat)
    requires WellFormed(lt, levels)
    ensures Visible(AllOf(Below(VersionOf(levels), NUM_LEVELS)), k, s) == None
  {
    hide ValidFile, SortedLevel, Newer;
    assert Below(VersionOf(levels), NUM_LEVELS) == {};
    NoneDecides({}, k, s);
  }

  /** In every run whose compactions are picked without gaps, a version in search order is well formed at
      every point: the search finds what the version holds. */
  lemma RunWellFormed(lt: Order, sts: seq<LevelRuns.Runs>, steps: seq<LevelRuns.Step>, i: nat)
    requires TotalOrder(lt) && LevelRuns.IsRun(lt, sts, steps) && i < |sts|
    requires forall j :: 0 <= j < |steps| ==> LevelRuns.Automatic(lt, steps[j])
    requires LevelOrder(VersionOf(sts[i].levels)) && DistinctVersions(AllOf(VersionOf(sts[i].levels)))
    ensures WellFormed(lt, sts[i].levels)
  {
    hide LevelOrder, DistinctVersions, LevelRuns.Next;
    LevelRuns.AutomaticRunKeeps(lt, sts, steps, i);
  }
}
