/** How a compaction chooses its inputs, and exactly when the choice is safe. */
module Picking {
  import opened Entries
  import opened Versions
  import C = Compaction

  /** A table file as the picker sees it: its entries in table order. No table is empty. */
  datatype FileMetaData = FileMetaData(number: nat, es: seq<Entry>)

  type File = f: FileMetaData | f.es != [] witness FileMetaData(0, [Entry([], 0, Put, [])])

  function Smallest(f: File): Entry {
    f.es[0]
  }

  function Largest(f: File): Entry {
    f.es[|f.es| - 1]
  }

  ghost predicate ValidFile(lt: Order, f: File) {
    Sorted(lt, f.es)
  }

  /** A level below level 0: one sorted run. Neighbouring files may share a user key. */
  ghost predicate SortedLevel(lt: Order, files: seq<File>) {
    && (forall f :: f in files ==> ValidFile(lt, f))
    && (forall i, j :: 0 <= i < j < |files| ==> Before(lt, Largest(files[i]), Smallest(files[j])))
  }

  function AtLevelTable(f: File, level: nat): Table {
    Table(f.number, level, set e | e in f.es)
  }

  predicate Overlaps(lt: Order, f: File, lo: Key, hi: Key)
  {
    AtMost(lt, lo, Largest(f).key) && AtMost(lt, Smallest(f).key, hi)
  }

  ghost predicate ShareKey(f: File, g: File) {
    exists x, y :: x in f.es && y in g.es && x.key == y.key
  }

  ghost predicate NewerFile(f: File, g: File) {
    forall x, y :: x in f.es && y in g.es && x.key == y.key ==> x.seqno > y.seqno
  }

  /** A file that continues the last user key of what was chosen. */
  predicate IsBoundary(lt: Order, f: File, largest: Entry)
  {
    Before(lt, largest, Smallest(f)) && Smallest(f).key == largest.key
  }

  lemma BeforeTransitive(lt: Order, a: Entry, b: Entry, c: Entry)
    requires TotalOrder(lt) && Before(lt, a, b) && Before(lt, b, c)
    ensures Before(lt, a, c)
  {
  }

  /** Files the source compares by their ends only are ordered throughout. */
  lemma EndsOrderAll(lt: Order, f: File, g: File, x: Entry, y: Entry)
    requires TotalOrder(lt) && ValidFile(lt, f) && ValidFile(lt, g) && Before(lt, Largest(f), Smallest(g))
    requires x in f.es && y in g.es
    ensures Before(lt, x, y)
    ensures x.key == y.key ==> Largest(f).key == x.key == Smallest(g).key
  {
    var i :| 0 <= i < |f.es| && f.es[i] == x;
    var j :| 0 <= j < |g.es| && g.es[j] == y;
    assert i == |f.es| - 1 || Before(lt, f.es[i], f.es[|f.es| - 1]);
    assert j == 0 || Before(lt, g.es[0], g.es[j]);
  }

  /** Among the files of one sorted run, whatever lies between two chosen files is chosen. */
  ghost predicate Convex(lt: Order, files: seq<File>, chosen: seq<File>) {
    && (forall f :: f in chosen ==> f in files)
    && forall a, f, b :: a in chosen && b in chosen && f in files && Between(lt, a, f, b) ==> f in chosen
  }

  predicate Between(lt: Order, a: File, f: File, b: File) {
    Before(lt, Largest(a), Smallest(f)) && Before(lt, Largest(f), Smallest(b))
  }

  /** Level-0 files overlap freely: no file left out may share a key with a chosen one. */
  ghost predicate Separate(files: seq<File>, chosen: seq<File>) {
    && (forall f :: f in chosen ==> f in files)
    && forall t, i :: t in files && t !in chosen && i in chosen ==> !ShareKey(t, i)
  }

  ghost predicate Settled(lt: Order, level: nat, files: seq<File>, chosen: seq<File>) {
    if level == 0 then Separate(files, chosen) else Convex(lt, files, chosen)
  }

  ghost predicate DistinctIn(files: seq<File>) {
    forall f, g, x, y :: f in files && g in files && x in f.es && y in g.es && x.key == y.key && x.seqno == y.seqno ==>
                           x == y
  }

  ghost predicate ValidLevel(lt: Order, level: nat, files: seq<File>) {
    (forall f :: f in files ==> ValidFile(lt, f)) && (level > 0 ==> SortedLevel(lt, files))
  }

  /** Nothing in the level continues the last user key of the chosen files. */
  ghost predicate BoundaryFree(lt: Order, files: seq<File>, chosen: seq<File>) {
    forall e, f :: IsLargestKey(lt, chosen, e) && f in files ==> !IsBoundary(lt, f, e)
  }

  /** Every file left out is newer, key by key, than every chosen one. */
  ghost predicate LeavesNewer(files: seq<File>, chosen: seq<File>) {
    forall t, i :: t in files && t !in chosen && i in chosen ==> NewerFile(t, i)
  }

  lemma SortedLevelOrders(lt: Order, files: seq<File>, f: File, g: File)
    requires SortedLevel(lt, files) && f in files && g in files && f != g
    ensures Before(lt, Largest(f), Smallest(g)) || Before(lt, Largest(g), Smallest(f))
  {
    var i :| 0 <= i < |files| && files[i] == f;
    var j :| 0 <= j < |files| && files[j] == g;
  }

  // ----- What the choice guarantees -----

  lemma LargestKeyExists(lt: Order, chosen: seq<File>)
    requires TotalOrder(lt) && chosen != []
    ensures exists e :: IsLargestKey(lt, chosen, e)
    decreases |chosen|
  {
    var last := chosen[|chosen| - 1];
    var rest := chosen[..|chosen| - 1];
    assert forall f :: f in chosen <==> f in rest || f == last;
    if rest == [] {
      assert IsLargestKey(lt, chosen, Largest(last));
    } else {
      LargestKeyExists(lt, rest);
      var e :| IsLargestKey(lt, rest, e);
      if Before(lt, e, Largest(last)) {
        forall f | f in chosen ensures !Before(lt, Largest(last), Largest(f)) {
          if Before(lt, Largest(last), Largest(f)) {
            BeforeTransitive(lt, e, Largest(last), Largest(f));
          }
        }
        assert IsLargestKey(lt, chosen, Largest(last));
      } else {
        assert IsLargestKey(lt, chosen, e);
      }
    }
  }

  /** A left-out file after a chosen one that shares its key continues the last chosen key. */
  lemma OlderNeighbourIsBoundary(lt: Order, files: seq<File>, chosen: seq<File>, t: File, i: File, x: Entry, y: Entry,
                                 e: Entry)
    requires TotalOrder(lt) && SortedLevel(lt, files) && Convex(lt, files, chosen)
    requires t in files && t !in chosen && i in chosen && Before(lt, Largest(i), Smallest(t))
    requires x in t.es && y in i.es && x.key == y.key
    requires IsLargestKey(lt, chosen, e)
    ensures IsBoundary(lt, t, e)
  {
    var m :| m in chosen && e == Largest(m);
    EndsOrderAll(lt, i, t, y, x);
    if m != i {
      SortedLevelOrders(lt, files, m, i);
      SortedLevelOrders(lt, files, m, t);
      assert !Before(lt, Largest(t), Smallest(m));
      if Before(lt, Largest(m), Smallest(i)) {
        EndsOrderAll(lt, m, i, Largest(m), Largest(i));
        assert false;
      }
      EndsOrderAll(lt, i, m, Largest(i), Largest(m));
    }
  }

  /** In a sorted run, a convex choice leaves out only newer versions exactly when no file continues
      its last user key. */
  lemma LeavesNewerIff(lt: Order, files: seq<File>, chosen: seq<File>)
    requires TotalOrder(lt) && SortedLevel(lt, files) && Convex(lt, files, chosen) && DistinctIn(files)
    ensures LeavesNewer(files, chosen) <==> BoundaryFree(lt, files, chosen)
  {
    if BoundaryFree(lt, files, chosen) {
      forall t, i, x, y | t in files && t !in chosen && i in chosen && x in t.es && y in i.es && x.key == y.key
        ensures x.seqno > y.seqno
      {
        NewerWhenFree(lt, files, chosen, t, i, x, y);
        assert x.seqno == y.seqno ==> x == y;
      }
    } else {
      BoundaryIsOlder(lt, files, chosen);
    }
  }

  lemma BoundaryIsOlder(lt: Order, files: seq<File>, chosen: seq<File>)
    requires TotalOrder(lt) && SortedLevel(lt, files) && !BoundaryFree(lt, files, chosen)
    ensures !LeavesNewer(files, chosen)
  {
    var e, f :| IsLargestKey(lt, chosen, e) && f in files && IsBoundary(lt, f, e);
    var m :| m in chosen && e == Largest(m);
    BeforeLargest(lt, e, f);
    assert f !in chosen;
    assert Smallest(f) in f.es && Largest(m) in m.es;
    assert !NewerFile(f, m);
  }

  lemma BeforeLargest(lt: Order, e: Entry, f: File)
    requires TotalOrder(lt) && ValidFile(lt, f) && Before(lt, e, Smallest(f))
    ensures Before(lt, e, Largest(f))
  {
    assert |f.es| == 1 || Before(lt, f.es[0], f.es[|f.es| - 1]);
  }

  lemma NewerWhenFree(lt: Order, files: seq<File>, chosen: seq<File>, t: File, i: File, x: Entry, y: Entry)
    requires TotalOrder(lt) && SortedLevel(lt, files) && Convex(lt, files, chosen) && BoundaryFree(lt, files, chosen)
    requires t in files && t !in chosen && i in chosen && x in t.es && y in i.es && x.key == y.key
    ensures Before(lt, x, y)
  {
    SortedLevelOrders(lt, files, t, i);
    if Before(lt, Largest(i), Smallest(t)) {
      LargestKeyExists(lt, chosen);
      var e :| IsLargestKey(lt, chosen, e);
      OlderNeighbourIsBoundary(lt, files, chosen, t, i, x, y, e);
      assert false;
    }
    EndsOrderAll(lt, t, i, x, y);
  }
  // ----- Ranges without gaps -----

  /** The key lies in the file's range. */
  predicate Spans(lt: Order, f: File, k: Key) {
    AtMost(lt, Smallest(f).key, k) && AtMost(lt, k, Largest(f).key)
  }

  ghost predicate Spanned(lt: Order, files: seq<File>, k: Key) {
    exists f :: f in files && Spans(lt, f, k)
  }

  /** The ranges of two files have a key in common. */
  predicate Touch(lt: Order, f: File, g: File) {
    AtMost(lt, Smallest(f).key, Largest(g).key) && AtMost(lt, Smallest(g).key, Largest(f).key)
  }

  /** Every key between any two of the files lies in the range of one of them. */
  ghost predicate Connected(lt: Order, files: seq<File>) {
    forall a, b, k :: a in files && b in files && AtMost(lt, Smallest(a).key, k) && AtMost(lt, k, Largest(b).key) ==>
                        Spanned(lt, files, k)
  }

  lemma ConnectedAt(lt: Order, files: seq<File>, a: File, b: File, k: Key)
    requires Connected(lt, files) && a in files && b in files
    requires AtMost(lt, Smallest(a).key, k) && AtMost(lt, k, Largest(b).key)
    ensures Spanned(lt, files, k)
  {
  }

  /** Files that each touch one of some connected files extend them without a gap. */
  lemma ConnectedOver(lt: Order, files: seq<File>, core: seq<File>)
    requires TotalOrder(lt) && Connected(lt, core) && forall f :: f in core ==> f in files
    requires forall f :: f in files ==> f in core || exists g :: g in core && Touch(lt, f, g)
    ensures Connected(lt, files)
  {
    forall a, b, k | a in files && b in files && AtMost(lt, Smallest(a).key, k) && AtMost(lt, k, Largest(b).key)
      ensures Spanned(lt, files, k)
    {
      SpannedOver(lt, files, core, a, b, k);
    }
  }

  lemma SpannedOver(lt: Order, files: seq<File>, core: seq<File>, a: File, b: File, k: Key)
    requires TotalOrder(lt) && Connected(lt, core) && forall f :: f in core ==> f in files
    requires a in files && (a in core || exists g :: g in core && Touch(lt, a, g))
    requires b in files && (b in core || exists g :: g in core && Touch(lt, b, g))
    requires AtMost(lt, Smallest(a).key, k) && AtMost(lt, k, Largest(b).key)
    ensures Spanned(lt, files, k)
  {
    hide Connected;
    if !Spans(lt, a, k) && !Spans(lt, b, k) {
      var a' := if a in core then a else var g :| g in core && Touch(lt, a, g); g;
      var b' := if b in core then b else var g :| g in core && Touch(lt, b, g); g;
      ConnectedAt(lt, core, a', b', k);
    }
  }

  /** The file's range meets the range that some files span together. */
  ghost predicate MeetsRange(lt: Order, f: File, files: seq<File>) {
    exists a, b :: a in files && b in files && AtMost(lt, Smallest(a).key, Largest(f).key) &&
                   AtMost(lt, Smallest(f).key, Largest(b).key)
  }

  lemma MeetsOne(lt: Order, f: File, files: seq<File>)
    requires TotalOrder(lt) && Connected(lt, files) && MeetsRange(lt, f, files)
    requires ValidFile(lt, f) && forall g :: g in files ==> ValidFile(lt, g)
    ensures exists g :: g in files && Touch(lt, f, g)
  {
    hide Connected, ValidFile;
    var a, b :| a in files && b in files && AtMost(lt, Smallest(a).key, Largest(f).key) &&
                AtMost(lt, Smallest(f).key, Largest(b).key);
    EndsInOrder(lt, f);
    EndsInOrder(lt, a);
    if AtMost(lt, Smallest(a).key, Smallest(f).key) {
      ConnectedAt(lt, files, a, b, Smallest(f).key);
      var g :| g in files && Spans(lt, g, Smallest(f).key);
      assert Touch(lt, f, g);
    } else {
      assert Touch(lt, f, a);
    }
  }

  lemma EndsInOrder(lt: Order, f: File)
    requires ValidFile(lt, f)
    ensures AtMost(lt, Smallest(f).key, Largest(f).key)
  {
    assert |f.es| == 1 || Before(lt, f.es[0], f.es[|f.es| - 1]);
  }

  /** The lower-level inputs are all the files that meet the range of the upper ones. */
  ghost predicate Swept(lt: Order, files1: seq<File>, inputs0: seq<File>, inputs1: seq<File>) {
    forall f :: f in inputs1 <==> f in files1 && MeetsRange(lt, f, inputs0)
  }

  lemma SweptConnected(lt: Order, files1: seq<File>, inputs0: seq<File>, inputs1: seq<File>)
    requires TotalOrder(lt) && Connected(lt, inputs0) && Swept(lt, files1, inputs0, inputs1)
    requires (forall f :: f in files1 ==> ValidFile(lt, f)) && forall f :: f in inputs0 ==> ValidFile(lt, f)
    ensures Connected(lt, inputs0 + inputs1)
  {
    hide Connected, MeetsRange, ValidFile, Touch;
    forall f | f in inputs0 + inputs1 && f !in inputs0 ensures exists g :: g in inputs0 && Touch(lt, f, g) {
      MeetsOne(lt, f, inputs0);
    }
    ConnectedOver(lt, inputs0 + inputs1, inputs0);
  }

  lemma OneIsConnected(lt: Order, f: File)
    ensures Connected(lt, [f])
  {
    forall k | AtMost(lt, Smallest(f).key, k) && AtMost(lt, k, Largest(f).key) ensures Spanned(lt, [f], k) {
      assert f in [f] && Spans(lt, f, k);
    }
  }

  /** A file that continues the last user key of some files leaves no gap after them. */
  lemma BoundaryConnected(lt: Order, beside: seq<File>, chosen: seq<File>, e: Entry, b: File)
    requires TotalOrder(lt) && ValidFile(lt, b) && (exists m :: m in chosen && ValidFile(lt, m) && e == Largest(m))
    requires IsBoundary(lt, b, e) && Connected(lt, beside + chosen)
    ensures Connected(lt, beside + (chosen + [b]))
  {
    hide Connected, ValidFile;
    var m :| m in chosen && ValidFile(lt, m) && e == Largest(m);
    EndsInOrder(lt, m);
    EndsInOrder(lt, b);
    assert Touch(lt, b, m);
    assert m in beside + chosen;
    ConnectedOver(lt, beside + (chosen + [b]), beside + chosen);
  }

  /** Every key of the range searched in the end lies in the range asked for or in a file's. */
  ghost predicate Linked(lt: Order, files: seq<File>, begin: Key, end: Key, lo: Key, hi: Key) {
    forall k :: AtMost(lt, lo, k) && AtMost(lt, k, hi) ==>
                  (AtMost(lt, begin, k) && AtMost(lt, k, end)) || Spanned(lt, files, k)
  }

  lemma LinkedWider(lt: Order, files: seq<File>, begin: Key, end: Key, lo: Key, hi: Key, f: File)
    requires TotalOrder(lt) && Linked(lt, files, begin, end, lo, hi) && f in files && Overlaps(lt, f, lo, hi)
    ensures Linked(lt, files, begin, end, Smallest(f).key, hi) && Linked(lt, files, begin, end, lo, Largest(f).key)
  {
    forall k | AtMost(lt, Smallest(f).key, k) && AtMost(lt, k, hi) && !AtMost(lt, lo, k)
      ensures Spanned(lt, files, k)
    {
      assert Spans(lt, f, k);
    }
    forall k | AtMost(lt, lo, k) && AtMost(lt, k, Largest(f).key) && !AtMost(lt, k, hi)
      ensures Spanned(lt, files, k)
    {
      assert Spans(lt, f, k);
    }
  }

  // ----- The source's helpers -----

  method FindLargestKey(lt: Order, files: seq<File>) returns (r: Option<Entry>)
    requires TotalOrder(lt) && forall f :: f in files ==> ValidFile(lt, f)
    ensures r == None <==> files == []
    ensures r.Some? ==> IsLargestKey(lt, files, r.value)
  {
    if files == [] {
      return None;
    }
    var largest := Largest(files[0]);
    for i := 1 to |files|
      invariant exists f :: f in files && largest == Largest(f)
      invariant forall j :: 0 <= j < i ==> !Before(lt, largest, Largest(files[j]))
    {
      if Before(lt, largest, Largest(files[i])) {
        largest := Largest(files[i]);
      }
    }
    r := Some(largest);
  }

  ghost predicate IsLargestKey(lt: Order, files: seq<File>, e: Entry)
  {
    && (exists f :: f in files && e == Largest(f))
    && (forall f :: f in files ==> !Before(lt, e, Largest(f)))
  }

  method FindSmallestBoundaryFile(lt: Order, levelFiles: seq<File>, largest: Entry) returns (r: Option<File>)
    requires TotalOrder(lt) && forall f :: f in levelFiles ==> ValidFile(lt, f)
    ensures r == None <==> forall f :: f in levelFiles ==> !IsBoundary(lt, f, largest)
    ensures r.Some? ==> r.value in levelFiles && IsBoundary(lt, r.value, largest)
    ensures r.Some? ==> forall f :: f in levelFiles && IsBoundary(lt, f, largest) ==>
                                      !Before(lt, Smallest(f), Smallest(r.value))
  {
    r := None;
    for i := 0 to |levelFiles|
      invariant r == None <==> forall j :: 0 <= j < i ==> !IsBoundary(lt, levelFiles[j], largest)
      invariant r.Some? ==> r.value in levelFiles && IsBoundary(lt, r.value, largest)
      invariant r.Some? ==> forall j :: 0 <= j < i && IsBoundary(lt, levelFiles[j], largest) ==>
                                          !Before(lt, Smallest(levelFiles[j]), Smallest(r.value))
    {
      var f := levelFiles[i];
      if IsBoundary(lt, f, largest) {
        if r == None || Before(lt, Smallest(f), Smallest(r.value)) {
          r := Some(f);
        }
      }
    }
  }

  ghost function Beyond(lt: Order, files: seq<File>, e: Entry): set<File> {
    set f | f in files && Before(lt, e, Smallest(f))
  }

  /** The source's AddBoundaryInputs: chase the files that continue the last user key. */
  method AddBoundaryInputs(lt: Order, level: nat, levelFiles: seq<File>, files: seq<File>, ghost beside: seq<File>)
    returns (chosen: seq<File>)
    requires TotalOrder(lt) && ValidLevel(lt, level, levelFiles) && Settled(lt, level, levelFiles, files)
    ensures Settled(lt, level, levelFiles, chosen) && BoundaryFree(lt, levelFiles, chosen)
    ensures files <= chosen && (files == [] ==> chosen == [])
    ensures Connected(lt, beside + files) ==> Connected(lt, beside + chosen)
  {
    hide Connected;
    chosen := files;
    var first := FindLargestKey(lt, files);
    if first == None {
      return;
    }
    var largest := first.value;
    var searching := true;
    while searching
      invariant files <= chosen && Settled(lt, level, levelFiles, chosen) && IsLargestKey(lt, chosen, largest)
      invariant Connected(lt, beside + files) ==> Connected(lt, beside + chosen)
      invariant !searching ==> forall f :: f in levelFiles ==> !IsBoundary(lt, f, largest)
      decreases searching, Beyond(lt, levelFiles, largest)
    {
      var b := FindSmallestBoundaryFile(lt, levelFiles, largest);
      if b.Some? {
        BoundaryKeepsSettled(lt, level, levelFiles, chosen, largest, b.value);
        BeyondShrinks(lt, levelFiles, largest, b.value);
        if Connected(lt, beside + chosen) {
          SettledMembers(lt, level, levelFiles, chosen);
          BoundaryConnected(lt, beside, chosen, largest, b.value);
        }
        chosen := chosen + [b.value];
        largest := Largest(b.value);
      } else {
        searching := false;
      }
    }
    LargestIsOne(lt, chosen, largest, levelFiles);
  }

  lemma BeyondShrinks(lt: Order, files: seq<File>, e: Entry, b: File)
    requires TotalOrder(lt) && b in files && ValidFile(lt, b) && IsBoundary(lt, b, e)
    ensures Beyond(lt, files, Largest(b)) < Beyond(lt, files, e)
  {
    BeforeLargest(lt, e, b);
    assert b in Beyond(lt, files, e) && b !in Beyond(lt, files, Largest(b)) by {
      assert |b.es| == 1 || Before(lt, b.es[0], b.es[|b.es| - 1]);
    }
    forall f | f in Beyond(lt, files, Largest(b)) ensures f in Beyond(lt, files, e) {
      BeforeTransitive(lt, e, Largest(b), Smallest(f));
    }
  }

  /** All largest keys of a choice look alike to the boundary test. */
  lemma LargestIsOne(lt: Order, chosen: seq<File>, e: Entry, files: seq<File>)
    requires TotalOrder(lt) && IsLargestKey(lt, chosen, e)
    requires forall f :: f in files ==> !IsBoundary(lt, f, e)
    ensures BoundaryFree(lt, files, chosen)
  {
    forall d, f | IsLargestKey(lt, chosen, d) && f in files ensures !IsBoundary(lt, f, d) {
      assert !Before(lt, e, d) && !Before(lt, d, e);
      assert !IsBoundary(lt, f, e);
    }
  }

  lemma BoundaryKeepsSettled(lt: Order, level: nat, files: seq<File>, chosen: seq<File>, e: Entry, b: File)
    requires TotalOrder(lt) && ValidLevel(lt, level, files) && Settled(lt, level, files, chosen)
    requires IsLargestKey(lt, chosen, e) && b in files && IsBoundary(lt, b, e)
    requires forall f :: f in files && IsBoundary(lt, f, e) ==> !Before(lt, Smallest(f), Smallest(b))
    ensures Settled(lt, level, files, chosen + [b]) && IsLargestKey(lt, chosen + [b], Largest(b))
  {
    var m :| m in chosen && e == Largest(m);
    BeforeLargest(lt, e, b);
    forall f | f in chosen ensures !Before(lt, Largest(b), Largest(f)) {
      if Before(lt, Largest(b), Largest(f)) {
        BeforeTransitive(lt, e, Largest(b), Largest(f));
      }
    }
    assert b in chosen + [b];
    if level == 0 {
      assert Largest(m) in m.es && Smallest(b) in b.es;
      assert ShareKey(b, m);
    } else {
      BoundaryKeepsConvex(lt, files, chosen, e, m, b);
    }
  }

  lemma BoundaryKeepsConvex(lt: Order, files: seq<File>, chosen: seq<File>, e: Entry, m: File, b: File)
    requires TotalOrder(lt) && SortedLevel(lt, files) && Convex(lt, files, chosen)
    requires IsLargestKey(lt, chosen, e) && m in chosen && e == Largest(m) && b in files && IsBoundary(lt, b, e)
    requires forall f :: f in files && IsBoundary(lt, f, e) ==> !Before(lt, Smallest(f), Smallest(b))
    ensures Convex(lt, files, chosen + [b])
  {
    forall a, f, c | a in chosen + [b] && c in chosen + [b] && f in files && Between(lt, a, f, c)
      ensures f in chosen + [b]
    {
      if f != b && f != m && f !in chosen {
        if Before(lt, Largest(m), Smallest(f)) {
          AfterLast(lt, files, chosen, e, m, b, f, c);
        } else {
          SortedLevelOrders(lt, files, m, f);
          if a == b {
            BeforeLargest(lt, e, b);
            EndsOrderAll(lt, b, f, Largest(b), Largest(f));
            EndsOrderAll(lt, f, m, Largest(f), Largest(m));
            assert false;
          }
          assert Between(lt, a, f, m);
        }
      }
    }
  }

  /** Nothing lies between the last chosen file and the smallest file that continues it. */
  lemma AfterLast(lt: Order, files: seq<File>, chosen: seq<File>, e: Entry, m: File, b: File, f: File, c: File)
    requires TotalOrder(lt) && SortedLevel(lt, files) && (forall g :: g in chosen ==> g in files)
    requires IsLargestKey(lt, chosen, e) && m in chosen && e == Largest(m) && b in files && IsBoundary(lt, b, e)
    requires forall g :: g in files && IsBoundary(lt, g, e) ==> !Before(lt, Smallest(g), Smallest(b))
    requires f in files && f != b && Before(lt, Largest(m), Smallest(f)) && c in chosen + [b]
    ensures !Before(lt, Largest(f), Smallest(c))
  {
    BeforeLargest(lt, e, f);
    if !Before(lt, Largest(f), Smallest(c)) {
      return;
    }
    if c in chosen {
      EndsOrderAll(lt, f, c, Largest(f), Largest(c));
      BeforeTransitive(lt, e, Largest(f), Largest(c));
    } else {
      EndsOrderAll(lt, f, b, Smallest(f), Smallest(b));
    }
  }

  // ----- Overlapping files -----

  function Overlapping(lt: Order, files: seq<File>, lo: Key, hi: Key): seq<File> {
    if files == [] then []
    else
      var f := files[|files| - 1];
      Overlapping(lt, files[..|files| - 1], lo, hi) + if Overlaps(lt, f, lo, hi) then [f] else []
  }

  lemma {:induction false} OverlappingMembers(lt: Order, files: seq<File>, lo: Key, hi: Key)
    ensures forall f :: f in Overlapping(lt, files, lo, hi) <==> f in files && Overlaps(lt, f, lo, hi)
  {
    if files != [] {
      OverlappingMembers(lt, files[..|files| - 1], lo, hi);
      assert files == files[..|files| - 1] + [files[|files| - 1]];
    }
  }

  predicate Within(lt: Order, f: File, lo: Key, hi: Key) {
    AtMost(lt, lo, Smallest(f).key) && AtMost(lt, Largest(f).key, hi)
  }

  /** The files of the level that reach outside the range on either side. */
  ghost function Outside(lt: Order, files: seq<File>, lo: Key, hi: Key): nat {
    |ReachBelow(lt, files, lo)| + |ReachAbove(lt, files, hi)|
  }

  ghost function ReachBelow(lt: Order, files: seq<File>, lo: Key): set<File> {
    set f | f in files && lt(Smallest(f).key, lo)
  }

  ghost function ReachAbove(lt: Order, files: seq<File>, hi: Key): set<File> {
    set f | f in files && lt(hi, Largest(f).key)
  }

  lemma SmallerSet<T>(a: set<T>, b: set<T>, x: T)
    requires a <= b && x in b && x !in a
    ensures |a| < |b|
  {
    CardinalityGrows(a, b - {x});
  }

  lemma {:induction false} CardinalityGrows<T>(a: set<T>, b: set<T>)
    requires a <= b
    ensures |a| <= |b|
    decreases a
  {
    if a != {} {
      var x :| x in a;
      CardinalityGrows(a - {x}, b - {x});
    }
  }

  lemma OutsideShrinks(lt: Order, files: seq<File>, f: File, lo: Key, hi: Key)
    requires TotalOrder(lt) && f in files
    ensures lt(Smallest(f).key, lo) ==> Outside(lt, files, Smallest(f).key, hi) < Outside(lt, files, lo, hi)
    ensures lt(hi, Largest(f).key) ==> Outside(lt, files, lo, Largest(f).key) < Outside(lt, files, lo, hi)
  {
    if lt(Smallest(f).key, lo) {
      SmallerSet(ReachBelow(lt, files, Smallest(f).key), ReachBelow(lt, files, lo), f);
    }
    if lt(hi, Largest(f).key) {
      SmallerSet(ReachAbove(lt, files, Largest(f).key), ReachAbove(lt, files, hi), f);
    }
  }

  lemma NoneOverlap(lt: Order, files: seq<File>, lo: Key, hi: Key)
    ensures Overlapping(lt, files[..0], lo, hi) == []
  {
  }

  lemma OneMoreFile(lt: Order, files: seq<File>, i: nat, lo: Key, hi: Key)
    requires i < |files|
    ensures Overlapping(lt, files[..i + 1], lo, hi) ==
            Overlapping(lt, files[..i], lo, hi) + if Overlaps(lt, files[i], lo, hi) then [files[i]] else []
  {
    assert files[..i + 1][..i] == files[..i];
  }

  /** The source's comparisons, read as the order they test. */
  lemma Compared(lt: Order, f: File, lo: Key, hi: Key, begin: Key, end: Key)
    requires TotalOrder(lt) && AtMost(lt, lo, begin) && AtMost(lt, end, hi)
    ensures Overlaps(lt, f, lo, hi) <==> !lt(Largest(f).key, lo) && !lt(hi, Smallest(f).key)
    ensures Within(lt, f, lo, hi) <==> !lt(Smallest(f).key, lo) && !lt(hi, Largest(f).key)
    ensures lt(Smallest(f).key, lo) ==> AtMost(lt, Smallest(f).key, begin)
    ensures lt(hi, Largest(f).key) ==> AtMost(lt, end, Largest(f).key)
  {
  }

  lemma AskedIsLinked(lt: Order, files: seq<File>, begin: Key, end: Key)
    ensures Linked(lt, files, begin, end, begin, end)
  {
  }

  /** The source's GetOverlappingInputs. On level 0 a file that reaches outside the range widens it and
      restarts the search; `lo` and `hi` are the range searched in the end. */
  method GetOverlappingInputs(lt: Order, level: nat, files: seq<File>, begin: Key, end: Key)
    returns (inputs: seq<File>, lo: Key, hi: Key)
    requires TotalOrder(lt)
    ensures inputs == Overlapping(lt, files, lo, hi)
    ensures AtMost(lt, lo, begin) && AtMost(lt, end, hi)
    ensures level > 0 ==> lo == begin && hi == end
    ensures level == 0 ==> forall f :: f in inputs ==> Within(lt, f, lo, hi)
    ensures Linked(lt, files, begin, end, lo, hi)
  {
    hide Outside, Overlapping, TotalOrder, Linked;
    inputs, lo, hi := [], begin, end;
    NoneOverlap(lt, files, lo, hi);
    AskedIsLinked(lt, files, begin, end);
    var i := 0;
    while i < |files|
      invariant i <= |files| && inputs == Overlapping(lt, files[..i], lo, hi)
      invariant Linked(lt, files, begin, end, lo, hi)
      invariant AtMost(lt, lo, begin) && AtMost(lt, end, hi)
      invariant level > 0 ==> lo == begin && hi == end
      invariant level == 0 ==> forall f :: f in inputs ==> Within(lt, f, lo, hi)
      decreases Outside(lt, files, lo, hi), |files| - i
    {
      var f := files[i];
      OneMoreFile(lt, files, i, lo, hi);
      Compared(lt, f, lo, hi, begin, end);
      i := i + 1;
      if !lt(Largest(f).key, lo) && !lt(hi, Smallest(f).key) {
        inputs := inputs + [f];
        if level == 0 {
          OutsideShrinks(lt, files, f, lo, hi);
          LinkedWider(lt, files, begin, end, lo, hi, f);
          if lt(Smallest(f).key, lo) {
            lo, inputs, i := Smallest(f).key, [], 0;
            NoneOverlap(lt, files, lo, hi);
          } else if lt(hi, Largest(f).key) {
            hi, inputs, i := Largest(f).key, [], 0;
            NoneOverlap(lt, files, lo, hi);
          }
        }
      }
    }
    assert files[..|files|] == files;
  }

  /** The range that some files span together. */
  ghost predicate IsRange(lt: Order, files: seq<File>, smallest: Key, largest: Key) {
    && (forall f :: f in files ==> Within(lt, f, smallest, largest))
    && (exists f :: f in files && Smallest(f).key == smallest)
    && (exists f :: f in files && Largest(f).key == largest)
  }

  /** The keys spanned by some files. */
  method GetRange(lt: Order, files: seq<File>) returns (smallest: Key, largest: Key)
    requires TotalOrder(lt) && files != [] && forall f :: f in files ==> ValidFile(lt, f)
    ensures IsRange(lt, files, smallest, largest)
  {
    smallest, largest := Smallest(files[0]).key, Largest(files[0]).key;
    for i := 1 to |files|
      invariant forall j :: 0 <= j < i ==> Within(lt, files[j], smallest, largest)
      invariant exists f :: f in files && Smallest(f).key == smallest
      invariant exists f :: f in files && Largest(f).key == largest
    {
      if lt(Smallest(files[i]).key, smallest) {
        smallest := Smallest(files[i]).key;
      }
      if lt(largest, Largest(files[i]).key) {
        largest := Largest(files[i]).key;
      }
    }
  }

  /** A file holding a key inside the range overlaps it. */
  lemma HolderOverlaps(lt: Order, f: File, e: Entry, lo: Key, hi: Key)
    requires TotalOrder(lt) && ValidFile(lt, f) && e in f.es && AtMost(lt, lo, e.key) && AtMost(lt, e.key, hi)
    ensures Overlaps(lt, f, lo, hi)
  {
    var i :| 0 <= i < |f.es| && f.es[i] == e;
    assert i == 0 || Before(lt, f.es[0], f.es[i]);
    assert i == |f.es| - 1 || Before(lt, f.es[i], f.es[|f.es| - 1]);
  }

  lemma WithinHolds(lt: Order, f: File, e: Entry, lo: Key, hi: Key)
    requires TotalOrder(lt) && ValidFile(lt, f) && e in f.es && Within(lt, f, lo, hi)
    ensures AtMost(lt, lo, e.key) && AtMost(lt, e.key, hi)
  {
    var i :| 0 <= i < |f.es| && f.es[i] == e;
    assert i == 0 || Before(lt, f.es[0], f.es[i]);
    assert i == |f.es| - 1 || Before(lt, f.es[i], f.es[|f.es| - 1]);
  }

  /** No file left out shares a key with a file whose range was searched. */
  ghost predicate NoneShared(files: seq<File>, left: seq<File>, chosen: seq<File>) {
    forall t, i :: t in files && t !in left && i in chosen ==> !ShareKey(t, i)
  }

  lemma SearchedShareNothing(lt: Order, files: seq<File>, chosen: seq<File>, lo: Key, hi: Key)
    requires TotalOrder(lt) && (forall f :: f in files ==> ValidFile(lt, f))
    requires forall f :: f in chosen ==> ValidFile(lt, f) && Within(lt, f, lo, hi)
    ensures NoneShared(files, Overlapping(lt, files, lo, hi), chosen)
  {
    OverlappingMembers(lt, files, lo, hi);
    forall t, i, x, y | t in files && t !in Overlapping(lt, files, lo, hi) && i in chosen && x in t.es && y in i.es
      ensures x.key != y.key
    {
      WithinHolds(lt, i, y, lo, hi);
      if x.key == y.key {
        HolderOverlaps(lt, t, x, lo, hi);
      }
    }
  }

  lemma OverlappingConvex(lt: Order, files: seq<File>, lo: Key, hi: Key)
    requires TotalOrder(lt) && SortedLevel(lt, files)
    ensures Convex(lt, files, Overlapping(lt, files, lo, hi))
  {
    OverlappingMembers(lt, files, lo, hi);
    var chosen := Overlapping(lt, files, lo, hi);
    forall a, f, b | a in chosen && b in chosen && f in files && Between(lt, a, f, b) ensures f in chosen {
      EndsOrderAll(lt, a, f, Largest(a), Largest(f));
      EndsOrderAll(lt, f, b, Smallest(f), Smallest(b));
    }
  }

  /** The overlapping files of a range form a settled choice. */
  lemma OverlappingSettled(lt: Order, level: nat, files: seq<File>, lo: Key, hi: Key)
    requires TotalOrder(lt) && ValidLevel(lt, level, files)
    requires level == 0 ==> forall f :: f in Overlapping(lt, files, lo, hi) ==> Within(lt, f, lo, hi)
    ensures Settled(lt, level, files, Overlapping(lt, files, lo, hi))
  {
    OverlappingMembers(lt, files, lo, hi);
    if level == 0 {
      SearchedShareNothing(lt, files, Overlapping(lt, files, lo, hi), lo, hi);
    } else {
      OverlappingConvex(lt, files, lo, hi);
    }
  }

  lemma RangeMeets(lt: Order, files: seq<File>, smallest: Key, largest: Key, f: File)
    requires TotalOrder(lt) && IsRange(lt, files, smallest, largest)
    ensures Overlaps(lt, f, smallest, largest) <==> MeetsRange(lt, f, files)
  {
    if Overlaps(lt, f, smallest, largest) {
      var a :| a in files && Smallest(a).key == smallest;
      var b :| b in files && Largest(b).key == largest;
      assert AtMost(lt, Smallest(a).key, Largest(f).key) && AtMost(lt, Smallest(f).key, Largest(b).key);
    }
  }

  lemma RangeSwept(lt: Order, files1: seq<File>, inputs0: seq<File>, smallest: Key, largest: Key)
    requires TotalOrder(lt) && IsRange(lt, inputs0, smallest, largest)
    ensures Swept(lt, files1, inputs0, Overlapping(lt, files1, smallest, largest))
  {
    hide Overlaps, MeetsRange, IsRange, Overlapping;
    OverlappingMembers(lt, files1, smallest, largest);
    forall f ensures Overlaps(lt, f, smallest, largest) <==> MeetsRange(lt, f, inputs0) {
      RangeMeets(lt, inputs0, smallest, largest, f);
    }
  }

  /** Widening the range of connected inputs over a level leaves no gap either. */
  lemma GrownConnected(lt: Order, files0: seq<File>, inputs0: seq<File>, inputs1: seq<File>, start: Key, limit: Key,
                       lo: Key, hi: Key)
    requires TotalOrder(lt) && Connected(lt, inputs0 + inputs1) && IsRange(lt, inputs0 + inputs1, start, limit)
    requires Linked(lt, files0, start, limit, lo, hi) && AtMost(lt, lo, start) && AtMost(lt, limit, hi)
    requires forall f :: f in inputs0 ==> f in files0 && ValidFile(lt, f)
    ensures Connected(lt, inputs1 + Overlapping(lt, files0, lo, hi))
  {
    hide Overlapping, ValidFile, Linked, IsRange, Spanned;
    var all := inputs1 + Overlapping(lt, files0, lo, hi);
    forall a, b, k | a in all && b in all && AtMost(lt, Smallest(a).key, k) && AtMost(lt, k, Largest(b).key)
      ensures Spanned(lt, all, k)
    {
      GrownAt(lt, files0, inputs0, inputs1, start, limit, lo, hi, a, b, k);
    }
  }

  lemma GrownAt(lt: Order, files0: seq<File>, inputs0: seq<File>, inputs1: seq<File>, start: Key, limit: Key,
                lo: Key, hi: Key, a: File, b: File, k: Key)
    requires TotalOrder(lt) && Connected(lt, inputs0 + inputs1) && IsRange(lt, inputs0 + inputs1, start, limit)
    requires Linked(lt, files0, start, limit, lo, hi) && AtMost(lt, lo, start) && AtMost(lt, limit, hi)
    requires forall f :: f in inputs0 ==> f in files0 && ValidFile(lt, f)
    requires a in inputs1 + Overlapping(lt, files0, lo, hi) && b in inputs1 + Overlapping(lt, files0, lo, hi)
    requires AtMost(lt, Smallest(a).key, k) && AtMost(lt, k, Largest(b).key)
    ensures Spanned(lt, inputs1 + Overlapping(lt, files0, lo, hi), k)
  {
    hide Connected, Overlapping, ValidFile, Linked, IsRange;
    if !Spans(lt, a, k) && !Spans(lt, b, k) {
      ReachesIn(lt, files0, inputs0, inputs1, start, limit, lo, hi, a);
      ReachesIn(lt, files0, inputs0, inputs1, start, limit, lo, hi, b);
      GrownHolds(lt, files0, inputs0, inputs1, start, limit, lo, hi);
      GrownSpans(lt, files0, inputs0, inputs1, start, limit, lo, hi, k);
    }
  }

  lemma SpanningOverlaps(lt: Order, f: File, k: Key, lo: Key, hi: Key)
    requires TotalOrder(lt) && Spans(lt, f, k) && AtMost(lt, lo, k) && AtMost(lt, k, hi)
    ensures Overlaps(lt, f, lo, hi)
  {
  }

  /** Each of the grown inputs reaches into the range searched. */
  lemma ReachesIn(lt: Order, files0: seq<File>, inputs0: seq<File>, inputs1: seq<File>, start: Key, limit: Key,
                  lo: Key, hi: Key, f: File)
    requires TotalOrder(lt) && IsRange(lt, inputs0 + inputs1, start, limit)
    requires AtMost(lt, lo, start) && AtMost(lt, limit, hi)
    requires f in inputs1 + Overlapping(lt, files0, lo, hi)
    ensures AtMost(lt, lo, Largest(f).key) || AtMost(lt, lo, Smallest(f).key)
    ensures AtMost(lt, Smallest(f).key, hi) || AtMost(lt, Largest(f).key, hi)
  {
    hide Overlapping;
    OverlappingMembers(lt, files0, lo, hi);
    if f in inputs1 {
      assert f in inputs0 + inputs1 && Within(lt, f, start, limit);
    }
  }

  lemma GrownSpans(lt: Order, files0: seq<File>, inputs0: seq<File>, inputs1: seq<File>, start: Key, limit: Key,
                   lo: Key, hi: Key, k: Key)
    requires TotalOrder(lt) && Connected(lt, inputs0 + inputs1) && IsRange(lt, inputs0 + inputs1, start, limit)
    requires Linked(lt, files0, start, limit, lo, hi) && AtMost(lt, lo, k) && AtMost(lt, k, hi)
    requires forall f :: f in inputs0 ==> f in Overlapping(lt, files0, lo, hi)
    ensures Spanned(lt, inputs1 + Overlapping(lt, files0, lo, hi), k)
  {
    hide Connected, Overlapping;
    var all := inputs1 + Overlapping(lt, files0, lo, hi);
    OverlappingMembers(lt, files0, lo, hi);
    if AtMost(lt, start, k) && AtMost(lt, k, limit) {
      var a :| a in inputs0 + inputs1 && Smallest(a).key == start;
      var b :| b in inputs0 + inputs1 && Largest(b).key == limit;
      ConnectedAt(lt, inputs0 + inputs1, a, b, k);
      var f :| f in inputs0 + inputs1 && Spans(lt, f, k);
      assert f in all;
    } else {
      var f :| f in files0 && Spans(lt, f, k);
      SpanningOverlaps(lt, f, k, lo, hi);
      assert f in all;
    }
  }

  /** A wider range that finds no more files finds the same. */
  lemma {:induction false} SameSearch(lt: Order, files: seq<File>, lo: Key, hi: Key, lo': Key, hi': Key)
    requires TotalOrder(lt) && AtMost(lt, lo', lo) && AtMost(lt, hi, hi')
    ensures |Overlapping(lt, files, lo, hi)| <= |Overlapping(lt, files, lo', hi')|
    ensures |Overlapping(lt, files, lo, hi)| == |Overlapping(lt, files, lo', hi')| ==>
              Overlapping(lt, files, lo, hi) == Overlapping(lt, files, lo', hi')
  {
    if files != [] {
      SameSearch(lt, files[..|files| - 1], lo, hi, lo', hi');
    }
  }

  lemma RangeGrows(lt: Order, some: seq<File>, more: seq<File>, smallest: Key, largest: Key, start: Key, limit: Key)
    requires IsRange(lt, some, smallest, largest) && IsRange(lt, more, start, limit)
    requires forall f :: f in some ==> f in more
    ensures AtMost(lt, start, smallest) && AtMost(lt, largest, limit)
  {
  }

  /** The lower-level files that overlap the range of the upper inputs. */
  lemma LowerInputs(lt: Order, level: nat, files1: seq<File>, inputs0: seq<File>, smallest: Key, largest: Key)
    requires TotalOrder(lt) && ValidLevel(lt, level + 1, files1) && IsRange(lt, inputs0, smallest, largest)
    requires forall f :: f in inputs0 ==> ValidFile(lt, f)
    ensures var inputs1 := Overlapping(lt, files1, smallest, largest);
            && Convex(lt, files1, inputs1) && NoneShared(files1, inputs1, inputs0)
            && Swept(lt, files1, inputs0, inputs1) && (forall f :: f in inputs1 ==> f in files1 && ValidFile(lt, f))
            && (Connected(lt, inputs0) ==> Connected(lt, inputs0 + inputs1))
  {
    hide Connected, Swept, MeetsRange, Convex, NoneShared, Overlapping, TotalOrder, ValidFile;
    OverlappingMembers(lt, files1, smallest, largest);
    OverlappingConvex(lt, files1, smallest, largest);
    SearchedShareNothing(lt, files1, inputs0, smallest, largest);
    RangeSwept(lt, files1, inputs0, smallest, largest);
    if Connected(lt, inputs0) {
      SweptConnected(lt, files1, inputs0, Overlapping(lt, files1, smallest, largest));
    }
  }

  /** The upper-level files that overlap the range of all inputs. */
  lemma GrownInputs(lt: Order, level: nat, files0: seq<File>, inputs0: seq<File>, inputs1: seq<File>, start: Key,
                    limit: Key, lo: Key, hi: Key)
    requires TotalOrder(lt) && ValidLevel(lt, level, files0) && IsRange(lt, inputs0 + inputs1, start, limit)
    requires Linked(lt, files0, start, limit, lo, hi) && AtMost(lt, lo, start) && AtMost(lt, limit, hi)
    requires level == 0 ==> forall f :: f in Overlapping(lt, files0, lo, hi) ==> Within(lt, f, lo, hi)
    requires forall f :: f in inputs0 ==> f in files0 && ValidFile(lt, f)
    ensures var expanded0 := Overlapping(lt, files0, lo, hi);
            && Settled(lt, level, files0, expanded0) && (forall f :: f in inputs0 ==> f in expanded0)
            && (Connected(lt, inputs0 + inputs1) ==> Connected(lt, inputs1 + expanded0))
  {
    hide Connected, Linked, Overlapping, TotalOrder, ValidFile, IsRange, Settled;
    OverlappingSettled(lt, level, files0, lo, hi);
    GrownHolds(lt, files0, inputs0, inputs1, start, limit, lo, hi);
    if Connected(lt, inputs0 + inputs1) {
      GrownConnected(lt, files0, inputs0, inputs1, start, limit, lo, hi);
    }
  }

  /** The source's SetupOtherInputs; `grow` stands for its size rule on expanding the inputs. */
  method SetupOtherInputs(lt: Order, level: nat, files0: seq<File>, files1: seq<File>, picked: seq<File>, grow: bool)
    returns (inputs0: seq<File>, inputs1: seq<File>)
    requires TotalOrder(lt) && ValidLevel(lt, level, files0) && ValidLevel(lt, level + 1, files1)
    requires picked != [] && Settled(lt, level, files0, picked)
    ensures Settled(lt, level, files0, inputs0) && BoundaryFree(lt, files0, inputs0)
    ensures Convex(lt, files1, inputs1) && NoneShared(files1, inputs1, inputs0)
    ensures (forall f :: f in picked ==> f in inputs0) && Swept(lt, files1, inputs0, inputs1)
    ensures Connected(lt, picked) ==> Connected(lt, inputs0 + inputs1)
  {
    hide Connected, Swept, Linked, Convex, BoundaryFree, NoneShared, Settled, Overlapping, IsRange, ValidFile;
    hide TotalOrder, AtMost, Within;
    inputs0 := AddBoundaryInputs(lt, level, files0, picked, []);
    assert [] + picked == picked && [] + inputs0 == inputs0;
    SettledMembers(lt, level, files0, inputs0);
    var smallest, largest := GetRange(lt, inputs0);
    var lo, hi;
    inputs1, lo, hi := GetOverlappingInputs(lt, level + 1, files1, smallest, largest);
    LowerInputs(lt, level, files1, inputs0, smallest, largest);
    if inputs1 != [] {
      var allStart, allLimit := GetRange(lt, inputs0 + inputs1);
      var expanded0;
      expanded0, lo, hi := GetOverlappingInputs(lt, level, files0, allStart, allLimit);
      GrownInputs(lt, level, files0, inputs0, inputs1, allStart, allLimit, lo, hi);
      expanded0 := AddBoundaryInputs(lt, level, files0, expanded0, inputs1);
      if |expanded0| > |inputs0| && grow {
        SettledMembers(lt, level, files0, expanded0);
        var newStart, newLimit := GetRange(lt, expanded0);
        var expanded1;
        expanded1, lo, hi := GetOverlappingInputs(lt, level + 1, files1, newStart, newLimit);
        if |expanded1| == |inputs1| {
          LowerInputs(lt, level, files1, expanded0, newStart, newLimit);
          RangeGrows(lt, inputs0, expanded0, smallest, largest, newStart, newLimit);
          SameSearch(lt, files1, smallest, largest, newStart, newLimit);
          ConnectedEither(lt, inputs1, expanded0);
          inputs0, inputs1 := expanded0, expanded1;
        }
      }
    }
  }

  lemma GrownHolds(lt: Order, files0: seq<File>, inputs0: seq<File>, inputs1: seq<File>, start: Key, limit: Key,
                   lo: Key, hi: Key)
    requires TotalOrder(lt) && IsRange(lt, inputs0 + inputs1, start, limit)
    requires AtMost(lt, lo, start) && AtMost(lt, limit, hi)
    requires forall f :: f in inputs0 ==> f in files0 && ValidFile(lt, f)
    ensures forall f :: f in inputs0 ==> f in Overlapping(lt, files0, lo, hi)
  {
    hide Overlapping, ValidFile;
    OverlappingMembers(lt, files0, lo, hi);
    forall f | f in inputs0 ensures f in Overlapping(lt, files0, lo, hi) {
      assert f in inputs0 + inputs1 && Within(lt, f, start, limit);
      EndsInOrder(lt, f);
    }
  }

  lemma ConnectedEither(lt: Order, xs: seq<File>, ys: seq<File>)
    ensures Connected(lt, xs + ys) ==> Connected(lt, ys + xs)
  {
    assert forall f :: f in xs + ys <==> f in ys + xs;
    if Connected(lt, xs + ys) {
      forall a, b, k | a in ys + xs && b in ys + xs && AtMost(lt, Smallest(a).key, k) && AtMost(lt, k, Largest(b).key)
        ensures Spanned(lt, ys + xs, k)
      {
        ConnectedAt(lt, xs + ys, a, b, k);
        var f :| f in xs + ys && Spans(lt, f, k);
        assert f in ys + xs;
      }
    }
  }

  lemma SettledMembers(lt: Order, level: nat, files: seq<File>, chosen: seq<File>)
    requires ValidLevel(lt, level, files) && Settled(lt, level, files, chosen)
    ensures forall f :: f in chosen ==> f in files && ValidFile(lt, f)
  {
  }

  /** The level-0 files around one of them, searched until the range grows no more, leave no gap. */
  lemma LinkedConnected(lt: Order, files: seq<File>, file: File, lo: Key, hi: Key)
    requires TotalOrder(lt) && Linked(lt, files, Smallest(file).key, Largest(file).key, lo, hi) && file in files
    requires forall f :: f in Overlapping(lt, files, lo, hi) ==> Within(lt, f, lo, hi)
    ensures Connected(lt, Overlapping(lt, files, lo, hi))
  {
    hide Overlapping;
    var chosen := Overlapping(lt, files, lo, hi);
    OverlappingMembers(lt, files, lo, hi);
    forall a, b, k | a in chosen && b in chosen && AtMost(lt, Smallest(a).key, k) && AtMost(lt, k, Largest(b).key)
      ensures Spanned(lt, chosen, k)
    {
      assert AtMost(lt, lo, k) && AtMost(lt, k, hi);
      assert Spans(lt, file, k) || Spanned(lt, files, k);
      var f :| f in files && Spans(lt, f, k);
      SpanningOverlaps(lt, f, k, lo, hi);
    }
  }

  /** Why a compaction is due: too much data, with the key where the level's last compaction ended; or one
      file that has been searched in vain too often. */
  datatype Reason = BySize(pointer: Option<Entry>) | BySeeks(file: File)

  predicate Passed(lt: Order, f: File, pointer: Option<Entry>) {
    pointer.Some? && !Before(lt, pointer.value, Largest(f))
  }

  /** The first file that ends after the pointer, or the first of all when there is none. */
  ghost predicate IsStart(lt: Order, files: seq<File>, pointer: Option<Entry>, file: File) {
    || (exists i :: 0 <= i < |files| && files[i] == file && !Passed(lt, file, pointer) &&
                    forall j :: 0 <= j < i ==> Passed(lt, files[j], pointer))
    || (files != [] && file == files[0] && forall f :: f in files ==> Passed(lt, f, pointer))
  }

  method PickStart(lt: Order, files: seq<File>, pointer: Option<Entry>) returns (file: File)
    requires files != []
    ensures IsStart(lt, files, pointer, file) && file in files
  {
    for i := 0 to |files|
      invariant forall j :: 0 <= j < i ==> Passed(lt, files[j], pointer)
    {
      if !Passed(lt, files[i], pointer) {
        return files[i];
      }
    }
    file := files[0];
  }

  /** The source's PickCompaction, once a level is chosen. */
  method PickCompaction(lt: Order, level: nat, files0: seq<File>, files1: seq<File>, why: Reason, grow: bool)
    returns (inputs0: seq<File>, inputs1: seq<File>)
    requires TotalOrder(lt) && ValidLevel(lt, level, files0) && ValidLevel(lt, level + 1, files1)
    requires if why.BySize? then files0 != [] else why.file in files0
    ensures exists f :: f in inputs0 && f in files0 &&
                        (why == BySeeks(f) || (why.BySize? && IsStart(lt, files0, why.pointer, f)))
    ensures Settled(lt, level, files0, inputs0) && BoundaryFree(lt, files0, inputs0)
    ensures Convex(lt, files1, inputs1) && NoneShared(files1, inputs1, inputs0)
    ensures Swept(lt, files1, inputs0, inputs1) && Connected(lt, inputs0 + inputs1)
  {
    hide Connected, Swept, BoundaryFree, NoneShared, Convex, Separate, IsStart, SortedLevel, Linked, Overlapping;
    var file;
    match why {
      case BySize(pointer) => file := PickStart(lt, files0, pointer);
      case BySeeks(f) => file := f;
    }
    var picked := [file];
    OneIsConnected(lt, file);
    if level == 0 {
      var lo, hi;
      picked, lo, hi := GetOverlappingInputs(lt, 0, files0, Smallest(file).key, Largest(file).key);
      assert |file.es| == 1 || Before(lt, file.es[0], file.es[|file.es| - 1]);
      assert Overlaps(lt, file, lo, hi);
      OverlappingMembers(lt, files0, lo, hi);
      OverlappingSettled(lt, 0, files0, lo, hi);
      LinkedConnected(lt, files0, file, lo, hi);
    } else {
      SingleConvex(lt, files0, file);
    }
    inputs0, inputs1 := SetupOtherInputs(lt, level, files0, files1, picked, grow);
  }

  /** The source's CompactRange, for a manual compaction: the files overlapping the range asked for, on
      deeper levels only up to a size limit. Between them there may be gaps. */
  method CompactRange(lt: Order, level: nat, files0: seq<File>, files1: seq<File>, begin: Key, end: Key,
                      size: File -> nat, limit: nat, grow: bool)
    returns (inputs0: seq<File>, inputs1: seq<File>)
    requires TotalOrder(lt) && ValidLevel(lt, level, files0) && ValidLevel(lt, level + 1, files1)
    ensures (exists f :: f in files0 && Overlaps(lt, f, begin, end)) ==> inputs0 != []
    ensures level == 0 ==> forall f :: f in files0 && Overlaps(lt, f, begin, end) ==> f in inputs0
    ensures inputs0 == [] ==> inputs1 == []
    ensures inputs0 != [] ==>
              && Settled(lt, level, files0, inputs0) && BoundaryFree(lt, files0, inputs0)
              && Convex(lt, files1, inputs1) && NoneShared(files1, inputs1, inputs0)
              && Swept(lt, files1, inputs0, inputs1)
  {
    hide Connected, Swept, BoundaryFree, NoneShared, Convex, Separate, Linked, Overlapping;
    var inputs, lo, hi := GetOverlappingInputs(lt, level, files0, begin, end);
    OverlappingMembers(lt, files0, lo, hi);
    OverlapsWider(lt, begin, end, lo, hi);
    if inputs == [] {
      return [], [];
    }
    OverlappingSettled(lt, level, files0, lo, hi);
    if level > 0 {
      var total, i, n := 0, 0, |inputs|;
      while i < n
        invariant i <= n <= |inputs| && (i < n ==> n == |inputs|) && n > 0
      {
        total := total + size(inputs[i]);
        i := i + 1;
        if total >= limit {
          n := i;
        }
      }
      PrefixConvex(lt, files0, lo, hi, n);
      inputs := inputs[..n];
    }
    inputs0, inputs1 := SetupOtherInputs(lt, level, files0, files1, inputs, grow);
    assert inputs[0] in inputs0;
  }

  lemma OverlapsWider(lt: Order, begin: Key, end: Key, lo: Key, hi: Key)
    requires TotalOrder(lt) && AtMost(lt, lo, begin) && AtMost(lt, end, hi)
    ensures forall f: File :: Overlaps(lt, f, begin, end) ==> Overlaps(lt, f, lo, hi)
  {
  }

  /** The overlapping files come in level order. */
  lemma {:induction false} OverlappingSorted(lt: Order, files: seq<File>, lo: Key, hi: Key)
    requires SortedLevel(lt, files)
    ensures SortedLevel(lt, Overlapping(lt, files, lo, hi))
  {
    if files != [] {
      var init := files[..|files| - 1];
      OverlappingSorted(lt, init, lo, hi);
      OverlappingMembers(lt, init, lo, hi);
      hide Overlaps, ValidFile;
      assert forall f :: f in init ==> Before(lt, Largest(f), Smallest(files[|files| - 1]));
      SortedAppend(lt, Overlapping(lt, init, lo, hi), files[|files| - 1]);
    }
  }

  lemma SortedAppend(lt: Order, files: seq<File>, f: File)
    requires SortedLevel(lt, files) && ValidFile(lt, f)
    requires forall g :: g in files ==> Before(lt, Largest(g), Smallest(f))
    ensures SortedLevel(lt, files + [f])
  {
  }

  /** So the first few of them are one stretch of the level. */
  lemma PrefixConvex(lt: Order, files: seq<File>, lo: Key, hi: Key, n: nat)
    requires TotalOrder(lt) && SortedLevel(lt, files) && n <= |Overlapping(lt, files, lo, hi)|
    ensures Convex(lt, files, Overlapping(lt, files, lo, hi)[..n])
  {
    hide Overlapping, TotalOrder, ValidFile;
    var all := Overlapping(lt, files, lo, hi);
    OverlappingSorted(lt, files, lo, hi);
    OverlappingConvex(lt, files, lo, hi);
    OverlappingMembers(lt, files, lo, hi);
    forall a, f, b | a in all[..n] && b in all[..n] && f in files && Between(lt, a, f, b) ensures f in all[..n] {
      assert f in all;
      var j :| 0 <= j < n && all[j] == b;
      var k :| 0 <= k < |all| && all[k] == f;
      if k >= n {
        NotAfter(lt, b, f);
        assert false;
      }
    }
  }

  lemma NotAfter(lt: Order, b: File, f: File)
    requires TotalOrder(lt) && ValidFile(lt, b) && ValidFile(lt, f) && Before(lt, Largest(b), Smallest(f))
    ensures !Before(lt, Largest(f), Smallest(b))
  {
    EndsOrderAll(lt, b, f, Smallest(b), Largest(f));
  }

  /** Two files cannot each follow the other. */
  lemma NoMutualOrder(lt: Order, file: File, f: File)
    requires TotalOrder(lt) && ValidFile(lt, f) && ValidFile(lt, file) && Before(lt, Largest(f), Largest(file))
    ensures !Before(lt, Largest(file), Smallest(f))
  {
    if Before(lt, Largest(file), Smallest(f)) {
      BeforeLargest(lt, Largest(file), f);
    }
  }

  lemma SingleConvex(lt: Order, files: seq<File>, file: File)
    requires TotalOrder(lt) && SortedLevel(lt, files) && file in files
    ensures Convex(lt, files, [file])
  {
    forall f | f in files ensures !Between(lt, file, f, file) {
      if Before(lt, Largest(f), Smallest(file)) {
        EndsOrderAll(lt, f, file, Largest(f), Largest(file));
        NoMutualOrder(lt, file, f);
      }
    }
  }

  // ----- Where a flushed memtable may go -----

  const MAX_MEM_COMPACT_LEVEL := 2

  method OverlapInLevel(lt: Order, files: seq<File>, smallest: Key, largest: Key) returns (r: bool)
    requires TotalOrder(lt)
    ensures r == exists f :: f in files && Overlaps(lt, f, smallest, largest)
  {
    r := false;
    for i := 0 to |files|
      invariant !r && forall j :: 0 <= j < i ==> !Overlaps(lt, files[j], smallest, largest)
    {
      if Overlaps(lt, files[i], smallest, largest) {
        return true;
      }
    }
  }

  /** The source's PickLevelForMemTableOutput: push down while nothing overlaps; `heavy` stands for
      the size rule on the level after next. */
  method PickLevelForMemTableOutput(lt: Order, levels: seq<seq<File>>, smallest: Key, largest: Key, heavy: nat -> bool)
    returns (level: nat)
    requires TotalOrder(lt) && |levels| == NUM_LEVELS
    ensures level <= MAX_MEM_COMPACT_LEVEL
    ensures level > 0 ==> forall l, f :: 0 <= l <= level && f in levels[l] ==> !Overlaps(lt, f, smallest, largest)
    ensures level < MAX_MEM_COMPACT_LEVEL ==>
              || heavy(level + 2)
              || exists l, f :: 0 <= l <= level + 1 && f in levels[l] && Overlaps(lt, f, smallest, largest)
  {
    level := 0;
    var overlap := OverlapInLevel(lt, levels[0], smallest, largest);
    if !overlap {
      while level < MAX_MEM_COMPACT_LEVEL
        invariant level <= MAX_MEM_COMPACT_LEVEL
        invariant forall l, f :: 0 <= l <= level && f in levels[l] ==> !Overlaps(lt, f, smallest, largest)
      {
        overlap := OverlapInLevel(lt, levels[level + 1], smallest, largest);
        if overlap {
          break;
        }
        if level + 2 < NUM_LEVELS && heavy(level + 2) {
          break;
        }
        level := level + 1;
      }
    }
  }

  /** A level picked without overlap is one where no key of the memtable is found at or above it. */
  lemma PickedLevelFits(lt: Order, v: Version, levels: seq<seq<File>>, es: set<Entry>, smallest: Key, largest: Key,
                        level: nat)
    requires TotalOrder(lt) && |levels| == NUM_LEVELS && level < NUM_LEVELS
    requires forall l :: 0 <= l < NUM_LEVELS ==> AtLevel(v, l) == Tables(levels[l], l)
    requires forall l, f :: 0 <= l < NUM_LEVELS && f in levels[l] ==> ValidFile(lt, f)
    requires forall e :: e in es ==> AtMost(lt, smallest, e.key) && AtMost(lt, e.key, largest)
    requires level > 0 ==> forall l, f :: 0 <= l <= level && f in levels[l] ==> !Overlaps(lt, f, smallest, largest)
    ensures Fits(v, es, level)
  {
    if level > 0 {
      forall t, x, y | t in v && t.level <= level && x in t.es && y in es ensures x.key != y.key {
        assert t in AtLevel(v, t.level);
        var f :| f in levels[t.level] && t == AtLevelTable(f, t.level);
        if x.key == y.key {
          HolderOverlaps(lt, f, x, smallest, largest);
        }
      }
    }
  }

  // ----- Exactly when the choice is safe -----

  ghost function Tables(files: seq<File>, level: nat): Version {
    set f | f in files :: AtLevelTable(f, level)
  }

  ghost function VersionOf(levels: seq<seq<File>>): Version {
    set l, f | 0 <= l < |levels| && f in levels[l] :: AtLevelTable(f, l)
  }

  lemma LevelTables(levels: seq<seq<File>>, l: nat)
    requires l < |levels|
    ensures AtLevel(VersionOf(levels), l) == Tables(levels[l], l)
    ensures AllOf(AtLevel(VersionOf(levels), l)) == EntriesIn(levels[l])
    ensures EntriesIn(levels[l]) <= AllOf(VersionOf(levels))
  {
    assert AtLevel(VersionOf(levels), l) == Tables(levels[l], l);
    forall e | e in EntriesIn(levels[l]) ensures e in AllOf(AtLevel(VersionOf(levels), l)) {
      var f :| f in levels[l] && e in f.es;
      assert AtLevelTable(f, l) in Tables(levels[l], l) && e in AtLevelTable(f, l).es;
    }
    forall e | e in AllOf(AtLevel(VersionOf(levels), l)) ensures e in EntriesIn(levels[l]) {
      var t :| t in Tables(levels[l], l) && e in t.es;
      var f :| f in levels[l] && t == AtLevelTable(f, l);
      assert e in f.es;
    }
    assert AtLevel(VersionOf(levels), l) <= VersionOf(levels);
  }

  /** Different files of one sorted run make different tables. */
  lemma TablesDiffer(lt: Order, files: seq<File>, chosen: seq<File>, f: File, level: nat)
    requires TotalOrder(lt) && SortedLevel(lt, files) && f in files && f !in chosen
    requires forall g :: g in chosen ==> g in files
    ensures AtLevelTable(f, level) !in Tables(chosen, level)
  {
    if AtLevelTable(f, level) in Tables(chosen, level) {
      var g :| g in chosen && AtLevelTable(g, level) == AtLevelTable(f, level);
      SortedLevelOrders(lt, files, f, g);
      assert Smallest(f) in AtLevelTable(f, level).es && Smallest(f) in f.es;
      assert Smallest(f) in AtLevelTable(g, level).es;
      if Before(lt, Largest(f), Smallest(g)) {
        EndsOrderAll(lt, f, g, Smallest(f), Smallest(f));
      } else {
        EndsOrderAll(lt, g, f, Smallest(f), Smallest(f));
      }
    }
  }

  lemma NewerTables(f: File, g: File, level: nat, below: nat)
    ensures Newer(AtLevelTable(f, level).es, AtLevelTable(g, below).es) <==> NewerFile(f, g)
  {
    if Newer(AtLevelTable(f, level).es, AtLevelTable(g, below).es) {
      forall x, y | x in f.es && y in g.es && x.key == y.key ensures x.seqno > y.seqno {
        assert x in AtLevelTable(f, level).es && y in AtLevelTable(g, below).es;
      }
    }
  }

  ghost predicate Chosen(lt: Order, level: nat, files0: seq<File>, files1: seq<File>, inputs0: seq<File>,
                         inputs1: seq<File>)
  {
    && ValidLevel(lt, level, files0) && ValidLevel(lt, level + 1, files1) && DistinctIn(files0) && DistinctIn(files1)
    && Settled(lt, level, files0, inputs0) && BoundaryFree(lt, files0, inputs0)
    && Convex(lt, files1, inputs1) && NoneShared(files1, inputs1, inputs0)
  }

  /** On its own level the choice always leaves out only newer versions. */
  lemma UpperLevelSafe(lt: Order, level: nat, files0: seq<File>, inputs0: seq<File>)
    requires TotalOrder(lt) && ValidLevel(lt, level, files0) && DistinctIn(files0)
    requires Settled(lt, level, files0, inputs0) && BoundaryFree(lt, files0, inputs0)
    ensures LeavesNewer(files0, inputs0)
  {
    hide LeavesNewer, Separate, BoundaryFree, Convex;
    if level > 0 {
      LeavesNewerIff(lt, files0, inputs0);
    } else {
      SeparateIsSafe(files0, inputs0);
    }
  }

  lemma SeparateIsSafe(files: seq<File>, chosen: seq<File>)
    requires Separate(files, chosen)
    ensures LeavesNewer(files, chosen)
  {
    forall t, i | t in files && t !in chosen && i in chosen ensures NewerFile(t, i) {
      assert !ShareKey(t, i);
    }
  }

  /** What the picker chooses always leaves out only newer versions at and above its upper level. */
  lemma ChoiceClosed(lt: Order, v: Version, level: nat, files0: seq<File>, files1: seq<File>,
                     inputs0: seq<File>, inputs1: seq<File>)
    requires TotalOrder(lt) && LevelOrder(v) && level + 1 < NUM_LEVELS
    requires Chosen(lt, level, files0, files1, inputs0, inputs1)
    requires AtLevel(v, level) == Tables(files0, level) && AtLevel(v, level + 1) == Tables(files1, level + 1)
    ensures Closed(v, level, Tables(inputs0, level) + Tables(inputs1, level + 1))
  {
    hide BoundaryFree, Convex, NoneShared, ValidLevel, DistinctIn, Separate;
    var inputs := Tables(inputs0, level) + Tables(inputs1, level + 1);
    UpperLevelSafe(lt, level, files0, inputs0);
    ChosenAreFiles(lt, level, files0, files1, inputs0, inputs1);
    assert inputs <= v by {
      assert Tables(inputs0, level) <= AtLevel(v, level) && Tables(inputs1, level + 1) <= AtLevel(v, level + 1);
    }
    forall t, i | t in v - inputs && i in inputs && t.level <= level ensures Newer(t.es, i.es) {
      if t.level == i.level {
        assert t in AtLevel(v, level);
        var f :| f in files0 && t == AtLevelTable(f, level);
        var g :| g in inputs0 && i == AtLevelTable(g, level);
        NewerTables(f, g, level, level);
      } else {
        assert SearchedBefore(t, i);
      }
    }
  }

  lemma ChosenAreFiles(lt: Order, level: nat, files0: seq<File>, files1: seq<File>, inputs0: seq<File>,
                       inputs1: seq<File>)
    requires Chosen(lt, level, files0, files1, inputs0, inputs1)
    ensures (forall f :: f in inputs0 ==> f in files0) && (forall f :: f in inputs1 ==> f in files1)
  {
  }

  /** Keys judged to be at their base level have nothing in the levels below the outputs. */
  ghost predicate Based(v: Version, level: nat, inputs: Version, base: Key -> bool) {
    forall t, e, i :: t in v && t.level >= level + 2 && e in t.es && i in AllOf(inputs) && e.key == i.key ==>
                        !base(e.key)
  }

  /** The entries of the files left out. */
  ghost function LeftOut(files: seq<File>, chosen: seq<File>): set<Entry> {
    set f, e | f in files && f !in chosen && e in f.es :: e
  }

  /** The tables searched before the inputs, and those below their lower level. */
  ghost function Shallower(v: Version, level: nat, inputs: Version): Version {
    set t | t in v - inputs && t.level <= level
  }

  ghost function Deeper(v: Version, level: nat): Version {
    set t | t in v && t.level >= level + 2
  }

  /** Some key's newest input version at the snapshot is a marker that may be dropped, nothing above
      hides the key there, and the newest version left out of the lower level is an older value. */
  ghost predicate HidesValue(es: set<Entry>, snap: nat, base: Key -> bool, above: set<Entry>, left: set<Entry>) {
    exists d, x {:trigger HidesValueBy(es, snap, base, above, left, d, x)} ::
      HidesValueBy(es, snap, base, above, left, d, x)
  }

  ghost predicate HidesValueBy(es: set<Entry>, snap: nat, base: Key -> bool, above: set<Entry>, left: set<Entry>,
                               d: Entry, x: Entry)
  {
    && IsNewest(es, d.key, snap, d) && d.kind == Deletion && base(d.key)
    && !HasVersion(above, d.key, snap)
    && IsNewest(left, d.key, snap, x) && x.seqno < d.seqno && x.kind == Put
  }

  /** Only the lower level can hold what a marker of the inputs hides. */
  lemma UncoversIsHidesValue(es: set<Entry>, snap: nat, base: Key -> bool, above: set<Entry>, left: set<Entry>,
                             deeper: set<Entry>)
    requires Newer(above, es)
    requires forall e, d :: e in deeper && d in es && e.key == d.key ==> !base(e.key)
    ensures C.Uncovers(es, snap, base, above + left + deeper) <==> HidesValue(es, snap, base, above, left)
  {
    var rest := above + left + deeper;
    forall d, x | C.UncoversBy(es, snap, base, rest, d, x) ensures HidesValueBy(es, snap, base, above, left, d, x) {
      assert forall y :: y in above && y.key == d.key && y.seqno <= snap ==> y in rest && y.seqno <= x.seqno;
    }
    forall d, x | HidesValueBy(es, snap, base, above, left, d, x) ensures C.UncoversBy(es, snap, base, rest, d, x) {
      assert forall y :: y in rest && y.key == d.key && y.seqno <= snap ==> y in left;
    }
    if HidesValue(es, snap, base, above, left) {
      var d, x :| HidesValueBy(es, snap, base, above, left, d, x);
      assert C.UncoversBy(es, snap, base, rest, d, x);
    }
  }

  /** Everything but the inputs: what is above them, what is left of the lower level, and what is deeper. */
  lemma BesideInputs(lt: Order, v: Version, level: nat, files0: seq<File>, files1: seq<File>,
                     inputs0: seq<File>, inputs1: seq<File>)
    requires TotalOrder(lt) && Chosen(lt, level, files0, files1, inputs0, inputs1)
    requires AtLevel(v, level + 1) == Tables(files1, level + 1)
    ensures var inputs := Tables(inputs0, level) + Tables(inputs1, level + 1);
            AllOf(v - inputs) ==
            AllOf(Shallower(v, level, inputs)) + LeftOut(files1, inputs1) + AllOf(Deeper(v, level))
  {
    hide BoundaryFree, NoneShared, DistinctIn, Separate, SortedLevel, Settled;
    var inputs := Tables(inputs0, level) + Tables(inputs1, level + 1);
    assert Deeper(v, level) <= v - inputs;
    forall e
      ensures e in LeftOut(files1, inputs1) <==> exists t :: t in v - inputs && t.level == level + 1 && e in t.es
    {
      if e in LeftOut(files1, inputs1) {
        var f :| f in files1 && f !in inputs1 && e in f.es;
        TablesDiffer(lt, files1, inputs1, f, level + 1);
        var t := AtLevelTable(f, level + 1);
        assert t in Tables(files1, level + 1);
        assert t in v - inputs && e in t.es;
      }
      if t :| t in v - inputs && t.level == level + 1 && e in t.es {
        assert t in AtLevel(v, level + 1);
        var f :| f in files1 && t == AtLevelTable(f, level + 1);
        assert f !in inputs1;
      }
    }
  }

  /** What the picker chooses can be merged without any read at or above the snapshot noticing,
      whatever the memtables hold, exactly when no marker that may be dropped hides an older value
      left on the lower level. The source makes sure of that on the upper level only. */
  lemma ChoiceReadsIff(lt: Order, v: Version, level: nat, files0: seq<File>, files1: seq<File>,
                       inputs0: seq<File>, inputs1: seq<File>, items: seq<C.Item>, base: Key -> bool, snap: nat,
                       upper: set<Entry>)
    requires TotalOrder(lt) && LevelOrder(v) && level + 1 < NUM_LEVELS && snap < MAX_SEQUENCE_NUMBER
    requires Chosen(lt, level, files0, files1, inputs0, inputs1)
    requires AtLevel(v, level) == Tables(files0, level) && AtLevel(v, level + 1) == Tables(files1, level + 1)
    requires C.SortedItems(lt, items) && forall i :: 0 <= i < |items| ==> items[i].Good?
    requires var inputs := Tables(inputs0, level) + Tables(inputs1, level + 1);
             C.EntriesOf(items) == AllOf(inputs) && Based(v, level, inputs, base)
    requires Newer(upper, AllOf(v)) && DistinctVersions(upper + AllOf(v))
    ensures var inputs := Tables(inputs0, level) + Tables(inputs1, level + 1);
            && upper + AllOf(v) == upper + AllOf(v - inputs) + C.EntriesOf(items)
            && (C.SameBeside(items, snap, base, upper + AllOf(v - inputs)) <==>
                !HidesValue(AllOf(inputs), snap, base, upper + AllOf(Shallower(v, level, inputs)),
                             LeftOut(files1, inputs1)))
  {
    hide Chosen, C.SameBeside, C.Uncovers, HidesValue, LevelOrder, C.EntriesOf, C.SortedItems, TotalOrder;
    var inputs := Tables(inputs0, level) + Tables(inputs1, level + 1);
    var above, left := upper + AllOf(Shallower(v, level, inputs)), LeftOut(files1, inputs1);
    ChoiceClosed(lt, v, level, files0, files1, inputs0, inputs1);
    BesideInputs(lt, v, level, files0, files1, inputs0, inputs1);
    assert upper + AllOf(v - inputs) == above + left + AllOf(Deeper(v, level));
    AboveIsNewer(v, level, inputs, upper);
    UncoversIsHidesValue(AllOf(inputs), snap, base, above, left, AllOf(Deeper(v, level)));
    assert AllOf(v) == AllOf(v - inputs) + AllOf(inputs);
    C.MergedReadsIff(lt, items, snap, base, upper + AllOf(v - inputs));
  }

  lemma AboveIsNewer(v: Version, level: nat, inputs: Version, upper: set<Entry>)
    requires Closed(v, level, inputs) && Newer(upper, AllOf(v))
    ensures Newer(upper + AllOf(Shallower(v, level, inputs)), AllOf(inputs))
  {
    assert AllOf(inputs) <= AllOf(v);
    forall x, y | x in AllOf(Shallower(v, level, inputs)) && y in AllOf(inputs) && x.key == y.key
      ensures x.seqno > y.seqno
    {
      var t :| t in Shallower(v, level, inputs) && x in t.es;
      var i :| i in inputs && y in i.es;
      assert Newer(t.es, i.es);
    }
  }

  /** When no file of the lower level continues the last user key of the inputs taken from it, nothing
      is hidden; so compactions in which files end between user keys are always safe. */
  lemma BoundaryFreeIsSafe(lt: Order, level: nat, files0: seq<File>, files1: seq<File>,
                           inputs0: seq<File>, inputs1: seq<File>, base: Key -> bool, snap: nat, above: set<Entry>)
    requires TotalOrder(lt) && Chosen(lt, level, files0, files1, inputs0, inputs1) && BoundaryFree(lt, files1, inputs1)
    ensures var inputs := Tables(inputs0, level) + Tables(inputs1, level + 1);
            !HidesValue(AllOf(inputs), snap, base, above, LeftOut(files1, inputs1))
  {
    hide BoundaryFree, Separate, SortedLevel, Settled, Convex;
    var es := AllOf(Tables(inputs0, level) + Tables(inputs1, level + 1));
    LeavesNewerIff(lt, files1, inputs1);
    forall d, x | d in es && x in LeftOut(files1, inputs1) && d.key == x.key ensures x.seqno > d.seqno {
      var f :| f in files1 && f !in inputs1 && x in f.es;
      var g :| (g in inputs0 || g in inputs1) && d in g.es;
      assert g in inputs1 ==> NewerFile(f, g);
      assert g in inputs0 ==> !ShareKey(f, g);
    }
  }

  // ----- Searching a level -----

  /** The source's binary search: the first file whose largest key is not before the target. */
  method FindFile(lt: Order, files: seq<File>, target: Entry) returns (index: nat)
    requires TotalOrder(lt) && SortedLevel(lt, files)
    ensures index <= |files|
    ensures forall i :: 0 <= i < index ==> Before(lt, Largest(files[i]), target)
    ensures index < |files| ==> !Before(lt, Largest(files[index]), target)
  {
    var left, right := 0, |files|;
    while left < right
      invariant left <= right <= |files|
      invariant forall i :: 0 <= i < left ==> Before(lt, Largest(files[i]), target)
      invariant right < |files| ==> !Before(lt, Largest(files[right]), target)
    {
      var mid := (left + right) / 2;
      if Before(lt, Largest(files[mid]), target) {
        EarlierFiles(lt, files, mid, target);
        left := mid + 1;
      } else {
        right := mid;
      }
    }
    index := right;
  }

  lemma EarlierFiles(lt: Order, files: seq<File>, mid: nat, target: Entry)
    requires TotalOrder(lt) && SortedLevel(lt, files) && mid < |files| && Before(lt, Largest(files[mid]), target)
    ensures forall i :: 0 <= i <= mid ==> Before(lt, Largest(files[i]), target)
  {
    forall i | 0 <= i < mid ensures Before(lt, Largest(files[i]), target) {
      BeforeLargest(lt, Largest(files[i]), files[mid]);
      BeforeTransitive(lt, Largest(files[i]), Largest(files[mid]), target);
    }
  }

  ghost function EntriesIn(files: seq<File>): set<Entry> {
    set f, e | f in files && e in f.es :: e
  }

  /** One file decides a level: every version of a key visible at s lies in the file the search ends on
      or, if it is older than what that file holds, after it. So looking into that file alone finds
      what the whole level holds, and looking into none is right when there is none. */
  lemma OneFileDecides(lt: Order, files: seq<File>, k: Key, s: nat, index: nat)
    requires TotalOrder(lt) && SortedLevel(lt, files) && index <= |files| && DistinctVersions(EntriesIn(files))
    requires forall i :: 0 <= i < index ==> Before(lt, Largest(files[i]), Entry(k, s, Put, []))
    requires index < |files| ==> !Before(lt, Largest(files[index]), Entry(k, s, Put, []))
    ensures index == |files| ==> !HasVersion(EntriesIn(files), k, s)
    ensures index < |files| ==> Visible(EntriesIn(files), k, s) == Visible((set e | e in files[index].es), k, s)
  {
    var all := EntriesIn(files);
    forall e | e in all && e.key == k && e.seqno <= s
      ensures index < |files| && exists x :: x in files[index].es && x.key == k && e.seqno <= x.seqno <= s
    {
      OneFileCovers(lt, files, k, s, index, e);
    }
    if index < |files| {
      var part := set e | e in files[index].es;
      assert part <= all;
      assert Dominates(part, all, k, s);
      PartDecides(all, part, k, s);
    }
  }

  lemma OneFileCovers(lt: Order, files: seq<File>, k: Key, s: nat, index: nat, e: Entry)
    requires TotalOrder(lt) && SortedLevel(lt, files) && index <= |files|
    requires forall i :: 0 <= i < index ==> Before(lt, Largest(files[i]), Entry(k, s, Put, []))
    requires index < |files| ==> !Before(lt, Largest(files[index]), Entry(k, s, Put, []))
    requires e in EntriesIn(files) && e.key == k && e.seqno <= s
    ensures index < |files| && exists x :: x in files[index].es && x.key == k && e.seqno <= x.seqno <= s
  {
    hide TotalOrder, SortedLevel, Before;
    var f :| f in files && e in f.es;
    var i :| 0 <= i < |files| && files[i] == f;
    NotBeforeSearch(lt, files, k, s, index, i, e);
    if i > index {
      LastOfFile(lt, files, k, s, index, i, e);
    }
  }

  /** A part that holds, for each visible version of a key, one at least as new. */
  ghost predicate Dominates(part: set<Entry>, all: set<Entry>, k: Key, s: nat) {
    forall e :: e in all && e.key == k && e.seqno <= s ==>
                  exists x :: x in part && x.key == k && e.seqno <= x.seqno <= s
  }

  lemma Dominating(part: set<Entry>, all: set<Entry>, k: Key, s: nat, e: Entry) returns (x: Entry)
    requires Dominates(part, all, k, s) && e in all && e.key == k && e.seqno <= s
    ensures x in part && x.key == k && e.seqno <= x.seqno <= s
  {
    x :| x in part && x.key == k && e.seqno <= x.seqno <= s;
  }

  /** Such a part reads like the whole. */
  lemma PartDecides(all: set<Entry>, part: set<Entry>, k: Key, s: nat)
    requires DistinctVersions(all) && part <= all && Dominates(part, all, k, s)
    ensures Visible(all, k, s) == Visible(part, k, s)
  {
    hide Read, Dominates;
    if HasVersion(all, k, s) {
      NewestExists(all, k, s);
      var n :| IsNewest(all, k, s, n);
      var x := Dominating(part, all, k, s, n);
      assert x == n && IsNewest(part, k, s, n);
      assert HasVersion(part, k, s);
      ReadIs(all, k, s, n);
      ReadIs(part, k, s, n);
    }
  }

  /** Nothing visible lies in the files passed over. */
  lemma NotBeforeSearch(lt: Order, files: seq<File>, k: Key, s: nat, index: nat, i: nat, e: Entry)
    requires TotalOrder(lt) && SortedLevel(lt, files) && i < |files| && e in files[i].es && e.key == k && e.seqno <= s
    requires forall j :: 0 <= j < index && j < |files| ==> Before(lt, Largest(files[j]), Entry(k, s, Put, []))
    ensures i >= index
  {
    if i < index {
      assert files[i] in files && ValidFile(lt, files[i]);
      var m :| 0 <= m < |files[i].es| && files[i].es[m] == e;
      assert m == |files[i].es| - 1 || Before(lt, files[i].es[m], files[i].es[|files[i].es| - 1]);
      if e != Largest(files[i]) {
        BeforeTransitive(lt, e, Largest(files[i]), Entry(k, s, Put, []));
      }
    }
  }

  /** A visible version in a later file is older than the last entry of the file the search ended on,
      which then has the same key. */
  lemma LastOfFile(lt: Order, files: seq<File>, k: Key, s: nat, index: nat, i: nat, e: Entry)
    requires TotalOrder(lt) && SortedLevel(lt, files) && index < i < |files| && e in files[i].es && e.key == k
    requires e.seqno <= s
    requires !Before(lt, Largest(files[index]), Entry(k, s, Put, []))
    ensures var x := Largest(files[index]); x in files[index].es && x.key == k && e.seqno <= x.seqno <= s
  {
    var x := Largest(files[index]);
    EndsOrderAll(lt, files[index], files[i], x, e);
  }

  // ----- Base levels -----

  /** The key ranges by which a compaction judges the levels below it. */
  function Ranges(files: seq<File>): seq<C.FileRange> {
    seq(|files|, i requires 0 <= i < |files| => C.FileRange(Smallest(files[i]).key, Largest(files[i]).key))
  }

  function AllRanges(levels: seq<seq<File>>): seq<seq<C.FileRange>> {
    seq(|levels|, l requires 0 <= l < |levels| => Ranges(levels[l]))
  }

  /** Keys the compaction's range test calls base really have no version at deeper levels. */
  lemma BaseKeysAreBased(lt: Order, v: Version, levels: seq<seq<File>>, level: nat, inputs: Version)
    requires TotalOrder(lt) && |levels| == NUM_LEVELS && LevelOrder(v)
    requires forall l :: 0 <= l < NUM_LEVELS ==> AtLevel(v, l) == Tables(levels[l], l)
    requires forall l, f :: 0 <= l < NUM_LEVELS && f in levels[l] ==> ValidFile(lt, f)
    ensures Based(v, level, inputs, k => C.IsBase(lt, AllRanges(levels), level, k))
  {
    forall t, e, i | t in v && t.level >= level + 2 && e in t.es && i in AllOf(inputs) && e.key == i.key
      ensures !C.IsBase(lt, AllRanges(levels), level, e.key)
    {
      assert t in AtLevel(v, t.level);
      var f :| f in levels[t.level] && t == AtLevelTable(f, t.level);
      var n :| 0 <= n < |levels[t.level]| && levels[t.level][n] == f;
      InItsRange(lt, f, e);
      assert C.InRange(lt, AllRanges(levels)[t.level][n], e.key);
    }
  }

  lemma InItsRange(lt: Order, f: File, e: Entry)
    requires TotalOrder(lt) && ValidFile(lt, f) && e in f.es
    ensures C.InRange(lt, C.FileRange(Smallest(f).key, Largest(f).key), e.key)
  {
    var i :| 0 <= i < |f.es| && f.es[i] == e;
    assert i == 0 || Before(lt, f.es[0], f.es[i]);
    assert i == |f.es| - 1 || Before(lt, f.es[i], f.es[|f.es| - 1]);
  }

  // ----- When it is not -----

  /** A lower level whose two files share the user key k: a deletion marker ends the first, and the
      value it hides starts the second. */
  function LowerLevel(b: Key, k: Key, v: Value): seq<File> {
    [FileMetaData(7, [Entry(b, 4, Put, v), Entry(k, 5, Deletion, [])]), FileMetaData(8, [Entry(k, 3, Put, v)])]
  }

  function UpperLevel(b: Key, v: Value): seq<File> {
    [FileMetaData(9, [Entry(b, 6, Put, v)])]
  }

  function AsItems(es: seq<Entry>): seq<C.Item> {
    seq(|es|, i requires 0 <= i < |es| => C.Good(es[i]))
  }

  /** Such a level comes from a compaction that ran while a snapshot at 3 was held: it keeps all three
      versions, and the size rules may end a file anywhere. */
  lemma SnapshotKeepsBoth(b: Key, k: Key, v: Value)
    requires b != k
    ensures var items := AsItems(LowerLevel(b, k, v)[0].es + LowerLevel(b, k, v)[1].es);
            C.Kept(items, 3, _ => true) == items
  {
    var items := AsItems(LowerLevel(b, k, v)[0].es + LowerLevel(b, k, v)[1].es);
    assert items == [items[0], items[1], items[2]];
    KeptThree(items[0], items[1], items[2], 3, _ => true);
  }

  lemma Asymmetric(lt: Order, b: Key, k: Key)
    requires TotalOrder(lt) && lt(b, k)
    ensures b != k && !lt(k, b) && !lt(b, b) && !lt(k, k)
  {
  }

  /** An upper file that ends before k makes the picker take the marker's file alone. */
  lemma PickerSplitsKey(lt: Order, b: Key, k: Key, v: Value)
    requires TotalOrder(lt) && lt(b, k)
    ensures Chosen(lt, 1, UpperLevel(b, v), LowerLevel(b, k, v), UpperLevel(b, v), [LowerLevel(b, k, v)[0]])
    ensures Overlapping(lt, LowerLevel(b, k, v), b, b) == [LowerLevel(b, k, v)[0]]
    ensures !BoundaryFree(lt, LowerLevel(b, k, v), [LowerLevel(b, k, v)[0]])
  {
    hide TotalOrder, Convex, NoneShared, BoundaryFree, SortedLevel, DistinctIn, ShareKey, Sorted, Overlapping, Overlaps;
    var files0, files1 := UpperLevel(b, v), LowerLevel(b, k, v);
    Asymmetric(lt, b, k);
    OnlyFirstOverlaps(lt, b, k, v);
    LevelsValid(lt, b, k, v);
    OverlappingConvex(lt, files1, b, b);
    SingleConvex(lt, files0, files0[0]);
    SearchedShareNothing(lt, files1, files0, b, b);
    Boundaries(lt, b, k, v);
  }

  lemma OnlyFirstOverlaps(lt: Order, b: Key, k: Key, v: Value)
    requires lt(b, k) && b != k && !lt(k, b)
    ensures Overlapping(lt, LowerLevel(b, k, v), b, b) == [LowerLevel(b, k, v)[0]]
  {
    var files1 := LowerLevel(b, k, v);
    assert Overlaps(lt, files1[0], b, b) && !Overlaps(lt, files1[1], b, b);
    FirstOfTwo(lt, files1[0], files1[1], b);
  }

  lemma FirstOfTwo(lt: Order, f: File, g: File, b: Key)
    requires Overlaps(lt, f, b, b) && !Overlaps(lt, g, b, b)
    ensures Overlapping(lt, [f, g], b, b) == [f]
  {
    hide Overlaps;
    assert [f, g][..1] == [f] && [f][..0] == [];
    assert Overlapping(lt, [f], b, b) == Overlapping(lt, [], b, b) + [f];
  }

  lemma LevelsValid(lt: Order, b: Key, k: Key, v: Value)
    requires lt(b, k) && b != k
    ensures ValidLevel(lt, 1, UpperLevel(b, v)) && DistinctIn(UpperLevel(b, v))
    ensures ValidLevel(lt, 2, LowerLevel(b, k, v)) && DistinctIn(LowerLevel(b, k, v))
  {
    hide DistinctIn, Before;
    LowerEntries(b, k, v);
    RunsSorted(lt, b, k, v);
  }

  lemma RunsSorted(lt: Order, b: Key, k: Key, v: Value)
    requires lt(b, k) && b != k
    ensures SortedLevel(lt, UpperLevel(b, v)) && SortedLevel(lt, LowerLevel(b, k, v))
  {
    var files := LowerLevel(b, k, v);
    assert Before(lt, files[0].es[0], files[0].es[1]);
    assert forall f :: f in files ==> f == files[0] || f == files[1];
  }

  lemma LowerEntry(b: Key, k: Key, v: Value, f: File, x: Entry)
    requires f in LowerLevel(b, k, v) && x in f.es
    ensures x == Entry(b, 4, Put, v) || x == Entry(k, 5, Deletion, []) || x == Entry(k, 3, Put, v)
  {
    var files := LowerLevel(b, k, v);
    if f == files[0] {
      assert x == files[0].es[0] || x == files[0].es[1];
    } else {
      assert f == files[1] && x == files[1].es[0];
    }
  }

  lemma LowerEntries(b: Key, k: Key, v: Value)
    ensures DistinctIn(UpperLevel(b, v)) && DistinctIn(LowerLevel(b, k, v))
  {
    hide LowerLevel;
    forall f, g, x, y | f in LowerLevel(b, k, v) && g in LowerLevel(b, k, v) && x in f.es && y in g.es &&
                        x.key == y.key && x.seqno == y.seqno
      ensures x == y
    {
      LowerEntry(b, k, v, f, x);
      LowerEntry(b, k, v, g, y);
    }
  }

  lemma Boundaries(lt: Order, b: Key, k: Key, v: Value)
    requires TotalOrder(lt) && lt(b, k)
    ensures BoundaryFree(lt, UpperLevel(b, v), UpperLevel(b, v))
    ensures !BoundaryFree(lt, LowerLevel(b, k, v), [LowerLevel(b, k, v)[0]])
  {
    var files1 := LowerLevel(b, k, v);
    assert IsLargestKey(lt, [files1[0]], Largest(files1[0]));
    assert IsBoundary(lt, files1[1], Largest(files1[0]));
  }

  /** With the snapshot gone the compaction drops the marker, as nothing deeper holds k, and the
      deleted value can be read again. */
  lemma BoundaryResurrects(lt: Order, b: Key, k: Key, v: Value)
    requires TotalOrder(lt) && lt(b, k)
    ensures var items := AsItems(UpperLevel(b, v)[0].es + LowerLevel(b, k, v)[0].es);
            var left := AtLevelTable(LowerLevel(b, k, v)[1], 2).es;
            && C.SortedItems(lt, items)
            && Read(C.EntriesOf(items) + left, k, 6) == None
            && Read(C.EntriesOf(C.Kept(items, 6, _ => true)) + left, k, 6) == Some(v)
  {
    hide TotalOrder, C.KeptTo, C.Dropped, C.EntriesOf, Read;
    Asymmetric(lt, b, k);
    var top, low, del, put := Entry(b, 6, Put, v), Entry(b, 4, Put, v), Entry(k, 5, Deletion, []), Entry(k, 3, Put, v);
    var items := AsItems(UpperLevel(b, v)[0].es + LowerLevel(b, k, v)[0].es);
    var left := AtLevelTable(LowerLevel(b, k, v)[1], 2).es;
    assert items == [C.Good(top), C.Good(low), C.Good(del)] && left == {put};
    OnlyTopKept(b, k, v);
    ThreeEntries(top, low, del);
    OneEntry(top);
    MarkerHides(b, k, v);
  }

  /** With its deletion marker the value is hidden; without it, it is not. */
  lemma MarkerHides(b: Key, k: Key, v: Value)
    requires b != k
    ensures var top, low, del, put := Entry(b, 6, Put, v), Entry(b, 4, Put, v),
            Entry(k, 5, Deletion, []), Entry(k, 3, Put, v);
            Read({top, low, del} + {put}, k, 6) == None && Read({top} + {put}, k, 6) == Some(v)
  {
    hide Read;
    var top, low, del, put := Entry(b, 6, Put, v), Entry(b, 4, Put, v), Entry(k, 5, Deletion, []), Entry(k, 3, Put, v);
    ReadIs({top, low, del} + {put}, k, 6, del);
    ReadIs({top} + {put}, k, 6, put);
  }

  lemma OnlyTopKept(b: Key, k: Key, v: Value)
    requires b != k
    ensures C.Kept([C.Good(Entry(b, 6, Put, v)), C.Good(Entry(b, 4, Put, v)),
                    C.Good(Entry(k, 5, Deletion, []))], 6, _ => true) ==
            [C.Good(Entry(b, 6, Put, v))]
  {
    KeptThree(C.Good(Entry(b, 6, Put, v)), C.Good(Entry(b, 4, Put, v)),
              C.Good(Entry(k, 5, Deletion, [])), 6, _ => true);
  }

  lemma OneEntry(x: Entry)
    ensures C.EntriesOf([C.Good(x)]) == {x}
  {
    assert C.Good(x) in [C.Good(x)];
  }

  lemma ThreeEntries(x: Entry, y: Entry, z: Entry)
    ensures C.EntriesOf([C.Good(x), C.Good(y), C.Good(z)]) == {x, y, z}
  {
    var items := [C.Good(x), C.Good(y), C.Good(z)];
    assert C.Good(x) in items && C.Good(y) in items && C.Good(z) in items;
  }

  lemma KeptThree(x: C.Item, y: C.Item, z: C.Item, snap: nat, base: Key -> bool)
    ensures var items := [x, y, z];
            C.Kept(items, snap, base) ==
            (if C.Dropped(items, snap, base, 0) then [] else [x]) +
            (if C.Dropped(items, snap, base, 1) then [] else [y]) +
            (if C.Dropped(items, snap, base, 2) then [] else [z])
  {
    var items := [x, y, z];
    assert C.KeptTo(items, snap, base, 0) == [];
    assert C.KeptTo(items, snap, base, 1) == if C.Dropped(items, snap, base, 0) then [] else [x];
    assert C.KeptTo(items, snap, base, 2) ==
           C.KeptTo(items, snap, base, 1) + if C.Dropped(items, snap, base, 1) then [] else [y];
  }
}
