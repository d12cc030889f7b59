/** The files of each level as versions come and go: a builder merges edits, and below level 0 a level
    stays one sorted run, which is what lets a search look into one file only. */
module LevelRuns {
  import opened Entries
  import opened Versions
  import opened Picking

  // ----- Building a level -----

  /** The builder's order on files: by smallest key, ties broken by number. */
  predicate Precedes(lt: Order, f: File, g: File) {
    || Before(lt, Smallest(f), Smallest(g))
    || (!Before(lt, Smallest(g), Smallest(f)) && f.number < g.number)
  }

  ghost predicate Listed(lt: Order, files: seq<File>) {
    forall i, j :: 0 <= i < j < |files| ==> Precedes(lt, files[i], files[j])
  }

  /** The files of a level after an edit that deletes some numbers and adds some files. */
  ghost predicate Saved(lt: Order, base: seq<File>, deleted: set<nat>, added: seq<File>, files: seq<File>) {
    && Listed(lt, files)
    && forall f :: f in files <==> (f in base || f in added) && f.number !in deleted
  }

  lemma PrecedesTransitive(lt: Order, f: File, g: File, h: File)
    requires TotalOrder(lt) && Precedes(lt, f, g) && Precedes(lt, g, h)
    ensures Precedes(lt, f, h)
  {
  }

  lemma PrecedesTotal(lt: Order, f: File, g: File)
    requires TotalOrder(lt) && f.number != g.number && !Precedes(lt, f, g)
    ensures Precedes(lt, g, f)
  {
  }

  /** Everything listed so far comes before f. */
  ghost predicate AllPrecede(lt: Order, files: seq<File>, f: File) {
    forall g :: g in files ==> Precedes(lt, g, f)
  }

  lemma ListedAppend(lt: Order, files: seq<File>, f: File)
    requires Listed(lt, files) && AllPrecede(lt, files, f)
    ensures Listed(lt, files + [f])
  {
  }

  lemma PrecedeLater(lt: Order, files: seq<File>, f: File, g: File)
    requires TotalOrder(lt) && AllPrecede(lt, files, f) && Precedes(lt, f, g)
    ensures AllPrecede(lt, files + [f], g) && AllPrecede(lt, files, g)
  {
    forall h | h in files ensures Precedes(lt, h, g) {
      PrecedesTransitive(lt, h, f, g);
    }
  }

  /** What the merge has listed: everything before the two places it has come to. */
  ghost predicate Merging(lt: Order, base: seq<File>, deleted: set<nat>, added: seq<File>, b: nat, a: nat,
                          files: seq<File>)
    requires b <= |base| && a <= |added|
  {
    && Saved(lt, base[..b], deleted, added[..a], files)
    && (b < |base| ==> AllPrecede(lt, files, base[b]))
    && (a < |added| ==> AllPrecede(lt, files, added[a]))
  }

  lemma TakeBase(lt: Order, base: seq<File>, deleted: set<nat>, added: seq<File>, b: nat, a: nat, files: seq<File>)
    requires TotalOrder(lt) && Listed(lt, base) && b < |base| && a <= |added|
    requires Merging(lt, base, deleted, added, b, a, files)
    requires a < |added| ==> Precedes(lt, base[b], added[a])
    ensures var f := base[b];
            Merging(lt, base, deleted, added, b + 1, a, if f.number in deleted then files else files + [f])
  {
    hide Precedes, Listed;
    var f := base[b];
    assert base[..b + 1] == base[..b] + [f];
    ListedAppend(lt, files, f);
    if b + 1 < |base| {
      ListedNext(lt, base, b);
      PrecedeLater(lt, files, f, base[b + 1]);
    }
    if a < |added| {
      PrecedeLater(lt, files, f, added[a]);
    }
  }

  lemma ListedNext(lt: Order, files: seq<File>, i: nat)
    requires Listed(lt, files) && i + 1 < |files|
    ensures Precedes(lt, files[i], files[i + 1])
  {
  }

  lemma TakeAdded(lt: Order, base: seq<File>, deleted: set<nat>, added: seq<File>, b: nat, a: nat, files: seq<File>)
    requires TotalOrder(lt) && Listed(lt, added) && b <= |base| && a < |added|
    requires Merging(lt, base, deleted, added, b, a, files) && added[a].number !in deleted
    requires b < |base| ==> Precedes(lt, added[a], base[b])
    ensures Merging(lt, base, deleted, added, b, a + 1, files + [added[a]])
  {
    hide Precedes, Listed;
    var f := added[a];
    assert added[..a + 1] == added[..a] + [f];
    ListedAppend(lt, files, f);
    if b < |base| {
      PrecedeLater(lt, files, f, base[b]);
    }
    if a + 1 < |added| {
      ListedNext(lt, added, a);
      PrecedeLater(lt, files, f, added[a + 1]);
    }
  }

  lemma MergingWhole(lt: Order, base: seq<File>, deleted: set<nat>, added: seq<File>, files: seq<File>)
    requires Merging(lt, base, deleted, added, |base|, |added|, files)
    ensures Saved(lt, base, deleted, added, files)
  {
    assert base[..|base|] == base && added[..|added|] == added;
  }

  /** The builder's SaveTo for one level: the added files are merged into the base files in order, and
      deleted ones passed over. */
  method SaveTo(lt: Order, base: seq<File>, deleted: set<nat>, added: seq<File>) returns (files: seq<File>)
    requires TotalOrder(lt) && Listed(lt, base) && Listed(lt, added)
    requires forall f, g :: f in base && g in added ==> f.number != g.number
    requires forall g :: g in added ==> g.number !in deleted
    ensures Saved(lt, base, deleted, added, files)
  {
    hide Precedes, Listed, Saved, AllPrecede, Merging;
    files := [];
    var b := 0;
    NothingMerged(lt, base, deleted, added);
    for a := 0 to |added|
      invariant b <= |base| && Merging(lt, base, deleted, added, b, a, files)
    {
      while b < |base| && !Precedes(lt, added[a], base[b])
        invariant b <= |base| && Merging(lt, base, deleted, added, b, a, files)
      {
        PrecedesTotal(lt, added[a], base[b]);
        TakeBase(lt, base, deleted, added, b, a, files);
        files := if base[b].number in deleted then files else files + [base[b]];
        b := b + 1;
      }
      TakeAdded(lt, base, deleted, added, b, a, files);
      files := files + [added[a]];
    }
    while b < |base|
      invariant b <= |base| && Merging(lt, base, deleted, added, b, |added|, files)
    {
      TakeBase(lt, base, deleted, added, b, |added|, files);
      files := if base[b].number in deleted then files else files + [base[b]];
      b := b + 1;
    }
    MergingWhole(lt, base, deleted, added, files);
  }

  /** There always is such a level. */
  lemma {:induction false} SavedExists(lt: Order, base: seq<File>, deleted: set<nat>, added: seq<File>, b: nat, a: nat,
                                       files: seq<File>)
    returns (whole: seq<File>)
    requires TotalOrder(lt) && Listed(lt, base) && Listed(lt, added) && b <= |base| && a <= |added|
    requires forall f, g :: f in base && g in added ==> f.number != g.number
    requires forall g :: g in added ==> g.number !in deleted
    requires Merging(lt, base, deleted, added, b, a, files)
    ensures Saved(lt, base, deleted, added, whole)
    decreases |base| - b + |added| - a
  {
    hide Precedes, Listed, Saved, AllPrecede, Merging;
    if b < |base| && (a == |added| || !Precedes(lt, added[a], base[b])) {
      if a < |added| {
        PrecedesTotal(lt, added[a], base[b]);
      }
      TakeBase(lt, base, deleted, added, b, a, files);
      whole := SavedExists(lt, base, deleted, added, b + 1, a,
                           if base[b].number in deleted then files else files + [base[b]]);
    } else if a < |added| {
      TakeAdded(lt, base, deleted, added, b, a, files);
      whole := SavedExists(lt, base, deleted, added, b, a + 1, files + [added[a]]);
    } else {
      MergingWhole(lt, base, deleted, added, files);
      whole := files;
    }
  }

  lemma NothingMerged(lt: Order, base: seq<File>, deleted: set<nat>, added: seq<File>)
    ensures Merging(lt, base, deleted, added, 0, 0, [])
  {
  }

  // ----- One sorted run -----

  /** One file ends before the other starts. */
  predicate Apart(lt: Order, f: File, g: File) {
    Before(lt, Largest(f), Smallest(g)) || Before(lt, Largest(g), Smallest(f))
  }

  /** A listed level is one sorted run exactly when its files lie apart: the builder's own check. */
  lemma SortedIffApart(lt: Order, files: seq<File>)
    requires TotalOrder(lt) && Listed(lt, files) && forall f :: f in files ==> ValidFile(lt, f)
    ensures SortedLevel(lt, files) <==> forall f, g :: f in files && g in files && f != g ==> Apart(lt, f, g)
  {
    if SortedLevel(lt, files) {
      forall f, g | f in files && g in files && f != g ensures Apart(lt, f, g) {
        SortedLevelOrders(lt, files, f, g);
      }
    } else {
      var i, j :| 0 <= i < j < |files| && !Before(lt, Largest(files[i]), Smallest(files[j]));
      ListedDiffer(lt, files, i, j);
      assert !Apart(lt, files[i], files[j]);
    }
  }

  /** Of two listed files the later one does not end before the earlier one starts. */
  lemma ListedDiffer(lt: Order, files: seq<File>, i: nat, j: nat)
    requires TotalOrder(lt) && Listed(lt, files) && i < j < |files| && ValidFile(lt, files[j])
    ensures files[i] != files[j] && !Before(lt, Largest(files[j]), Smallest(files[i]))
  {
    var f, g := files[i], files[j];
    assert Precedes(lt, f, g);
    assert |g.es| == 1 || Before(lt, g.es[0], g.es[|g.es| - 1]);
    if Before(lt, Largest(g), Smallest(f)) {
      assert Before(lt, Smallest(g), Smallest(f));
    }
  }

  // ----- Versions as they come and go -----

  /** A compaction under way, with the inputs it will replace. */
  datatype Work = Work(level: nat, inputs0: seq<File>, inputs1: seq<File>)

  datatype Runs = Runs(levels: seq<seq<File>>, running: Option<Work>)

  function Inputs(w: Work): seq<File> {
    w.inputs0 + w.inputs1
  }

  function FileNumbers(files: seq<File>): set<nat> {
    set f | f in files :: f.number
  }

  datatype Step =
    | Flush(f: File, to: nat)
    | Begin(w: Work)
    | Finish(outputs: seq<File>)
    | Abandon
    | Move(f: File, level: nat)

  /** What `PickLevelForMemTableOutput` promises of the level a memtable is flushed to. */
  ghost predicate Picked(lt: Order, levels: seq<seq<File>>, f: File, to: nat)
    requires |levels| == NUM_LEVELS
  {
    && ValidFile(lt, f) && to <= MAX_MEM_COMPACT_LEVEL
    && (to > 0 ==> forall l, g :: 0 <= l <= to && g in levels[l] ==> !Overlaps(lt, g, Smallest(f).key, Largest(f).key))
  }

  /** What `SetupOtherInputs` promises of the inputs. */
  ghost predicate SetUp(lt: Order, levels: seq<seq<File>>, w: Work)
    requires |levels| == NUM_LEVELS
  {
    && w.level + 1 < NUM_LEVELS && w.inputs0 != [] && (forall f :: f in w.inputs0 ==> f in levels[w.level])
    && Swept(lt, levels[w.level + 1], w.inputs0, w.inputs1)
  }

  /** A sorted run of entries of the inputs, however it is cut and whatever is dropped. */
  ghost predicate OutputsOf(lt: Order, inputs: seq<File>, outputs: seq<File>) {
    && SortedLevel(lt, outputs)
    && forall o, x :: o in outputs && x in o.es ==> exists i :: i in inputs && x in i.es
  }

  /** New files take numbers no file of any level has. */
  ghost predicate Fresh(levels: seq<seq<File>>, files: seq<File>) {
    forall l, f, g :: 0 <= l < |levels| && f in levels[l] && g in files ==> f.number != g.number
  }

  ghost predicate Next(lt: Order, st: Runs, step: Step, st': Runs) {
    && |st.levels| == NUM_LEVELS
    && match step
       case Flush(f, to) =>
         && Picked(lt, st.levels, f, to) && Fresh(st.levels, [f]) && st'.running == st.running
         && Added(lt, st.levels, st'.levels, to, f)
       case Begin(w) =>
         && st.running == None && SetUp(lt, st.levels, w)
         && st' == st.(running := Some(w))
       case Finish(outputs) =>
         && st.running.Some? && st'.running == None
         && var w := st.running.value;
            && OutputsOf(lt, Inputs(w), outputs) && Fresh(st.levels, outputs)
            && Lowered(lt, st.levels, st'.levels, w.level, FileNumbers(w.inputs0), FileNumbers(w.inputs1), outputs)
       case Abandon =>
         st' == st.(running := None)
       case Move(f, level) =>
         && st.running == None && st'.running == None && SetUp(lt, st.levels, Work(level, [f], []))
         && Lowered(lt, st.levels, st'.levels, level, {f.number}, {}, [f])
  }

  ghost predicate Added(lt: Order, levels: seq<seq<File>>, levels': seq<seq<File>>, to: nat, f: File)
    requires |levels| == NUM_LEVELS
  {
    && to < NUM_LEVELS && |levels'| == NUM_LEVELS
    && Saved(lt, levels[to], {}, [f], levels'[to])
    && forall l :: 0 <= l < NUM_LEVELS && l != to ==> levels'[l] == levels[l]
  }

  /** Files are deleted from two levels, and others added to the lower one. */
  ghost predicate Lowered(lt: Order, levels: seq<seq<File>>, levels': seq<seq<File>>, level: nat, gone0: set<nat>,
                          gone1: set<nat>, added: seq<File>)
    requires |levels| == NUM_LEVELS
  {
    && level + 1 < NUM_LEVELS && |levels'| == NUM_LEVELS
    && Saved(lt, levels[level], gone0, [], levels'[level])
    && Saved(lt, levels[level + 1], gone1, added, levels'[level + 1])
    && forall l :: 0 <= l < NUM_LEVELS && l != level && l != level + 1 ==> levels'[l] == levels[l]
  }

  // ----- What stays true -----

  ghost predicate LevelsOk(lt: Order, levels: seq<seq<File>>) {
    && |levels| == NUM_LEVELS
    && (forall l, f :: 0 <= l < NUM_LEVELS && f in levels[l] ==> ValidFile(lt, f))
    && (forall l :: 0 <= l < NUM_LEVELS ==> Listed(lt, levels[l]))
    && forall l :: 1 <= l < NUM_LEVELS ==> SortedLevel(lt, levels[l])
  }

  /** The inputs are still there, and every other file of the output level lies apart from each. */
  ghost predicate WorkOk(lt: Order, levels: seq<seq<File>>, w: Work)
    requires |levels| == NUM_LEVELS
  {
    && w.level + 1 < NUM_LEVELS
    && (forall i :: i in w.inputs0 ==> i in levels[w.level] && ValidFile(lt, i))
    && (forall i :: i in w.inputs1 ==> i in levels[w.level + 1] && ValidFile(lt, i))
    && forall g, i :: g in levels[w.level + 1] && g !in w.inputs1 && i in Inputs(w) ==> Apart(lt, i, g)
  }

  /** Some inputs end before the file and others start after it. */
  ghost predicate Straddled(lt: Order, inputs: seq<File>, g: File) {
    exists i, j :: i in inputs && j in inputs && Before(lt, Largest(i), Smallest(g)) &&
                   Before(lt, Largest(g), Smallest(j))
  }

  ghost predicate NoneStraddled(lt: Order, levels: seq<seq<File>>, w: Work)
    requires |levels| == NUM_LEVELS && w.level + 1 < NUM_LEVELS
  {
    forall g :: g in levels[w.level + 1] && g !in w.inputs1 ==> !Straddled(lt, Inputs(w), g)
  }

  ghost predicate Inv(lt: Order, st: Runs) {
    && LevelsOk(lt, st.levels)
    && (st.running.Some? ==> WorkOk(lt, st.levels, st.running.value) && NoneStraddled(lt, st.levels, st.running.value))
  }

  // ----- One level at a time -----

  /** Deleting some files and adding others leaves a sorted run exactly when those added lie apart from
      those that stay. */
  lemma SavedSortedIff(lt: Order, base: seq<File>, deleted: set<nat>, added: seq<File>, files: seq<File>)
    requires TotalOrder(lt) && SortedLevel(lt, base) && SortedLevel(lt, added)
    requires Saved(lt, base, deleted, added, files) && forall g :: g in added ==> g.number !in deleted
    ensures SortedLevel(lt, files) <==>
            forall f, g :: f in base && f.number !in deleted && g in added && f != g ==> Apart(lt, g, f)
  {
    hide SortedLevel, Listed, ValidFile;
    SortedValid(lt, base);
    SortedValid(lt, added);
    forall f, g ensures f in base && g in base && f != g ==> Apart(lt, f, g) {
      SortedApart(lt, base, f, g);
    }
    forall f, g ensures f in added && g in added && f != g ==> Apart(lt, f, g) {
      SortedApart(lt, added, f, g);
    }
    SortedIffApart(lt, files);
    assert forall f, g :: Apart(lt, f, g) <==> Apart(lt, g, f);
  }

  lemma SortedValid(lt: Order, files: seq<File>)
    requires SortedLevel(lt, files)
    ensures forall f :: f in files ==> ValidFile(lt, f)
  {
  }

  lemma SortedApart(lt: Order, files: seq<File>, f: File, g: File)
    requires SortedLevel(lt, files)
    ensures f in files && g in files && f != g ==> Apart(lt, f, g)
  {
    if f in files && g in files && f != g {
      SortedLevelOrders(lt, files, f, g);
    }
  }

  /** Files whose key ranges have nothing in common lie apart. */
  lemma DisjointApart(lt: Order, f: File, g: File)
    requires TotalOrder(lt) && !Overlaps(lt, g, Smallest(f).key, Largest(f).key)
    ensures Apart(lt, f, g)
  {
  }

  lemma OneSorted(lt: Order, f: File)
    requires ValidFile(lt, f)
    ensures SortedLevel(lt, [f])
  {
  }

  // ----- Starting -----

  /** An input that ends before g shows that the upper inputs start no later than g. */
  lemma LowSide(lt: Order, files1: seq<File>, w: Work, i: File, g: File)
    requires TotalOrder(lt) && Swept(lt, files1, w.inputs0, w.inputs1) && i in Inputs(w)
    requires ValidFile(lt, i) && Before(lt, Largest(i), Smallest(g))
    ensures exists a :: a in w.inputs0 && AtMost(lt, Smallest(a).key, Smallest(g).key)
  {
    hide ValidFile, TotalOrder;
    EndsInOrder(lt, i);
    if i in w.inputs1 {
      assert MeetsRange(lt, i, w.inputs0);
      var a, b :| a in w.inputs0 && b in w.inputs0 && AtMost(lt, Smallest(a).key, Largest(i).key) &&
                  AtMost(lt, Smallest(i).key, Largest(b).key);
      AtMostTransitive(lt, Smallest(a).key, Largest(i).key, Smallest(g).key);
    } else {
      AtMostTransitive(lt, Smallest(i).key, Largest(i).key, Smallest(g).key);
    }
  }

  lemma HighSide(lt: Order, files1: seq<File>, w: Work, i: File, g: File)
    requires TotalOrder(lt) && Swept(lt, files1, w.inputs0, w.inputs1) && i in Inputs(w)
    requires ValidFile(lt, i) && Before(lt, Largest(g), Smallest(i))
    ensures exists b :: b in w.inputs0 && AtMost(lt, Largest(g).key, Largest(b).key)
  {
    hide ValidFile, TotalOrder;
    EndsInOrder(lt, i);
    if i in w.inputs1 {
      assert MeetsRange(lt, i, w.inputs0);
      var a, b :| a in w.inputs0 && b in w.inputs0 && AtMost(lt, Smallest(a).key, Largest(i).key) &&
                  AtMost(lt, Smallest(i).key, Largest(b).key);
      AtMostTransitive(lt, Largest(g).key, Smallest(i).key, Largest(b).key);
    } else {
      AtMostTransitive(lt, Largest(g).key, Smallest(i).key, Largest(i).key);
    }
  }

  lemma AtMostTransitive(lt: Order, a: Key, b: Key, c: Key)
    requires TotalOrder(lt) && AtMost(lt, a, b) && AtMost(lt, b, c)
    ensures AtMost(lt, a, c)
  {
  }

  /** When a compaction starts, every other file of the output level lies on one side of all its inputs. */
  lemma SetUpOk(lt: Order, levels: seq<seq<File>>, w: Work)
    requires TotalOrder(lt) && LevelsOk(lt, levels) && SetUp(lt, levels, w)
    ensures WorkOk(lt, levels, w) && NoneStraddled(lt, levels, w)
  {
    hide SortedLevel, ValidFile, MeetsRange, Straddled, TotalOrder;
    var files1 := levels[w.level + 1];
    forall g, i | g in files1 && g !in w.inputs1 && i in Inputs(w) ensures Apart(lt, i, g) {
      if i in w.inputs1 {
        SortedApart(lt, files1, i, g);
      } else {
        MissedApart(lt, w.inputs0, i, g);
      }
    }
    forall g | g in files1 && g !in w.inputs1 ensures !Straddled(lt, Inputs(w), g) {
      MissedOneSide(lt, files1, w, g);
    }
  }

  lemma MissedApart(lt: Order, inputs0: seq<File>, i: File, g: File)
    requires TotalOrder(lt) && i in inputs0 && !MeetsRange(lt, g, inputs0)
    ensures Apart(lt, i, g)
  {
    assert !(AtMost(lt, Smallest(i).key, Largest(g).key) && AtMost(lt, Smallest(g).key, Largest(i).key));
  }

  lemma MissedOneSide(lt: Order, files1: seq<File>, w: Work, g: File)
    requires TotalOrder(lt) && Swept(lt, files1, w.inputs0, w.inputs1) && g in files1 && g !in w.inputs1
    requires ValidFile(lt, g) && forall i :: i in Inputs(w) ==> ValidFile(lt, i)
    ensures !Straddled(lt, Inputs(w), g)
  {
    hide ValidFile, TotalOrder;
    if Straddled(lt, Inputs(w), g) {
      var i, j :| i in Inputs(w) && j in Inputs(w) && Before(lt, Largest(i), Smallest(g)) &&
                  Before(lt, Largest(g), Smallest(j));
      LowSide(lt, files1, w, i, g);
      HighSide(lt, files1, w, j, g);
      var a :| a in w.inputs0 && AtMost(lt, Smallest(a).key, Smallest(g).key);
      var b :| b in w.inputs0 && AtMost(lt, Largest(g).key, Largest(b).key);
      EndsInOrder(lt, g);
      AtMostTransitive(lt, Smallest(a).key, Smallest(g).key, Largest(g).key);
      AtMostTransitive(lt, Smallest(g).key, Largest(g).key, Largest(b).key);
      assert false;
    }
  }

  // ----- Flushing -----

  /** A memtable flushed below level 0 keeps its level a sorted run, and lies apart from the inputs of
      the compaction under way. */
  lemma FlushOk(lt: Order, levels: seq<seq<File>>, levels': seq<seq<File>>, f: File, to: nat)
    requires TotalOrder(lt) && LevelsOk(lt, levels) && Picked(lt, levels, f, to) && Added(lt, levels, levels', to, f)
    ensures LevelsOk(lt, levels')
  {
    hide SortedLevel, ValidFile, Listed, TotalOrder;
    if to > 0 {
      OneSorted(lt, f);
      forall g | g in levels[to] ensures Apart(lt, f, g) {
        DisjointApart(lt, f, g);
      }
      SavedSortedIff(lt, levels[to], {}, [f], levels'[to]);
    }
  }

  lemma FlushBesideWork(lt: Order, levels: seq<seq<File>>, levels': seq<seq<File>>, f: File, to: nat, w: Work)
    requires TotalOrder(lt) && |levels| == NUM_LEVELS && Picked(lt, levels, f, to) && Added(lt, levels, levels', to, f)
    requires WorkOk(lt, levels, w) && NoneStraddled(lt, levels, w)
    ensures WorkOk(lt, levels', w)
    ensures NoneStraddled(lt, levels', w) <== (to == w.level + 1 ==> !Straddled(lt, Inputs(w), f))
  {
    hide ValidFile, Listed, TotalOrder, Straddled, SortedLevel;
    forall g, i | g in levels'[w.level + 1] && g !in w.inputs1 && i in Inputs(w) ensures Apart(lt, i, g) {
      if g !in levels[w.level + 1] {
        assert to == w.level + 1 && g == f;
        assert i in levels[w.level] || i in levels[w.level + 1];
        DisjointApart(lt, f, i);
      }
    }
  }

  /** Between connected inputs there is no room for a file that overlaps none of them. */
  lemma ConnectedNotStraddled(lt: Order, inputs: seq<File>, f: File)
    requires TotalOrder(lt) && Connected(lt, inputs) && ValidFile(lt, f)
    requires forall i :: i in inputs ==> ValidFile(lt, i) && !Overlaps(lt, i, Smallest(f).key, Largest(f).key)
    ensures !Straddled(lt, inputs, f)
  {
    hide ValidFile, Connected, TotalOrder;
    if Straddled(lt, inputs, f) {
      var i, j :| i in inputs && j in inputs && Before(lt, Largest(i), Smallest(f)) &&
                  Before(lt, Largest(f), Smallest(j));
      EndsInOrder(lt, i);
      EndsInOrder(lt, j);
      EndsInOrder(lt, f);
      AtMostTransitive(lt, Smallest(i).key, Largest(i).key, Smallest(f).key);
      AtMostTransitive(lt, Smallest(f).key, Largest(f).key, Smallest(j).key);
      AtMostTransitive(lt, Smallest(f).key, Smallest(j).key, Largest(j).key);
      ConnectedAt(lt, inputs, i, j, Smallest(f).key);
      var m :| m in inputs && Spans(lt, m, Smallest(f).key);
      AtMostTransitive(lt, Smallest(m).key, Smallest(f).key, Largest(f).key);
      assert false;
    }
  }

  // ----- Finishing -----

  /** The file lies strictly inside the range of an output. */
  predicate Inside(lt: Order, g: File, o: File) {
    Before(lt, Smallest(o), Smallest(g)) && Before(lt, Largest(g), Largest(o))
  }

  /** An entry of the inputs lies on one side of every other file. */
  lemma EntryBeside(lt: Order, inputs: seq<File>, g: File, x: Entry)
    requires TotalOrder(lt) && (exists i :: i in inputs && x in i.es)
    requires ValidFile(lt, g) && forall i :: i in inputs ==> ValidFile(lt, i) && Apart(lt, i, g)
    ensures Before(lt, x, Smallest(g)) || Before(lt, Largest(g), x)
    ensures Before(lt, x, Smallest(g)) ==> exists i :: i in inputs && Before(lt, Largest(i), Smallest(g))
    ensures Before(lt, Largest(g), x) ==> exists j :: j in inputs && Before(lt, Largest(g), Smallest(j))
  {
    var i :| i in inputs && x in i.es;
    EntryOfApart(lt, i, g, x);
  }

  lemma EntryOfApart(lt: Order, i: File, g: File, x: Entry)
    requires TotalOrder(lt) && ValidFile(lt, i) && ValidFile(lt, g) && Apart(lt, i, g) && x in i.es
    ensures Before(lt, Largest(i), Smallest(g)) <==> Before(lt, x, Smallest(g))
    ensures Before(lt, Largest(g), Smallest(i)) <==> Before(lt, Largest(g), x)
  {
    if Before(lt, Largest(i), Smallest(g)) {
      EndsOrderAll(lt, i, g, x, Smallest(g));
      EndsOrderAll(lt, i, g, x, Largest(g));
      EndsOrderAll(lt, i, g, Smallest(i), Largest(g));
    } else {
      EndsOrderAll(lt, g, i, Largest(g), x);
      EndsOrderAll(lt, g, i, Smallest(g), x);
      EndsOrderAll(lt, g, i, Smallest(g), Largest(i));
    }
  }

  /** Unless it lies inside an output, a file that lies beside every input lies apart from the output. */
  lemma ApartIffNotInside(lt: Order, inputs: seq<File>, o: File, g: File)
    requires TotalOrder(lt) && ValidFile(lt, o) && ValidFile(lt, g)
    requires forall i :: i in inputs ==> ValidFile(lt, i) && Apart(lt, i, g)
    requires forall x :: x in o.es ==> exists i :: i in inputs && x in i.es
    ensures Apart(lt, o, g) <==> !Inside(lt, g, o)
    ensures Inside(lt, g, o) ==> Straddled(lt, inputs, g)
  {
    hide ValidFile, TotalOrder, Apart;
    assert Smallest(o) in o.es && Largest(o) in o.es;
    EntryBeside(lt, inputs, g, Smallest(o));
    EntryBeside(lt, inputs, g, Largest(o));
    ApartByEnds(lt, o, g);
  }

  lemma ApartByEnds(lt: Order, o: File, g: File)
    requires TotalOrder(lt) && ValidFile(lt, o) && ValidFile(lt, g)
    requires Before(lt, Smallest(o), Smallest(g)) || Before(lt, Largest(g), Smallest(o))
    requires Before(lt, Largest(o), Smallest(g)) || Before(lt, Largest(g), Largest(o))
    ensures Apart(lt, o, g) <==> !Inside(lt, g, o)
  {
    assert |o.es| == 1 || Before(lt, o.es[0], o.es[|o.es| - 1]);
    assert |g.es| == 1 || Before(lt, g.es[0], g.es[|g.es| - 1]);
  }

  /** What is left of the output level, beside the inputs. */
  ghost predicate Remains(files1: seq<File>, w: Work, g: File) {
    g in files1 && g.number !in FileNumbers(w.inputs1)
  }

  /** A finished compaction leaves its output level one sorted run exactly when none of the level's other
      files has come to lie inside an output. */
  lemma FinishSortedIff(lt: Order, levels: seq<seq<File>>, w: Work, outputs: seq<File>, files: seq<File>)
    requires TotalOrder(lt) && LevelsOk(lt, levels) && WorkOk(lt, levels, w) && OutputsOf(lt, Inputs(w), outputs)
    requires Saved(lt, levels[w.level + 1], FileNumbers(w.inputs1), outputs, files)
    requires forall o :: o in outputs ==> o.number !in FileNumbers(w.inputs1)
    ensures SortedLevel(lt, files) <==>
            forall g, o :: Remains(levels[w.level + 1], w, g) && o in outputs && g != o ==> !Inside(lt, g, o)
  {
    hide SortedLevel, ValidFile, Listed, TotalOrder, Inside, Apart, Saved;
    var files1 := levels[w.level + 1];
    SortedValid(lt, outputs);
    forall g, o | Remains(files1, w, g) && o in outputs
      ensures Apart(lt, o, g) <==> !Inside(lt, g, o)
    {
      ApartIffNotInside(lt, Inputs(w), o, g);
    }
    SavedSortedIff(lt, files1, FileNumbers(w.inputs1), outputs, files);
  }

  /** No file inside an output unless it is straddled by the inputs. */
  lemma NoneInside(lt: Order, levels: seq<seq<File>>, w: Work, outputs: seq<File>, g: File, o: File)
    requires TotalOrder(lt) && LevelsOk(lt, levels) && WorkOk(lt, levels, w) && NoneStraddled(lt, levels, w)
    requires OutputsOf(lt, Inputs(w), outputs) && Remains(levels[w.level + 1], w, g) && o in outputs
    ensures !Inside(lt, g, o)
  {
    hide SortedLevel, ValidFile, TotalOrder, Inside, Apart, Straddled;
    SortedValid(lt, outputs);
    ApartIffNotInside(lt, Inputs(w), o, g);
  }

  lemma LoweredOk(lt: Order, levels: seq<seq<File>>, levels': seq<seq<File>>, w: Work, outputs: seq<File>)
    requires TotalOrder(lt) && LevelsOk(lt, levels) && WorkOk(lt, levels, w) && NoneStraddled(lt, levels, w)
    requires OutputsOf(lt, Inputs(w), outputs)
    requires forall o :: o in outputs ==> o.number !in FileNumbers(w.inputs1)
    requires Lowered(lt, levels, levels', w.level, FileNumbers(w.inputs0), FileNumbers(w.inputs1), outputs)
    ensures LevelsOk(lt, levels')
  {
    hide SortedLevel, ValidFile, Listed, TotalOrder, Inside, Straddled, Apart;
    forall g, o | Remains(levels[w.level + 1], w, g) && o in outputs && g != o ensures !Inside(lt, g, o) {
      NoneInside(lt, levels, w, outputs, g, o);
    }
    FinishSortedIff(lt, levels, w, outputs, levels'[w.level + 1]);
    SortedValid(lt, outputs);
    NoneSorted(lt);
    if w.level > 0 {
      SavedSortedIff(lt, levels[w.level], FileNumbers(w.inputs0), [], levels'[w.level]);
    }
  }

  lemma NoneSorted(lt: Order)
    ensures SortedLevel(lt, [])
  {
  }

  lemma MovedOk(lt: Order, levels: seq<seq<File>>, levels': seq<seq<File>>, f: File, level: nat)
    requires TotalOrder(lt) && LevelsOk(lt, levels) && SetUp(lt, levels, Work(level, [f], []))
    requires Lowered(lt, levels, levels', level, {f.number}, {}, [f])
    ensures LevelsOk(lt, levels')
  {
    hide SortedLevel, ValidFile, Listed, TotalOrder, Apart, Straddled;
    var w := Work(level, [f], []);
    SetUpOk(lt, levels, w);
    assert f in levels[level] && f in Inputs(w);
    OneSorted(lt, f);
    NoneSorted(lt);
    SavedSortedIff(lt, levels[level + 1], {}, [f], levels'[level + 1]);
    if level > 0 {
      SavedSortedIff(lt, levels[level], {f.number}, [], levels'[level]);
    }
  }

  // ----- Steps and runs -----

  /** A memtable is flushed between the inputs of the compaction under way, to its output level. */
  ghost predicate Straddles(lt: Order, st: Runs, step: Step) {
    && step.Flush? && st.running.Some? && step.to == st.running.value.level + 1
    && Straddled(lt, Inputs(st.running.value), step.f)
  }

  /** Every step keeps the levels sorted runs, unless it flushes into a gap between the inputs. */
  lemma StepKeeps(lt: Order, st: Runs, step: Step, st': Runs)
    requires TotalOrder(lt) && Inv(lt, st) && Next(lt, st, step, st') && !Straddles(lt, st, step)
    ensures Inv(lt, st')
  {
    hide LevelsOk, WorkOk, NoneStraddled, Added, Picked, Lowered, OutputsOf, SetUp, Straddled;
    match step
    case Flush(f, to) =>
      FlushOk(lt, st.levels, st'.levels, f, to);
      if st.running.Some? {
        FlushBesideWork(lt, st.levels, st'.levels, f, to, st.running.value);
      }
    case Begin(w) => SetUpOk(lt, st.levels, w);
    case Finish(outputs) =>
      FreshOutputs(lt, st.levels, st.running.value, outputs);
      LoweredOk(lt, st.levels, st'.levels, st.running.value, outputs);
    case Abandon =>
    case Move(f, level) => MovedOk(lt, st.levels, st'.levels, f, level);
  }

  lemma FreshOutputs(lt: Order, levels: seq<seq<File>>, w: Work, outputs: seq<File>)
    requires |levels| == NUM_LEVELS && WorkOk(lt, levels, w) && Fresh(levels, outputs)
    ensures forall o :: o in outputs ==> o.number !in FileNumbers(w.inputs1)
  {
  }

  /** Exactly a flush into a gap between the inputs is dangerous: after any other, the compaction may end
      in whatever outputs it likes; after such a one, some outputs overlap the file that was flushed. */
  lemma FlushSafeIff(lt: Order, st: Runs, f: File, st': Runs, number: nat)
    requires TotalOrder(lt) && Inv(lt, st) && st.running.Some?
    requires Next(lt, st, Flush(f, st.running.value.level + 1), st')
    requires forall l, g :: 0 <= l < NUM_LEVELS && g in st'.levels[l] ==> g.number != number
    ensures Straddled(lt, Inputs(st.running.value), f) <==>
            exists outputs, st'' :: Next(lt, st', Finish(outputs), st'') && !LevelsOk(lt, st''.levels)
  {
    hide Inv, Next, Straddled, LevelsOk;
    if Straddled(lt, Inputs(st.running.value), f) {
      var outputs, st'' := GapBreaks(lt, st, f, st', number);
    } else {
      StepKeeps(lt, st, Flush(f, st.running.value.level + 1), st');
      forall outputs, st'' | Next(lt, st', Finish(outputs), st'') ensures LevelsOk(lt, st''.levels) {
        FinishKeeps(lt, st', outputs, st'');
      }
    }
  }

  lemma FinishKeeps(lt: Order, st: Runs, outputs: seq<File>, st': Runs)
    requires TotalOrder(lt) && Inv(lt, st) && Next(lt, st, Finish(outputs), st')
    ensures LevelsOk(lt, st'.levels)
  {
    hide LevelsOk;
    StepKeeps(lt, st, Finish(outputs), st');
  }

  /** An output may end with the last entry before a gap and the first one after it. */
  lemma SpanningOutput(lt: Order, inputs: seq<File>, f: File, i: File, j: File, number: nat)
    requires TotalOrder(lt) && ValidFile(lt, f) && i in inputs && j in inputs
    requires Before(lt, Largest(i), Smallest(f)) && Before(lt, Largest(f), Smallest(j))
    ensures var o := FileMetaData(number, [Largest(i), Smallest(j)]);
            OutputsOf(lt, inputs, [o]) && Inside(lt, f, o)
  {
    BeforeLargest(lt, Largest(i), f);
    BeforeTransitive(lt, Largest(i), Largest(f), Smallest(j));
    var o := FileMetaData(number, [Largest(i), Smallest(j)]);
    assert o.es[0] in i.es && o.es[1] in j.es;
    assert ValidFile(lt, o);
  }

  lemma LevelListed(lt: Order, levels: seq<seq<File>>, level: nat)
    requires LevelsOk(lt, levels) && level < NUM_LEVELS
    ensures Listed(lt, levels[level])
  {
  }

  lemma NewNumber(levels: seq<seq<File>>, o: File)
    requires forall l, g :: 0 <= l < |levels| && g in levels[l] ==> g.number != o.number
    ensures Fresh(levels, [o])
  {
  }

  lemma LevelAfter(lt: Order, levels: seq<seq<File>>, level: nat, deleted: set<nat>, added: seq<File>)
    returns (files: seq<File>)
    requires TotalOrder(lt) && level < |levels| && Listed(lt, levels[level]) && |added| <= 1 && Fresh(levels, added)
    requires forall g :: g in added ==> g.number !in deleted
    ensures Saved(lt, levels[level], deleted, added, files)
  {
    NothingMerged(lt, levels[level], deleted, added);
    files := SavedExists(lt, levels[level], deleted, added, 0, 0, []);
  }

  lemma OverlapUnsorted(lt: Order, files: seq<File>, f: File, o: File)
    requires TotalOrder(lt) && ValidFile(lt, f) && ValidFile(lt, o) && Inside(lt, f, o) && f in files && o in files
    requires f != o
    ensures !SortedLevel(lt, files)
  {
    if SortedLevel(lt, files) {
      SortedApart(lt, files, f, o);
      ApartByEnds(lt, o, f);
    }
  }

  lemma GapBreaks(lt: Order, st: Runs, f: File, st': Runs, number: nat) returns (outputs: seq<File>, st'': Runs)
    requires TotalOrder(lt) && Inv(lt, st) && st.running.Some?
    requires Next(lt, st, Flush(f, st.running.value.level + 1), st')
    requires forall l, g :: 0 <= l < NUM_LEVELS && g in st'.levels[l] ==> g.number != number
    requires Straddled(lt, Inputs(st.running.value), f)
    ensures Next(lt, st', Finish(outputs), st'') && !LevelsOk(lt, st''.levels)
  {
    hide Listed, TotalOrder, SortedLevel, Saved, Fresh, LevelsOk, WorkOk, NoneStraddled, OutputsOf, ValidFile, Inside;
    hide FileNumbers, Picked;
    var w := st.running.value;
    var i, j :| i in Inputs(w) && j in Inputs(w) && Before(lt, Largest(i), Smallest(f)) &&
                Before(lt, Largest(f), Smallest(j));
    var o := FileMetaData(number, [Largest(i), Smallest(j)]);
    outputs := [o];
    FlushedStays(lt, st, f, st', number);
    SpanningOutput(lt, Inputs(w), f, i, j, number);
    NewNumber(st'.levels, o);
    var levels := LoweredExists(lt, st'.levels, w, outputs);
    st'' := Runs(levels, None);
    SavedHolds(lt, st'.levels[w.level + 1], FileNumbers(w.inputs1), outputs, levels[w.level + 1], f);
    SavedHolds(lt, st'.levels[w.level + 1], FileNumbers(w.inputs1), outputs, levels[w.level + 1], o);
    OutputsValid(lt, Inputs(w), outputs);
    OverlapUnsorted(lt, levels[w.level + 1], f, o);
    UnsortedNotOk(lt, levels, w.level + 1);
  }

  lemma UnsortedNotOk(lt: Order, levels: seq<seq<File>>, level: nat)
    requires 0 < level < NUM_LEVELS == |levels| && !SortedLevel(lt, levels[level])
    ensures !LevelsOk(lt, levels)
  {
  }

  lemma OutputsValid(lt: Order, inputs: seq<File>, outputs: seq<File>)
    requires OutputsOf(lt, inputs, outputs)
    ensures forall o :: o in outputs ==> ValidFile(lt, o)
  {
  }

  lemma SavedHolds(lt: Order, base: seq<File>, deleted: set<nat>, added: seq<File>, files: seq<File>, f: File)
    requires Saved(lt, base, deleted, added, files) && (f in base || f in added) && f.number !in deleted
    ensures f in files
  {
  }

  /** The file that was flushed is in the output level, and stays there when the inputs go. */
  lemma FlushedStays(lt: Order, st: Runs, f: File, st': Runs, number: nat)
    requires TotalOrder(lt) && Inv(lt, st) && st.running.Some?
    requires Next(lt, st, Flush(f, st.running.value.level + 1), st')
    requires forall l, g :: 0 <= l < NUM_LEVELS && g in st'.levels[l] ==> g.number != number
    ensures var w := st.running.value;
            && LevelsOk(lt, st'.levels) && f in st'.levels[w.level + 1] && ValidFile(lt, f) && st'.running == st.running
            && w.level + 1 < NUM_LEVELS && f.number != number
            && f.number !in FileNumbers(w.inputs1) && number !in FileNumbers(w.inputs1)
  {
    hide Listed, TotalOrder, SortedLevel;
    var w := st.running.value;
    FlushOk(lt, st.levels, st'.levels, f, w.level + 1);
    FreshOutputs(lt, st.levels, w, [f]);
    assert f in st'.levels[w.level + 1];
    forall i | i in w.inputs1 ensures i.number != number {
      assert i in st'.levels[w.level + 1];
    }
  }

  lemma LoweredExists(lt: Order, levels: seq<seq<File>>, w: Work, outputs: seq<File>) returns (levels': seq<seq<File>>)
    requires TotalOrder(lt) && LevelsOk(lt, levels) && w.level + 1 < NUM_LEVELS && |outputs| == 1
    requires Fresh(levels, outputs) && forall o :: o in outputs ==> o.number !in FileNumbers(w.inputs1)
    ensures Lowered(lt, levels, levels', w.level, FileNumbers(w.inputs0), FileNumbers(w.inputs1), outputs)
  {
    hide Listed, TotalOrder, SortedLevel, Saved, ValidFile;
    LevelListed(lt, levels, w.level);
    LevelListed(lt, levels, w.level + 1);
    var upper := LevelAfter(lt, levels, w.level, FileNumbers(w.inputs0), []);
    var lower := LevelAfter(lt, levels, w.level + 1, FileNumbers(w.inputs1), outputs);
    levels' := levels[w.level := upper][w.level + 1 := lower];
  }

  // ----- Runs -----

  function Empty(): Runs {
    Runs(seq(NUM_LEVELS, _ => []), None)
  }

  ghost predicate IsRun(lt: Order, sts: seq<Runs>, steps: seq<Step>) {
    && |sts| == |steps| + 1 && sts[0] == Empty()
    && forall i {:trigger steps[i]} :: 0 <= i < |steps| ==> Next(lt, sts[i], steps[i], sts[i + 1])
  }

  lemma EmptyInv(lt: Order)
    ensures Inv(lt, Empty())
  {
  }

  /** In every run that never flushes into a gap between the inputs of a compaction, every level below
      level 0 is one sorted run in every state. */
  lemma {:induction false} RunKeeps(lt: Order, sts: seq<Runs>, steps: seq<Step>, i: nat)
    requires TotalOrder(lt) && IsRun(lt, sts, steps) && i < |sts|
    requires forall j :: 0 <= j < i ==> !Straddles(lt, sts[j], steps[j])
    ensures Inv(lt, sts[i])
  {
    hide Inv, Next, Straddles;
    if i == 0 {
      EmptyInv(lt);
    } else {
      RunKeeps(lt, sts, steps, i - 1);
      assert Next(lt, sts[i - 1], steps[i - 1], sts[i]);
      StepKeeps(lt, sts[i - 1], steps[i - 1], sts[i]);
    }
  }

  /** The inputs of the compaction under way leave no gap. */
  ghost predicate GapFree(lt: Order, st: Runs) {
    st.running.Some? ==> Connected(lt, Inputs(st.running.value))
  }

  ghost predicate Automatic(lt: Order, step: Step) {
    step.Begin? ==> Connected(lt, Inputs(step.w))
  }

  lemma GapFreeNotStraddled(lt: Order, st: Runs, step: Step, st': Runs)
    requires TotalOrder(lt) && Inv(lt, st) && GapFree(lt, st) && Next(lt, st, step, st')
    ensures !Straddles(lt, st, step)
  {
    hide Listed, TotalOrder, SortedLevel, Saved, ValidFile, Connected, Straddled, Overlaps, NoneStraddled;
    if step.Flush? && st.running.Some? && step.to == st.running.value.level + 1 {
      ConnectedNotStraddled(lt, Inputs(st.running.value), step.f);
    }
  }

  /** Inputs that `PickCompaction` chooses leave no gap, so as long as compactions are picked so, every level
      below level 0 is one sorted run in every state of every run, whatever is flushed meanwhile. */
  lemma {:induction false} AutomaticRunKeeps(lt: Order, sts: seq<Runs>, steps: seq<Step>, i: nat)
    requires TotalOrder(lt) && IsRun(lt, sts, steps) && i < |sts|
    requires forall j :: 0 <= j < |steps| ==> Automatic(lt, steps[j])
    ensures Inv(lt, sts[i]) && GapFree(lt, sts[i])
  {
    hide Inv, Next, Connected, Straddles;
    if i == 0 {
      EmptyInv(lt);
    } else {
      AutomaticRunKeeps(lt, sts, steps, i - 1);
      assert Next(lt, sts[i - 1], steps[i - 1], sts[i]) && Automatic(lt, steps[i - 1]);
      GapFreeNotStraddled(lt, sts[i - 1], steps[i - 1], sts[i]);
      StepKeeps(lt, sts[i - 1], steps[i - 1], sts[i]);
      RunningFrom(lt, sts[i - 1], steps[i - 1], sts[i]);
    }
  }

  lemma RunningFrom(lt: Order, st: Runs, step: Step, st': Runs)
    requires Next(lt, st, step, st')
    ensures st'.running.Some? ==> st'.running == st.running || (step.Begin? && st'.running == Some(step.w))
  {
  }

  // ----- The source's steps are such steps -----

  /** A compaction as `PickCompaction` starts it leaves no gap between its inputs. */
  method StartCompaction(lt: Order, st: Runs, level: nat, why: Reason, grow: bool) returns (w: Work)
    requires TotalOrder(lt) && LevelsOk(lt, st.levels) && st.running == None && level + 1 < NUM_LEVELS
    requires if why.BySize? then st.levels[level] != [] else why.file in st.levels[level]
    ensures Next(lt, st, Begin(w), st.(running := Some(w))) && Automatic(lt, Begin(w))
  {
    hide Connected, Swept, Listed, SortedLevel, ValidFile, BoundaryFree, Convex, NoneShared, IsStart;
    var inputs0, inputs1 := PickCompaction(lt, level, st.levels[level], st.levels[level + 1], why, grow);
    SettledMembers(lt, level, st.levels[level], inputs0);
    w := Work(level, inputs0, inputs1);
  }

  /** A manual one starts likewise, but promises nothing of the kind. */
  method StartManual(lt: Order, st: Runs, level: nat, begin: Key, end: Key, size: File -> nat, limit: nat, grow: bool)
    returns (w: Option<Work>)
    requires TotalOrder(lt) && LevelsOk(lt, st.levels) && st.running == None && level + 1 < NUM_LEVELS
    ensures w.Some? ==> Next(lt, st, Begin(w.value), st.(running := w))
  {
    hide Swept, Listed, SortedLevel, ValidFile, BoundaryFree, Convex, NoneShared, Overlaps;
    var inputs0, inputs1 :=
      CompactRange(lt, level, st.levels[level], st.levels[level + 1], begin, end, size, limit, grow);
    if inputs0 == [] {
      return None;
    }
    SettledMembers(lt, level, st.levels[level], inputs0);
    w := Some(Work(level, inputs0, inputs1));
  }

  /** A flush: the level is picked, and the builder saves the new version. */
  method InstallFlush(lt: Order, st: Runs, f: File, heavy: nat -> bool) returns (to: nat, st': Runs)
    requires TotalOrder(lt) && LevelsOk(lt, st.levels) && ValidFile(lt, f) && Fresh(st.levels, [f])
    ensures Next(lt, st, Flush(f, to), st')
  {
    hide Listed, SortedLevel, ValidFile, Overlaps, Saved;
    to := PickLevelForMemTableOutput(lt, st.levels, Smallest(f).key, Largest(f).key, heavy);
    LevelListed(lt, st.levels, to);
    OneListed(lt, f);
    var files := SaveTo(lt, st.levels[to], {}, [f]);
    st' := st.(levels := st.levels[to := files]);
  }

  lemma OneListed(lt: Order, f: File)
    ensures Listed(lt, [f])
  {
  }

  lemma SortedListed(lt: Order, files: seq<File>)
    requires TotalOrder(lt) && SortedLevel(lt, files)
    ensures Listed(lt, files)
  {
    forall i, j | 0 <= i < j < |files| ensures Precedes(lt, files[i], files[j]) {
      EndsOrderAll(lt, files[i], files[j], Smallest(files[i]), Smallest(files[j]));
    }
  }

  /** The end of a compaction: both levels are saved anew. */
  method InstallOutputs(lt: Order, st: Runs, outputs: seq<File>) returns (st': Runs)
    requires TotalOrder(lt) && Inv(lt, st) && st.running.Some?
    requires OutputsOf(lt, Inputs(st.running.value), outputs) && Fresh(st.levels, outputs)
    ensures Next(lt, st, Finish(outputs), st')
  {
    hide Listed, SortedLevel, ValidFile, Saved, NoneStraddled, Apart;
    var w := st.running.value;
    LevelListed(lt, st.levels, w.level);
    LevelListed(lt, st.levels, w.level + 1);
    SortedListed(lt, outputs);
    NoneListed(lt);
    FreshOutputs(lt, st.levels, w, outputs);
    var upper := SaveTo(lt, st.levels[w.level], FileNumbers(w.inputs0), []);
    var lower := SaveTo(lt, st.levels[w.level + 1], FileNumbers(w.inputs1), outputs);
    st' := Runs(st.levels[w.level := upper][w.level + 1 := lower], None);
  }

  lemma NoneListed(lt: Order)
    ensures Listed(lt, [])
  {
  }

  // ----- What the steps do to the version -----

  lemma VersionTable(levels: seq<seq<File>>, l: nat, f: File)
    requires l < |levels| && f in levels[l]
    ensures AtLevelTable(f, l) in VersionOf(levels)
  {
  }

  /** A flush adds one table, at a level where it fits. */
  lemma FlushStep(lt: Order, st: Runs, f: File, to: nat, st': Runs)
    requires TotalOrder(lt) && LevelsOk(lt, st.levels) && Next(lt, st, Flush(f, to), st')
    ensures VersionOf(st'.levels) == VersionOf(st.levels) + {AtLevelTable(f, to)}
    ensures Versions.Fits(VersionOf(st.levels), Elements(f.es), to)
  {
    hide Listed, SortedLevel, ValidFile, Overlaps, TotalOrder;
    forall l | 0 <= l < NUM_LEVELS ensures AtLevel(VersionOf(st.levels), l) == Tables(st.levels[l], l) {
      LevelTables(st.levels, l);
    }
    forall e | e in Elements(f.es) ensures AtMost(lt, Smallest(f).key, e.key) && AtMost(lt, e.key, Largest(f).key) {
      InFile(lt, f, e);
    }
    PickedLevelFits(lt, VersionOf(st.levels), st.levels, Elements(f.es), Smallest(f).key, Largest(f).key, to);
    FlushAdds(lt, st, f, to, st');
  }

  lemma InFile(lt: Order, f: File, e: Entry)
    requires TotalOrder(lt) && ValidFile(lt, f) && e in f.es
    ensures AtMost(lt, Smallest(f).key, e.key) && AtMost(lt, e.key, Largest(f).key)
  {
    WithinHolds(lt, f, e, Smallest(f).key, Largest(f).key);
  }

  lemma FlushAdds(lt: Order, st: Runs, f: File, to: nat, st': Runs)
    requires Next(lt, st, Flush(f, to), st')
    ensures VersionOf(st'.levels) == VersionOf(st.levels) + {AtLevelTable(f, to)}
  {
    hide Listed, Picked, Fresh;
    forall t | t in VersionOf(st.levels) + {AtLevelTable(f, to)} ensures t in VersionOf(st'.levels) {
      if t in VersionOf(st.levels) {
        var l, g :| 0 <= l < |st.levels| && g in st.levels[l] && t == AtLevelTable(g, l);
        VersionTable(st'.levels, l, g);
      } else {
        VersionTable(st'.levels, to, f);
      }
    }
    forall t | t in VersionOf(st'.levels) ensures t in VersionOf(st.levels) + {AtLevelTable(f, to)} {
      var l, g :| 0 <= l < |st'.levels| && g in st'.levels[l] && t == AtLevelTable(g, l);
      if g in st.levels[l] {
        VersionTable(st.levels, l, g);
      }
    }
  }

  /** A finished compaction replaces exactly its inputs by its outputs. */
  lemma FinishStep(lt: Order, st: Runs, outputs: seq<File>, st': Runs)
    requires Inv(lt, st) && Next(lt, st, Finish(outputs), st') && LevelOrder(VersionOf(st.levels))
    ensures var w := st.running.value;
            VersionOf(st'.levels) ==
            VersionOf(st.levels) - (Tables(w.inputs0, w.level) + Tables(w.inputs1, w.level + 1)) +
            Tables(outputs, w.level + 1)
  {
    hide Listed, SortedLevel, ValidFile, OutputsOf, NoneStraddled, Apart, LevelOrder;
    var w := st.running.value;
    var inputs := Tables(w.inputs0, w.level) + Tables(w.inputs1, w.level + 1);
    forall l, f | 0 <= l < NUM_LEVELS
      ensures f in st'.levels[l] <==>
              (f in st.levels[l] && AtLevelTable(f, l) !in inputs) || (l == w.level + 1 && f in outputs)
    {
      StaysOrComes(lt, st, outputs, st', l, f);
    }
    TablesReplaced(st.levels, st'.levels, inputs, w.level + 1, outputs);
  }

  lemma TablesReplaced(levels: seq<seq<File>>, levels': seq<seq<File>>, inputs: Version, level: nat,
                       outputs: seq<File>)
    requires |levels| == |levels'| && level < |levels|
    requires forall l, f :: 0 <= l < |levels| ==>
                              (f in levels'[l] <==>
                               (f in levels[l] && AtLevelTable(f, l) !in inputs) || (l == level && f in outputs))
    ensures VersionOf(levels') == VersionOf(levels) - inputs + Tables(outputs, level)
  {
    forall t | t in VersionOf(levels') ensures t in VersionOf(levels) - inputs + Tables(outputs, level) {
      var l, f :| 0 <= l < |levels'| && f in levels'[l] && t == AtLevelTable(f, l);
      if f in levels[l] {
        VersionTable(levels, l, f);
      }
    }
    forall t | t in VersionOf(levels) - inputs + Tables(outputs, level) ensures t in VersionOf(levels') {
      if t in Tables(outputs, level) {
        var f :| f in outputs && t == AtLevelTable(f, level);
        VersionTable(levels', level, f);
      } else {
        var l, f :| 0 <= l < |levels| && f in levels[l] && t == AtLevelTable(f, l);
        VersionTable(levels', l, f);
      }
    }
  }

  /** A file number stands for one table, so deleting the inputs' numbers deletes the inputs. */
  lemma StaysOrComes(lt: Order, st: Runs, outputs: seq<File>, st': Runs, l: nat, f: File)
    requires Inv(lt, st) && Next(lt, st, Finish(outputs), st') && LevelOrder(VersionOf(st.levels)) && l < NUM_LEVELS
    ensures var w := st.running.value;
            var inputs := Tables(w.inputs0, w.level) + Tables(w.inputs1, w.level + 1);
            f in st'.levels[l] <==>
            (f in st.levels[l] && AtLevelTable(f, l) !in inputs) || (l == w.level + 1 && f in outputs)
  {
    hide Listed, SortedLevel, ValidFile, OutputsOf, NoneStraddled, Apart, Newer;
    var w := st.running.value;
    FreshOutputs(lt, st.levels, w, outputs);
    if f in st.levels[l] {
      VersionTable(st.levels, l, f);
      InputNumber(lt, st, w.level, w.inputs0, l, f);
      InputNumber(lt, st, w.level + 1, w.inputs1, l, f);
    }
  }

  lemma InputNumber(lt: Order, st: Runs, level: nat, inputs: seq<File>, l: nat, f: File)
    requires LevelOrder(VersionOf(st.levels)) && level < |st.levels|
    requires forall i :: i in inputs ==> i in st.levels[level]
    requires l < |st.levels| && f in st.levels[l]
    ensures AtLevelTable(f, l) in Tables(inputs, level) <==> l == level && f.number in FileNumbers(inputs)
  {
    hide Newer;
    VersionTable(st.levels, l, f);
    if l == level && f.number in FileNumbers(inputs) {
      var i :| i in inputs && i.number == f.number;
      VersionTable(st.levels, level, i);
      assert AtLevelTable(i, level) == AtLevelTable(f, l);
    }
  }

  // ----- A run that flushes into a gap -----

  function One(number: nat, k: Key, v: Value): File {
    FileMetaData(number, [Entry(k, number, Put, v)])
  }

  /** The output of a compaction of the files of b and d. */
  function Both(b: Key, d: Key, v: Value): File {
    FileMetaData(5, [Entry(b, 2, Put, v), Entry(d, 3, Put, v)])
  }

  function AtLevels(files1: seq<File>, files2: seq<File>): seq<seq<File>> {
    seq(NUM_LEVELS, l => if l == 1 then files1 else if l == 2 then files2 else [])
  }

  /** Two tables on level 1; a manual compaction of both; a third table flushed between them, to level 2;
      and the end of the compaction. */
  function GapSteps(b: Key, c: Key, d: Key, v: Value): seq<Step> {
    [Flush(One(2, b, v), 1), Flush(One(3, d, v), 1), Begin(Work(1, [One(2, b, v), One(3, d, v)], [])),
     Flush(One(4, c, v), 2), Finish([Both(b, d, v)])]
  }

  function GapStates(b: Key, c: Key, d: Key, v: Value): seq<Runs> {
    var files := [One(2, b, v), One(3, d, v)];
    var w := Work(1, files, []);
    [Empty(), Runs(AtLevels([One(2, b, v)], []), None), Runs(AtLevels(files, []), None),
     Runs(AtLevels(files, []), Some(w)), Runs(AtLevels(files, [One(4, c, v)]), Some(w)),
     Runs(AtLevels([], [Both(b, d, v), One(4, c, v)]), None)]
  }

  /** Level 2 then is no sorted run: the search for c ends on the compaction's output, which does not hold
      c, although the level does. */
  lemma GapLosesKey(lt: Order, b: Key, c: Key, d: Key, v: Value, s: nat)
    requires TotalOrder(lt) && lt(b, c) && lt(c, d) && 4 <= s <= MAX_SEQUENCE_NUMBER
    ensures var files := GapStates(b, c, d, v)[5].levels[2];
            && !SortedLevel(lt, files)
            && !Before(lt, Largest(files[0]), Entry(c, s, Put, []))
            && Visible((set e | e in files[0].es), c, s) == None
            && Visible(EntriesIn(files), c, s) == Some(Some(v))
  {
    hide TotalOrder, Read;
    Ascend(lt, b, c, d);
    var o, g := Both(b, d, v), One(4, c, v);
    var files := GapStates(b, c, d, v)[5].levels[2];
    assert files == [o, g];
    GapEntries(o, g);
    ReadIs(EntriesIn(files), c, s, g.es[0]);
  }

  lemma Ascend(lt: Order, b: Key, c: Key, d: Key)
    requires TotalOrder(lt) && lt(b, c) && lt(c, d)
    ensures lt(b, d) && b != c && c != d && b != d
    ensures !lt(c, b) && !lt(d, c) && !lt(d, b)
    ensures !lt(b, b) && !lt(c, c) && !lt(d, d)
  {
  }

  lemma GapEntries(o: File, g: File)
    requires |o.es| == 2 && |g.es| == 1
    ensures EntriesIn([o, g]) == {o.es[0], o.es[1], g.es[0]}
    ensures (set e | e in o.es) == {o.es[0], o.es[1]}
  {
    assert o in [o, g] && g in [o, g] && o.es[0] in o.es && o.es[1] in o.es && g.es[0] in g.es;
  }

  lemma SavedLast(lt: Order, base: seq<File>, f: File)
    requires Listed(lt, base) && AllPrecede(lt, base, f)
    ensures Saved(lt, base, {}, [f], base + [f])
  {
    ListedAppend(lt, base, f);
  }

  /** A flush of one entry to the end of a level, where no file has its key. */
  lemma FlushLast(lt: Order, levels: seq<seq<File>>, running: Option<Work>, number: nat, k: Key, v: Value, to: nat)
    requires TotalOrder(lt) && |levels| == NUM_LEVELS && 0 < to <= MAX_MEM_COMPACT_LEVEL && Listed(lt, levels[to])
    requires AllPrecede(lt, levels[to], One(number, k, v))
    requires forall l, g :: 0 <= l < NUM_LEVELS && g in levels[l] ==> g.number != number && !Overlaps(lt, g, k, k)
    ensures var f := One(number, k, v);
            Next(lt, Runs(levels, running), Flush(f, to), Runs(levels[to := levels[to] + [f]], running))
  {
    hide Overlaps, Listed;
    SavedLast(lt, levels[to], One(number, k, v));
  }

  lemma Levels12(files1: seq<File>, files2: seq<File>)
    ensures |AtLevels(files1, files2)| == NUM_LEVELS
    ensures AtLevels(files1, files2)[1] == files1 && AtLevels(files1, files2)[2] == files2
    ensures forall l :: 0 <= l < NUM_LEVELS && l != 1 && l != 2 ==> AtLevels(files1, files2)[l] == []
    ensures forall fs :: AtLevels(files1, files2)[1 := fs] == AtLevels(fs, files2)
    ensures forall fs :: AtLevels(files1, files2)[2 := fs] == AtLevels(files1, fs)
    ensures AtLevels([], []) == Empty().levels
  {
  }

  lemma OneOverlaps(lt: Order, number: nat, k: Key, v: Value, key: Key)
    requires TotalOrder(lt) && k != key
    ensures !Overlaps(lt, One(number, k, v), key, key) && ValidFile(lt, One(number, k, v))
  {
  }

  lemma FirstFlushes(lt: Order, b: Key, d: Key, v: Value)
    requires TotalOrder(lt) && lt(b, d)
    ensures var f, g := One(2, b, v), One(3, d, v);
            && Next(lt, Empty(), Flush(f, 1), Runs(AtLevels([f], []), None))
            && Next(lt, Runs(AtLevels([f], []), None), Flush(g, 1), Runs(AtLevels([f, g], []), None))
  {
    hide Next, TotalOrder, Overlaps, AtLevels, Empty;
    var f, g := One(2, b, v), One(3, d, v);
    Levels12([], []);
    Levels12([f], []);
    Different(lt, b, d);
    OneOverlaps(lt, 2, b, v, d);
    FlushLast(lt, AtLevels([], []), None, 2, b, v, 1);
    FlushLast(lt, AtLevels([f], []), None, 3, d, v, 1);
    assert [] + [f] == [f] && [f] + [g] == [f, g];
    assert Empty() == Runs(AtLevels([], []), None) by {
      EmptyRunning();
    }
  }

  lemma EmptyRunning()
    ensures Empty().running == None
  {
  }

  lemma Different(lt: Order, b: Key, d: Key)
    requires TotalOrder(lt) && lt(b, d)
    ensures b != d
  {
  }

  lemma GapBegins(lt: Order, files: seq<File>)
    requires files != []
    ensures var w := Work(1, files, []);
            Next(lt, Runs(AtLevels(files, []), None), Begin(w), Runs(AtLevels(files, []), Some(w)))
  {
    Levels12(files, []);
  }

  lemma GapFlush(lt: Order, b: Key, c: Key, d: Key, v: Value, w: Work)
    requires TotalOrder(lt) && b != c && d != c
    ensures var files, g := [One(2, b, v), One(3, d, v)], One(4, c, v);
            Next(lt, Runs(AtLevels(files, []), Some(w)), Flush(g, 2), Runs(AtLevels(files, [g]), Some(w)))
  {
    hide Next, TotalOrder, Overlaps, AtLevels;
    var files, g := [One(2, b, v), One(3, d, v)], One(4, c, v);
    Levels12(files, []);
    OneOverlaps(lt, 2, b, v, c);
    OneOverlaps(lt, 3, d, v, c);
    FlushLast(lt, AtLevels(files, []), Some(w), 4, c, v, 2);
    assert [] + [g] == [g];
  }

  lemma GapFinish(lt: Order, b: Key, c: Key, d: Key, v: Value)
    requires TotalOrder(lt) && lt(b, c) && lt(c, d)
    ensures var files, g, o := [One(2, b, v), One(3, d, v)], One(4, c, v), Both(b, d, v);
            Next(lt, Runs(AtLevels(files, [g]), Some(Work(1, files, []))), Finish([o]),
                 Runs(AtLevels([], [o, g]), None))
  {
    hide TotalOrder, AtLevels;
    var files, g, o := [One(2, b, v), One(3, d, v)], One(4, c, v), Both(b, d, v);
    Ascend(lt, b, c, d);
    Levels12(files, [g]);
    Levels12([], [o, g]);
    BothOfInputs(lt, b, d, v);
    BothMerges(lt, b, c, d, v);
    assert Fresh(AtLevels(files, [g]), [o]);
  }

  lemma BothOfInputs(lt: Order, b: Key, d: Key, v: Value)
    requires lt(b, d)
    ensures var files := [One(2, b, v), One(3, d, v)];
            OutputsOf(lt, Inputs(Work(1, files, [])), [Both(b, d, v)])
  {
    var files, o := [One(2, b, v), One(3, d, v)], Both(b, d, v);
    assert files[0] in Inputs(Work(1, files, [])) && files[1] in Inputs(Work(1, files, []));
    assert o.es[0] in files[0].es && o.es[1] in files[1].es;
  }

  lemma BothMerges(lt: Order, b: Key, c: Key, d: Key, v: Value)
    requires lt(b, c)
    ensures var files, g, o := [One(2, b, v), One(3, d, v)], One(4, c, v), Both(b, d, v);
            && Saved(lt, files, FileNumbers(files), [], []) && Saved(lt, [g], FileNumbers([]), [o], [o, g])
  {
    var files, g, o := [One(2, b, v), One(3, d, v)], One(4, c, v), Both(b, d, v);
    assert Precedes(lt, o, g);
  }

  /** And this is a run; a manual compaction asked for the range from b to d takes just those two files. */
  lemma GapIsRun(lt: Order, b: Key, c: Key, d: Key, v: Value)
    requires TotalOrder(lt) && lt(b, c) && lt(c, d)
    ensures IsRun(lt, GapStates(b, c, d, v), GapSteps(b, c, d, v))
    ensures Overlapping(lt, GapStates(b, c, d, v)[2].levels[1], b, d) == [One(2, b, v), One(3, d, v)]
  {
    hide Next, TotalOrder, AtLevels, Empty, Overlaps;
    var files := [One(2, b, v), One(3, d, v)];
    Ascend(lt, b, c, d);
    FirstFlushes(lt, b, d, v);
    GapBegins(lt, files);
    GapFlush(lt, b, c, d, v, Work(1, files, []));
    GapFinish(lt, b, c, d, v);
    Levels12(files, []);
    BothOverlap(lt, b, d, v);
    var sts, steps := GapStates(b, c, d, v), GapSteps(b, c, d, v);
    forall i {:trigger steps[i]} | 0 <= i < |steps| ensures Next(lt, sts[i], steps[i], sts[i + 1]) {
      assert i == 0 || i == 1 || i == 2 || i == 3 || i == 4;
    }
  }

  lemma BothOverlap(lt: Order, b: Key, d: Key, v: Value)
    requires lt(b, d)
    ensures Overlapping(lt, [One(2, b, v), One(3, d, v)], b, d) == [One(2, b, v), One(3, d, v)]
  {
    var f, g := One(2, b, v), One(3, d, v);
    assert [f, g][..1] == [f] && [f][..0] == [];
    assert Overlapping(lt, [f], b, d) == Overlapping(lt, [], b, d) + [f];
  }
}
