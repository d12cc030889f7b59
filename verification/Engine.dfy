/** The engine with its files: logs, tables, the manifest, obsolete-file deletion, and crashes at any
    point. In-memory behaviour is that of `Store`; each event here performs at most one of its steps. */
module Engine {
  import opened Entries
  import opened Versions
  import opened S = Store
  import C = Compaction

  /** What the descriptor log says. `floor` and `first` are history: what its version may have
      forgotten, and which memtable its log number belongs to. */
  datatype Manifest = Manifest(version: Version, logNumber: nat, lastSequence: nat, nextFile: nat, floor: nat,
                               first: nat)

  /** What a crash leaves behind. A log is the list of batches its whole records hold. */
  datatype Durable = Durable(manifest: Manifest, logs: map<nat, seq<seq<Entry>>>, tables: map<nat, set<Entry>>)

  /** A version edit between being built under the mutex and being installed under it again. */
  datatype Commit = Commit(step: Step, edit: Manifest, written: bool, failed: bool)

  datatype Building = Building(number: nat, built: bool)

  /** `logNumbers` and `from` are history, one element per memtable: its log, and how many groups
      precede it. `logged` lists every batch whose record reached a log. */
  datatype Engine = Engine(store: Store, disk: Durable, logfileNumber: nat, logNumber: nat, nextFile: nat,
                           pending: set<nat>, building: Option<Building>, output: Option<nat>, outputs: Version,
                           commit: Option<Commit>, bgError: bool, damaged: bool,
                           logged: seq<seq<Entry>>, logNumbers: seq<nat>, from: seq<nat>)

  datatype Event =
    | Foreground(step: Step)
    | AppendRecord
    | AppendFails
    | SyncFails
    | SwitchLog
    | StartFlush
    | BuildTable
    | CommitFlush(to: nat)
    | FlushFails
    | StartMerge(level: nat, inputs: Version, based: set<Key>)
    | OpenOutput
    | FinishOutput(es: set<Entry>)
    | CommitMerge(items: seq<C.Item>)
    | MergeFails
    | CommitMove(t: Table)
    | WriteManifest
    | ManifestFails(durable: bool)
    | Install
    | DeleteObsoleteFiles
    | CrashAndRecover(cut: nat, number: nat, top: nat, tables: seq<Table>, leftovers: map<nat, set<Entry>>)

  // ----- Recovery -----

  /** All batches of the logs numbered from lo on, in log order. */
  function Replay(logs: map<nat, seq<seq<Entry>>>, lo: nat, hi: nat): seq<seq<Entry>> {
    if hi <= lo then [] else Replay(logs, lo, hi - 1) + if hi - 1 in logs then logs[hi - 1] else []
  }

  /** `max_sequence` after replaying some batches, if none of them is empty; the record of an empty
      batch can raise it a little further. */
  function TopSequence(batches: seq<seq<Entry>>, start: nat): nat {
    if batches == [] then start
    else
      var top, g := TopSequence(batches[..|batches| - 1], start), batches[|batches| - 1];
      if g != [] && g[|g| - 1].seqno > top then g[|g| - 1].seqno else top
  }

  /** The disk after a crash that cut the newest log down to its first `cut` records. */
  function AfterCrash(d: Durable, newest: nat, cut: nat): Durable
    requires newest in d.logs && cut <= |d.logs[newest]|
  {
    d.(logs := d.logs[newest := d.logs[newest][..cut]])
  }

  /** The level-0 tables recovery writes: some batches at a time, in order, under fresh numbers. */
  ghost predicate RecoveredTables(tables: seq<Table>, batches: seq<seq<Entry>>, nextFile: nat) {
    && (forall i :: 0 <= i < |tables| ==> tables[i].level == 0 && tables[i].number >= nextFile)
    && (forall i, j :: 0 <= i < j < |tables| ==>
          tables[i].number < tables[j].number && Newer(tables[j].es, tables[i].es))
    && AllOf(set t | t in tables) == EntriesIn(batches)
  }

  ghost function Contents(tables: seq<Table>): map<nat, set<Entry>> {
    if tables == [] then map[]
    else Contents(tables[..|tables| - 1])[tables[|tables| - 1].number := tables[|tables| - 1].es]
  }

  /** The batches recovery finds: everything in logs at or above the manifest's log number. */
  function Recovered(e: Engine, cut: nat, number: nat): seq<seq<Entry>>
    requires e.logfileNumber in e.disk.logs && cut <= |e.disk.logs[e.logfileNumber]|
  {
    Replay(AfterCrash(e.disk, e.logfileNumber, cut).logs, e.disk.manifest.logNumber, number)
  }

  // ----- Events -----

  function Initial(): Engine {
    var m := Manifest({}, 1, 0, 2, 0, 0);
    Engine(S.Initial(), Durable(m, map[1 := []], map[]), 1, 1, 2, {}, None, None, {}, None, false, false, [], [1], [0])
  }

  /** The record of the group being applied is in the log. */
  predicate Recorded(e: Engine) {
    |e.logged| == |e.store.groups| + 1
  }

  predicate BackgroundFree(e: Engine) {
    e.commit == None && e.building == None
  }

  /** Steps that touch no file, and what they wait for. */
  predicate Unblocked(e: Engine, step: Step) {
    match step
    case BeginGroup(_) => !e.bgError
    case InsertNext => Recorded(e)
    case EndGroup => Recorded(e)
    case TakeSnapshot => true
    case ReleaseSnapshot(_) => true
    case BeginRead(_, _) => true
    case EndRead(_) => true
    case _ => false
  }

  ghost predicate Allowed(lt: Order, e: Engine, event: Event)
    requires Shaped(e.store)
  {
    match event
    case Foreground(step) => Enabled(lt, e.store, step) && Unblocked(e, step)
    case AppendRecord => e.store.group.Some? && !Recorded(e) && e.logfileNumber in e.disk.logs
    case AppendFails => Enabled(lt, e.store, FailGroup) && !Recorded(e)
    case SyncFails => Enabled(lt, e.store, FailGroup) && Recorded(e)
    case SwitchLog => Enabled(lt, e.store, SwitchMemtable) && !e.bgError
    case StartFlush => e.store.immutable && BackgroundFree(e)
    case BuildTable => e.building.Some? && !e.building.value.built && e.store.immutable
    case CommitFlush(to) =>
      && e.commit == None && e.building.Some? && e.building.value.built
      && Enabled(lt, e.store, Flush(e.building.value.number, to))
    case FlushFails => e.building.Some?
    case StartMerge(level, inputs, based) => Enabled(lt, e.store, BeginMerge(level, inputs, based)) && BackgroundFree(e)
    case OpenOutput => e.store.merge.Some? && BackgroundFree(e) && e.output == None
    case FinishOutput(_) => e.store.merge.Some? && BackgroundFree(e) && e.output.Some?
    case CommitMerge(items) =>
      BackgroundFree(e) && e.output == None && Enabled(lt, e.store, FinishMerge(items, e.outputs))
    case MergeFails => Enabled(lt, e.store, AbandonMerge) && BackgroundFree(e)
    case CommitMove(t) => BackgroundFree(e) && Enabled(lt, e.store, MoveTable(t))
    case WriteManifest => e.commit.Some? && !e.commit.value.written && !e.commit.value.failed
    case ManifestFails(_) => e.commit.Some? && !e.commit.value.written && !e.commit.value.failed
    case Install =>
      e.commit.Some? && e.commit.value.written && !e.commit.value.failed && Enabled(lt, e.store, e.commit.value.step)
    case DeleteObsoleteFiles => e.commit == None && !e.bgError
    case CrashAndRecover(cut, number, top, tables, leftovers) =>
      && !e.damaged
      && e.logfileNumber in e.disk.logs && cut <= |e.disk.logs[e.logfileNumber]| <= |e.logged|
      && RecoveredTables(tables, Recovered(e, cut, number), e.disk.manifest.nextFile)
      && (forall n :: n in leftovers ==> n >= e.disk.manifest.nextFile)
      && (forall n :: n in e.disk.logs ==> n < number)
      && (forall i :: 0 <= i < |tables| ==> tables[i].number < number) && e.disk.manifest.nextFile <= number
      && TopSequence(Recovered(e, cut, number), e.disk.manifest.lastSequence) <= top < MAX_SEQUENCE_NUMBER
  }

  /** The edit that turns the installed version into the one the step makes. */
  ghost function EditFor(lt: Order, e: Engine, step: Step, logNumber: nat): Commit
    requires Shaped(e.store) && Enabled(lt, e.store, step)
  {
    var after := Do(lt, e.store, step);
    Commit(step, Manifest(after.version, logNumber, e.store.lastSequence, e.nextFile, after.floor, FirstLive(after)),
           false, false)
  }

  function FirstLive(st: Store): nat {
    if Shaped(st) then OldestLive(st) else 0
  }

  ghost function Act(lt: Order, e: Engine, event: Event): Engine
    requires Shaped(e.store) && Allowed(lt, e, event)
  {
    match event
    case Foreground(step) => e.(store := Do(lt, e.store, step))
    case AppendRecord =>
      var es := e.store.group.value.es;
      var logs := e.disk.logs[e.logfileNumber := e.disk.logs[e.logfileNumber] + [es]];
      e.(disk := e.disk.(logs := logs), logged := e.logged + [es])
    case AppendFails => e.(store := Do(lt, e.store, FailGroup), damaged := true)
    case SyncFails => e.(store := Do(lt, e.store, FailGroup), bgError := true)
    case SwitchLog =>
      e.(store := Do(lt, e.store, SwitchMemtable), disk := e.disk.(logs := e.disk.logs[e.nextFile := []]),
         logfileNumber := e.nextFile, nextFile := e.nextFile + 1,
         logNumbers := e.logNumbers + [e.nextFile], from := e.from + [|e.store.groups|])
    case StartFlush =>
      e.(building := Some(Building(e.nextFile, false)), pending := e.pending + {e.nextFile}, nextFile := e.nextFile + 1)
    case BuildTable =>
      var b, es := e.building.value, e.store.memtables[OldestLive(e.store)];
      e.(building := Some(b.(built := true)),
         disk := if es == {} then e.disk else e.disk.(tables := e.disk.tables[b.number := es]))
    case CommitFlush(to) =>
      var number := e.building.value.number;
      e.(building := None, pending := e.pending - {number},
         commit := Some(EditFor(lt, e, Flush(number, to), e.logfileNumber)))
    case FlushFails => e.(building := None, pending := e.pending - {e.building.value.number}, bgError := true)
    case StartMerge(level, inputs, based) => e.(store := Do(lt, e.store, BeginMerge(level, inputs, based)))
    case OpenOutput =>
      e.(output := Some(e.nextFile), pending := e.pending + {e.nextFile}, nextFile := e.nextFile + 1)
    case FinishOutput(es) =>
      var t := Table(e.output.value, e.store.merge.value.level + 1, es);
      e.(output := None, outputs := e.outputs + {t}, disk := e.disk.(tables := e.disk.tables[t.number := es]))
    case CommitMerge(items) => e.(commit := Some(EditFor(lt, e, FinishMerge(items, e.outputs), e.logNumber)))
    case MergeFails =>
      e.(store := Do(lt, e.store, AbandonMerge), pending := e.pending - Numbers(e.outputs) - OutputNumber(e),
         outputs := {}, output := None, bgError := true)
    case CommitMove(t) => e.(commit := Some(EditFor(lt, e, MoveTable(t), e.logNumber)))
    case WriteManifest =>
      e.(disk := e.disk.(manifest := e.commit.value.edit), commit := Some(e.commit.value.(written := true)))
    case ManifestFails(durable) =>
      e.(disk := if durable then e.disk.(manifest := e.commit.value.edit) else e.disk, bgError := true,
         commit := Some(e.commit.value.(written := durable, failed := true)))
    case Install =>
      var c := e.commit.value;
      var done := e.(store := Do(lt, e.store, c.step), logNumber := c.edit.logNumber, commit := None);
      if c.step.FinishMerge? then done.(pending := e.pending - Numbers(e.outputs), outputs := {}) else done
    case DeleteObsoleteFiles =>
      var keep := e.pending + Numbers(e.store.version) + ReaderNumbers(e.store.readers);
      e.(disk := e.disk.(logs := map n | n in e.disk.logs && n >= e.logNumber :: e.disk.logs[n],
                         tables := map n | n in e.disk.tables && n in keep :: e.disk.tables[n]))
    case CrashAndRecover(cut, number, top, tables, leftovers) =>
      Reopened(e, AfterCrash(e.disk, e.logfileNumber, cut), number, top, tables, leftovers,
               e.logged[..|e.logged| - (|e.disk.logs[e.logfileNumber]| - cut)])
  }

  /** What `Open` makes of the disk. Only the history fields look at `survivors`. */
  ghost function Reopened(e: Engine, d: Durable, number: nat, top: nat, tables: seq<Table>,
                          leftovers: map<nat, set<Entry>>, survivors: seq<seq<Entry>>): Engine
  {
    var m := d.manifest;
    var version := m.version + set t | t in tables;
    var st := Store(top, [{}], false, version, [], None, None, map[], EntriesIn(survivors), [top], survivors, m.floor);
    Engine(st, Durable(Manifest(version, number, top, number + 1, m.floor, 0), d.logs[number := []],
                       d.tables + leftovers + Contents(tables)),
           number, number, number + 1, {}, None, None, {}, None, false, false, survivors, [number], [|survivors|])
  }

  function OutputNumber(e: Engine): set<nat> {
    if e.output.Some? then {e.output.value} else {}
  }

  function ReaderNumbers(readers: map<nat, Reader>): set<nat> {
    set id, t | id in readers && t in readers[id].version :: t.number
  }

  // ----- The invariant -----

  ghost predicate InOrder(es: seq<Entry>) {
    forall i, j :: 0 <= i < j < |es| ==> es[i].seqno < es[j].seqno
  }

  /** The logs hold the completed groups and at most one more: the group being applied, or one whose
      sync failed. */
  ghost predicate LoggedOk(logged: seq<seq<Entry>>, groups: seq<seq<Entry>>, group: Option<Group>, last: nat,
                           bgError: bool)
  {
    && Ascending(logged) && (forall g :: g in logged ==> InOrder(g))
    && |groups| <= |logged| <= |groups| + 1 && logged[..|groups|] == groups
    && (forall x :: x in EntriesIn(logged) ==> x.seqno <= last + if group.Some? then |group.value.es| else 0)
    && (if |logged| == |groups| then group.Some? ==> group.value.done == 0
        else if group.Some? then logged[|groups|] == group.value.es
        else bgError)
  }

  /** How many batches precede the end of the i-th log. */
  function LogEnd(logged: seq<seq<Entry>>, from: seq<nat>, i: nat): nat
    requires i < |from|
  {
    if i + 1 < |from| then from[i + 1] else |logged|
  }

  /** What the i-th log holds. */
  function LogBatches(logged: seq<seq<Entry>>, from: seq<nat>, i: nat): seq<seq<Entry>>
    requires i < |from|
  {
    var hi := LogEnd(logged, from, i);
    if from[i] <= hi <= |logged| then logged[from[i]..hi] else []
  }

  ghost predicate FromAscends(from: seq<nat>, n: nat) {
    forall i, j :: 0 <= i <= j < |from| ==> from[i] <= from[j] <= n
  }

  ghost predicate LogNumbersOk(logNumbers: seq<nat>, logfileNumber: nat, nextFile: nat) {
    && logNumbers != [] && logNumbers[|logNumbers| - 1] == logfileNumber
    && (forall i, j :: 0 <= i < j < |logNumbers| ==> logNumbers[i] < logNumbers[j])
    && (forall i :: 0 <= i < |logNumbers| ==> logNumbers[i] < nextFile)
  }

  /** Each log starts at the group its memtable starts at. */
  ghost predicate FromOk(from: seq<nat>, starts: seq<nat>, groups: seq<seq<Entry>>, history: set<Entry>) {
    && |from| == |starts|
    && (forall i, j :: 0 <= i <= j < |from| ==> from[i] <= from[j])
    && (forall i :: 0 <= i < |from| ==> from[i] <= |groups| && UpTo(history, starts[i]) == EntriesIn(groups[..from[i]]))
  }

  /** Every log from the oldest live memtable's on is on disk, whole; nothing else there counts. */
  ghost predicate LogFilesOk(logs: map<nat, seq<seq<Entry>>>, logged: seq<seq<Entry>>, logNumbers: seq<nat>,
                             from: seq<nat>, oldest: nat)
  {
    && |from| == |logNumbers| && oldest < |from|
    && (forall i :: oldest <= i < |from| ==>
          logNumbers[i] in logs && logs[logNumbers[i]] == LogBatches(logged, from, i))
    && (forall n :: n in logs && n >= logNumbers[oldest] ==> exists i :: oldest <= i < |from| && logNumbers[i] == n)
  }

  /** The tables of a version are on disk with the right contents. */
  ghost predicate OnDisk(tables: map<nat, set<Entry>>, v: Version) {
    forall t :: t in v ==> t.number in tables && tables[t.number] == t.es
  }

  /** A file number in use by some version, or by finished compaction output. */
  ghost function InUse(e: Engine): set<nat> {
    Numbers(e.store.version) + ReaderNumbers(e.store.readers) + Numbers(e.outputs) +
    Numbers(e.disk.manifest.version) + if e.commit.Some? then Numbers(e.commit.value.edit.version) else {}
  }

  ghost predicate TablesOk(e: Engine) {
    && OnDisk(e.disk.tables, e.store.version) && OnDisk(e.disk.tables, e.outputs)
    && OnDisk(e.disk.tables, e.disk.manifest.version)
    && (forall id :: id in e.store.readers ==> OnDisk(e.disk.tables, e.store.readers[id].version))
    && (e.commit.Some? ==> OnDisk(e.disk.tables, e.commit.value.edit.version))
  }

  /** Files being written are pending, and no version refers to them yet. */
  ghost predicate PendingOk(e: Engine) {
    && (forall n :: n in InUse(e) ==> n < e.nextFile)
    && (e.building.Some? ==>
          var b := e.building.value;
          && b.number in e.pending && b.number < e.nextFile && b.number !in InUse(e) && e.commit == None
          && (forall t :: t in e.store.version ==> t.number < b.number) && e.store.immutable
          && (b.built && Shaped(e.store) && e.store.memtables[OldestLive(e.store)] != {} ==>
                b.number in e.disk.tables && e.disk.tables[b.number] == e.store.memtables[OldestLive(e.store)]))
    && (e.output.Some? ==>
          && e.output.value in e.pending && e.output.value < e.nextFile && e.output.value !in InUse(e)
          && (e.building.Some? ==> e.building.value.number != e.output.value) && e.store.merge.Some?)
    && Numbers(e.outputs) <= e.pending && (e.outputs != {} ==> e.store.merge.Some?)
    && Numbers(e.outputs) !! Numbers(e.store.version) && DistinctNumbers(e.outputs)
    && (e.commit.Some? ==>
          var c := e.commit.value;
          && (c.step.Flush? ==> Numbers(e.outputs) !! Numbers(c.edit.version))
          && (c.step.FinishMerge? ==> e.output == None)
          && (c.step.MoveTable? ==> e.store.merge == None))
  }

  /** The manifest describes the installed version, or the one about to be installed. */
  ghost predicate ManifestOk(lt: Order, e: Engine)
    requires Shaped(e.store)
  {
    && var m := e.disk.manifest;
       && BoundsOk(m, e.store, e.nextFile)
       && match e.commit
          case None => Describes(m, e.store.version, e.store.floor, OldestLive(e.store), e.logNumber)
          case Some(c) =>
            && Enabled(lt, e.store, c.step) && (c.step.Flush? || c.step.FinishMerge? || c.step.MoveTable?)
            && BoundsOk(c.edit, e.store, e.nextFile) && Leads(lt, e, c)
            && (if c.written then m == c.edit
                else Describes(m, e.store.version, e.store.floor, OldestLive(e.store), e.logNumber))
  }

  ghost predicate Describes(m: Manifest, version: Version, floor: nat, first: nat, logNumber: nat) {
    m.version == version && m.floor == floor && m.first == first && m.logNumber == logNumber
  }

  ghost predicate Leads(lt: Order, e: Engine, c: Commit)
    requires Shaped(e.store) && Enabled(lt, e.store, c.step)
  {
    var after := Do(lt, e.store, c.step);
    && Describes(c.edit, after.version, after.floor, FirstLive(after), c.edit.logNumber)
    && c.edit.logNumber == if c.step.Flush? then e.logfileNumber else e.logNumber
  }

  ghost predicate BoundsOk(m: Manifest, st: Store, nextFile: nat) {
    && m.floor <= m.lastSequence <= st.lastSequence && m.nextFile <= nextFile
    && m.first < |st.starts| && st.starts[m.first] <= m.lastSequence
    && forall t :: t in m.version ==> t.number < m.nextFile
  }

  ghost predicate Inv(lt: Order, e: Engine) {
    && Shaped(e.store) && S.Inv(e.store)
    && LoggedOk(e.logged, e.store.groups, e.store.group, e.store.lastSequence, e.bgError)
    && LogNumbersOk(e.logNumbers, e.logfileNumber, e.nextFile) && |e.logNumbers| == |e.store.starts|
    && e.logNumber == e.logNumbers[OldestLive(e.store)]
    && FromOk(e.from, e.store.starts, e.store.groups, e.store.history)
    && LogFilesOk(e.disk.logs, e.logged, e.logNumbers, e.from, OldestLive(e.store))
    && TablesOk(e) && PendingOk(e) && ManifestOk(lt, e)
  }

  // ----- Steps that leave versions and files alone -----

  /** What the background thread relies on is untouched. */
  ghost predicate Quiet(st: Store, st': Store)
    requires Shaped(st) && Shaped(st')
  {
    && st'.version == st.version && st'.merge == st.merge && st'.floor == st.floor && st'.immutable == st.immutable
    && st'.starts == st.starts && |st'.memtables| == |st.memtables| && st.lastSequence <= st'.lastSequence
    && (st.immutable ==> st'.memtables[OldestLive(st)] == st.memtables[OldestLive(st)])
    && forall id :: id in st'.readers ==>
         || (id in st.readers && st'.readers[id] == st.readers[id])
         || st'.readers[id].version == st.version
  }

  predicate IsForeground(step: Step) {
    match step
    case BeginGroup(_) => true
    case InsertNext => true
    case EndGroup => true
    case FailGroup => true
    case TakeSnapshot => true
    case ReleaseSnapshot(_) => true
    case BeginRead(_, _) => true
    case EndRead(_) => true
    case _ => false
  }

  lemma ForegroundIsQuiet(lt: Order, st: Store, step: Step)
    requires Shaped(st) && Enabled(lt, st, step) && IsForeground(step)
    ensures Shaped(Do(lt, st, step)) && Quiet(st, Do(lt, st, step))
  {
  }

  predicate IsBackground(step: Step) {
    step.Flush? || step.FinishMerge? || step.MoveTable?
  }

  /** A version edit stays valid, and means the same, across quiet steps. */
  lemma QuietBackground(lt: Order, st: Store, st': Store, step: Step)
    requires Shaped(st) && Shaped(st') && Quiet(st, st') && Enabled(lt, st, step) && IsBackground(step)
    ensures Enabled(lt, st', step)
    ensures var a, b := Do(lt, st, step), Do(lt, st', step);
            a.version == b.version && a.floor == b.floor && FirstLive(a) == FirstLive(b)
  {
    hide Fits, Merged, Closed, HidesNothing, DistinctNumbers;
  }

  /** Same files, same plans: only the store moved, quietly. */
  ghost predicate SameFiles(e: Engine, e': Engine) {
    && e'.disk.tables == e.disk.tables && e'.disk.manifest == e.disk.manifest && e'.commit == e.commit
    && e'.outputs == e.outputs && e'.building == e.building && e'.output == e.output && e'.pending == e.pending
    && e'.nextFile == e.nextFile && e'.logfileNumber == e.logfileNumber && e'.logNumber == e.logNumber
  }

  lemma QuietManifest(lt: Order, e: Engine, e': Engine)
    requires Shaped(e.store) && Shaped(e'.store) && ManifestOk(lt, e) && Quiet(e.store, e'.store) && SameFiles(e, e')
    ensures ManifestOk(lt, e')
  {
    hide Enabled, Do;
    if e.commit.Some? {
      QuietBackground(lt, e.store, e'.store, e.commit.value.step);
    }
  }

  lemma QuietNumbers(e: Engine, e': Engine)
    requires Shaped(e.store) && Shaped(e'.store) && Quiet(e.store, e'.store) && SameFiles(e, e')
    ensures InUse(e') <= InUse(e)
  {
    forall n | n in ReaderNumbers(e'.store.readers) ensures n in InUse(e) {
      var id, t :| id in e'.store.readers && t in e'.store.readers[id].version && t.number == n;
      assert t in e.store.version || (id in e.store.readers && t in e.store.readers[id].version);
    }
  }

  lemma QuietTables(e: Engine, e': Engine)
    requires Shaped(e.store) && Shaped(e'.store) && Quiet(e.store, e'.store) && SameFiles(e, e')
    requires TablesOk(e) && PendingOk(e)
    ensures TablesOk(e') && PendingOk(e')
  {
    hide OnDisk, InUse, DistinctNumbers;
    QuietNumbers(e, e');
  }

  // ----- Foreground events keep the invariant -----

  /** Later entries and later groups leave what each log covers alone. */
  lemma FromGrows(from: seq<nat>, starts: seq<nat>, groups: seq<seq<Entry>>, history: set<Entry>,
                  groups': seq<seq<Entry>>, history': set<Entry>, last: nat)
    requires FromOk(from, starts, groups, history)
    requires groups <= groups' && history <= history' && (forall i :: 0 <= i < |starts| ==> starts[i] <= last)
    requires forall x :: x in history' && x.seqno <= last ==> x in history
    ensures FromOk(from, starts, groups', history')
  {
    forall i | 0 <= i < |from|
      ensures from[i] <= |groups'| && UpTo(history', starts[i]) == EntriesIn(groups'[..from[i]])
    {
      assert groups'[..from[i]] == groups[..from[i]];
      assert UpTo(history', starts[i]) == UpTo(history, starts[i]);
    }
  }

  lemma ForegroundHistory(lt: Order, st: Store, step: Step)
    requires S.Inv(st) && Enabled(lt, st, step) && IsForeground(step)
    ensures var st' := Do(lt, st, step);
            && st.history <= st'.history && st.groups <= st'.groups
            && forall x :: x in st'.history && x.seqno <= st.lastSequence ==> x in st.history
    ensures forall i :: 0 <= i < |st.starts| ==> st.starts[i] <= st.lastSequence
  {
    hide VersionOk, SnapshotsOk, MergeOk, ReadersOk, AtomicOk, HistoryOk, Fits, HidesNothing, Merged, Closed;
  }

  lemma ForegroundLogged(lt: Order, e: Engine, step: Step)
    requires S.Inv(e.store) && Enabled(lt, e.store, step) && Unblocked(e, step)
    requires LoggedOk(e.logged, e.store.groups, e.store.group, e.store.lastSequence, e.bgError)
    ensures var st' := Do(lt, e.store, step);
            LoggedOk(e.logged, st'.groups, st'.group, st'.lastSequence, e.bgError)
  {
    hide VersionOk, SnapshotsOk, MergeOk, ReadersOk, AtomicOk, HistoryOk, Fits, HidesNothing, Merged, Closed;
    hide Ascending, InOrder;
    hide MemtablesOk;
    if step.EndGroup? {
      assert e.logged[..|e.logged|] == e.logged == e.store.groups + [e.store.group.value.es];
    }
  }

  lemma ForegroundKeeps(lt: Order, e: Engine, step: Step)
    requires TotalOrder(lt) && Inv(lt, e) && Allowed(lt, e, Foreground(step))
    ensures Inv(lt, Act(lt, e, Foreground(step)))
  {
    hide S.Inv, Enabled, Do, LoggedOk, FromOk, LogFilesOk, TablesOk, PendingOk, ManifestOk, Quiet;
    var e' := e.(store := Do(lt, e.store, step));
    S.StepKeeps(lt, e.store, step);
    ForegroundIsQuiet(lt, e.store, step);
    ForegroundHistory(lt, e.store, step);
    ForegroundLogged(lt, e, step);
    FromGrows(e.from, e.store.starts, e.store.groups, e.store.history, e'.store.groups, e'.store.history,
              e.store.lastSequence);
    QuietFacts(e, e');
    QuietManifest(lt, e, e');
    QuietTables(e, e');
  }

  lemma QuietFacts(e: Engine, e': Engine)
    requires Shaped(e.store) && Shaped(e'.store) && Quiet(e.store, e'.store)
    ensures e'.store.starts == e.store.starts && OldestLive(e'.store) == OldestLive(e.store)
  {
  }

  lemma GroupBeyond(lt: Order, st: Store)
    requires S.Inv(st) && st.group.Some?
    ensures var es := st.group.value.es;
            forall i :: 0 <= i < |es| ==> es[i].seqno == st.lastSequence + 1 + i
    ensures forall g, x :: g in st.groups && x in g ==> x.seqno <= st.lastSequence
  {
    hide VersionOk, SnapshotsOk, MergeOk, ReadersOk, HistoryOk;
    forall g, x | g in st.groups && x in g ensures x.seqno <= st.lastSequence {
      var i :| 0 <= i < |g| && g[i] == x;
    }
  }

  lemma AppendLogged(e: Engine)
    requires S.Inv(e.store) && e.store.group.Some? && !Recorded(e)
    requires LoggedOk(e.logged, e.store.groups, e.store.group, e.store.lastSequence, e.bgError)
    ensures var es := e.store.group.value.es;
            LoggedOk(e.logged + [es], e.store.groups, e.store.group, e.store.lastSequence, e.bgError)
  {
    hide S.Inv;
    var es := e.store.group.value.es;
    GroupBeyond((a, b) => false, e.store);
    assert e.logged == e.store.groups;
    EntriesInAppend(e.logged, es);
    var logged := e.logged + [es];
    forall i, j, a: Entry, b: Entry | 0 <= i < j < |logged| && a in logged[i] && b in logged[j]
      ensures a.seqno < b.seqno
    {
      if j == |e.logged| {
        assert logged[i] in e.store.groups;
      } else {
        assert a in e.logged[i] && b in e.logged[j];
      }
    }
  }

  lemma AppendFiles(logs: map<nat, seq<seq<Entry>>>, logged: seq<seq<Entry>>, logNumbers: seq<nat>, from: seq<nat>,
                    oldest: nat, es: seq<Entry>)
    requires LogFilesOk(logs, logged, logNumbers, from, oldest)
    requires FromAscends(from, |logged|)
    requires forall i, j :: 0 <= i < j < |logNumbers| ==> logNumbers[i] < logNumbers[j]
    ensures var n := logNumbers[|logNumbers| - 1];
            n in logs && LogFilesOk(logs[n := logs[n] + [es]], logged + [es], logNumbers, from, oldest)
  {
    hide LogBatches;
    forall i | oldest <= i < |from|
      ensures LogBatches(logged + [es], from, i) == LogBatches(logged, from, i) + if i == |from| - 1 then [es] else []
      ensures i < |from| - 1 ==> logNumbers[i] != logNumbers[|logNumbers| - 1]
    {
      AppendBatch(logged, from, i, es);
    }
  }

  lemma AppendBatch(logged: seq<seq<Entry>>, from: seq<nat>, i: nat, es: seq<Entry>)
    requires i < |from| && FromAscends(from, |logged|)
    ensures LogBatches(logged + [es], from, i) == LogBatches(logged, from, i) + if i == |from| - 1 then [es] else []
  {
    var hi := LogEnd(logged, from, i);
    assert (logged + [es])[from[i]..hi] == logged[from[i]..hi];
  }

  lemma AppendKeeps(lt: Order, e: Engine)
    requires TotalOrder(lt) && Inv(lt, e) && Allowed(lt, e, AppendRecord)
    ensures Inv(lt, Act(lt, e, AppendRecord))
  {
    hide S.Inv, Enabled, Do, LoggedOk, LogFilesOk, TablesOk, PendingOk, ManifestOk, Quiet;
    var e' := Act(lt, e, AppendRecord);
    AppendLogged(e);
    LoggedLength(e);
    AppendFiles(e.disk.logs, e.logged, e.logNumbers, e.from, OldestLive(e.store), e.store.group.value.es);
    StoreIsQuiet(e.store);
    QuietManifest(lt, e, e');
    QuietTables(e, e');
  }

  lemma LoggedLength(e: Engine)
    requires LoggedOk(e.logged, e.store.groups, e.store.group, e.store.lastSequence, e.bgError)
    requires FromOk(e.from, e.store.starts, e.store.groups, e.store.history)
    ensures FromAscends(e.from, |e.logged|) && |e.from| == |e.store.starts|
  {
  }

  lemma StoreIsQuiet(st: Store)
    requires Shaped(st)
    ensures Quiet(st, st)
  {
  }

  lemma FailLogged(lt: Order, e: Engine, bgError: bool)
    requires S.Inv(e.store) && Enabled(lt, e.store, FailGroup) && (Recorded(e) ==> bgError) && (e.bgError ==> bgError)
    requires LoggedOk(e.logged, e.store.groups, e.store.group, e.store.lastSequence, e.bgError)
    ensures var st' := Do(lt, e.store, FailGroup);
            LoggedOk(e.logged, st'.groups, st'.group, st'.lastSequence, bgError)
  {
    hide VersionOk, SnapshotsOk, MergeOk, ReadersOk, AtomicOk, HistoryOk, MemtablesOk, Ascending, InOrder;
  }

  lemma FailKeeps(lt: Order, e: Engine, event: Event)
    requires TotalOrder(lt) && Inv(lt, e) && Allowed(lt, e, event) && (event.AppendFails? || event.SyncFails?)
    ensures Inv(lt, Act(lt, e, event))
  {
    hide S.Inv, Enabled, Do, LoggedOk, FromOk, LogFilesOk, TablesOk, PendingOk, ManifestOk, Quiet;
    var e' := Act(lt, e, event);
    S.StepKeeps(lt, e.store, FailGroup);
    ForegroundIsQuiet(lt, e.store, FailGroup);
    ForegroundHistory(lt, e.store, FailGroup);
    FailLogged(lt, e, e'.bgError);
    FromGrows(e.from, e.store.starts, e.store.groups, e.store.history, e'.store.groups, e'.store.history,
              e.store.lastSequence);
    QuietFacts(e, e');
    QuietManifest(lt, e, e');
    QuietTables(e, e');
  }

  // ----- Switching logs -----

  lemma SwitchBackground(lt: Order, st: Store, step: Step)
    requires Shaped(st) && Enabled(lt, st, SwitchMemtable) && Enabled(lt, st, step) && IsBackground(step)
    ensures var st' := Do(lt, st, SwitchMemtable);
            && Shaped(st') && Enabled(lt, st', step) && !step.Flush?
            && var a, b := Do(lt, st, step), Do(lt, st', step);
               a.version == b.version && a.floor == b.floor && FirstLive(a) == FirstLive(b)
  {
    hide Fits, Merged, Closed, HidesNothing, DistinctNumbers;
  }

  lemma SwitchFields(lt: Order, st: Store)
    requires Shaped(st) && Enabled(lt, st, SwitchMemtable)
    ensures var st' := Do(lt, st, SwitchMemtable);
            && Shaped(st') && OldestLive(st') == OldestLive(st) == |st.starts| - 1
            && st' == st.(memtables := st.memtables + [{}], starts := st.starts + [st.lastSequence], immutable := true)
            && st.group == None && !st.immutable
  {
  }

  lemma SwitchFiles(logs: map<nat, seq<seq<Entry>>>, logged: seq<seq<Entry>>, logNumbers: seq<nat>, from: seq<nat>,
                    number: nat)
    requires |from| == |logNumbers| > 0 && LogFilesOk(logs, logged, logNumbers, from, |from| - 1)
    requires (forall i :: 0 <= i < |logNumbers| ==> logNumbers[i] < number) && from[|from| - 1] <= |logged|
    ensures LogFilesOk(logs[number := []], logged, logNumbers + [number], from + [|logged|], |from| - 1)
  {
    var logs', logNumbers', from', last := logs[number := []], logNumbers + [number], from + [|logged|], |from| - 1;
    assert LogBatches(logged, from', last) == LogBatches(logged, from, last);
    assert LogBatches(logged, from', |from|) == [];
    hide LogBatches;
    forall n | n in logs' && n >= logNumbers'[last] ensures exists i :: last <= i < |from'| && logNumbers'[i] == n {
      if n == number {
        assert logNumbers'[|from|] == n;
      } else {
        assert logNumbers'[last] == n;
      }
    }
  }

  lemma SwitchFrom(st: Store, from: seq<nat>)
    requires S.Inv(st) && st.group == None && FromOk(from, st.starts, st.groups, st.history)
    ensures FromOk(from + [|st.groups|], st.starts + [st.lastSequence], st.groups, st.history)
  {
    hide VersionOk, SnapshotsOk, MergeOk, ReadersOk, AtomicOk, MemtablesOk;
    assert UpTo(st.history, st.lastSequence) == st.history;
    assert st.groups[..|st.groups|] == st.groups;
  }

  lemma SwitchKeeps(lt: Order, e: Engine)
    requires TotalOrder(lt) && Inv(lt, e) && Allowed(lt, e, SwitchLog)
    ensures Inv(lt, Act(lt, e, SwitchLog))
  {
    hide S.Inv, Enabled, Do, FromOk, LogFilesOk, TablesOk, PendingOk, ManifestOk, Quiet, Ascending;
    var e' := Act(lt, e, SwitchLog);
    S.StepKeeps(lt, e.store, SwitchMemtable);
    SwitchFields(lt, e.store);
    LoggedLength(e);
    SwitchFiles(e.disk.logs, e.logged, e.logNumbers, e.from, e.nextFile);
    SwitchFrom(e.store, e.from);
    SwitchPlans(lt, e);
  }

  lemma SwitchPlans(lt: Order, e: Engine)
    requires Inv(lt, e) && Allowed(lt, e, SwitchLog)
    ensures var e' := Act(lt, e, SwitchLog);
            Shaped(e'.store) && TablesOk(e') && PendingOk(e') && ManifestOk(lt, e')
  {
    hide S.Inv, Enabled, Do, FromOk, LogFilesOk, OnDisk, InUse, LoggedOk, DistinctNumbers;
    SwitchFields(lt, e.store);
    var e' := Act(lt, e, SwitchLog);
    SwitchNumbers(lt, e);
    if e.commit.Some? {
      SwitchBackground(lt, e.store, e.commit.value.step);
    }
  }

  lemma SwitchNumbers(lt: Order, e: Engine)
    requires Inv(lt, e) && Allowed(lt, e, SwitchLog)
    ensures InUse(Act(lt, e, SwitchLog)) == InUse(e)
  {
    hide S.Inv, Enabled, Do, FromOk, LogFilesOk, OnDisk, LoggedOk, DistinctNumbers, TablesOk, PendingOk, ManifestOk;
    SwitchFields(lt, e.store);
  }

  // ----- Background events keep the invariant -----

  lemma PlansKept(lt: Order, e: Engine, e': Engine)
    requires Shaped(e.store) && ManifestOk(lt, e) && e'.store == e.store && e'.disk.manifest == e.disk.manifest
    requires e'.commit == e.commit && e'.logNumber == e.logNumber && e'.logfileNumber == e.logfileNumber
    requires e'.nextFile >= e.nextFile
    ensures ManifestOk(lt, e')
  {
    hide Enabled, Do;
  }

  /** Writing a file whose number nothing refers to disturbs no version. */
  lemma FreshFile(e: Engine, tables: map<nat, set<Entry>>)
    requires TablesOk(e)
    requires forall n :: n in InUse(e) && n in e.disk.tables ==> n in tables && tables[n] == e.disk.tables[n]
    ensures TablesOk(e.(disk := e.disk.(tables := tables)))
  {
    hide InUse;
    forall v | v == e.store.version || v == e.outputs || v == e.disk.manifest.version ||
               (e.commit.Some? && v == e.commit.value.edit.version) ||
               exists id :: id in e.store.readers && v == e.store.readers[id].version
      ensures OnDisk(tables, v)
    {
      VersionInUse(e, v);
      assert OnDisk(e.disk.tables, v);
    }
  }

  lemma VersionInUse(e: Engine, v: Version)
    requires v == e.store.version || v == e.outputs || v == e.disk.manifest.version ||
             (e.commit.Some? && v == e.commit.value.edit.version) ||
             exists id :: id in e.store.readers && v == e.store.readers[id].version
    ensures forall t :: t in v ==> t.number in InUse(e)
  {
    forall t | t in v ensures t.number in InUse(e) {
      assert t.number in Numbers(v);
      if exists id :: id in e.store.readers && v == e.store.readers[id].version {
        assert t.number in ReaderNumbers(e.store.readers);
      }
    }
  }

  lemma AllocationKeeps(lt: Order, e: Engine, event: Event)
    requires TotalOrder(lt) && Inv(lt, e) && Allowed(lt, e, event) && (event.StartFlush? || event.OpenOutput?)
    ensures Inv(lt, Act(lt, e, event))
  {
    hide S.Inv, Enabled, Do, LoggedOk, FromOk, LogFilesOk, OnDisk, ManifestOk, DistinctNumbers;
    var e' := Act(lt, e, event);
    PlansKept(lt, e, e');
    assert InUse(e') == InUse(e);
    VersionInUse(e, e.store.version);
  }

  lemma BuildTableKeeps(lt: Order, e: Engine)
    requires TotalOrder(lt) && Inv(lt, e) && Allowed(lt, e, BuildTable)
    ensures Inv(lt, Act(lt, e, BuildTable))
  {
    hide S.Inv, Enabled, Do, LoggedOk, FromOk, LogFilesOk, OnDisk, ManifestOk, DistinctNumbers;
    var e' := Act(lt, e, BuildTable);
    PlansKept(lt, e, e');
    assert InUse(e') == InUse(e);
    FreshFile(e, e'.disk.tables);
  }

  lemma FlushFailsKeeps(lt: Order, e: Engine)
    requires TotalOrder(lt) && Inv(lt, e) && Allowed(lt, e, FlushFails)
    ensures Inv(lt, Act(lt, e, FlushFails))
  {
    hide S.Inv, Enabled, Do, Ascending, InOrder, FromOk, LogFilesOk, OnDisk, ManifestOk, DistinctNumbers;
    var e' := Act(lt, e, FlushFails);
    PlansKept(lt, e, e');
    assert InUse(e') == InUse(e);
  }

  lemma FinishOutputKeeps(lt: Order, e: Engine, es: set<Entry>)
    requires TotalOrder(lt) && Inv(lt, e) && Allowed(lt, e, FinishOutput(es))
    ensures Inv(lt, Act(lt, e, FinishOutput(es)))
  {
    hide S.Inv, Enabled, Do, LoggedOk, FromOk, LogFilesOk, OnDisk, ManifestOk;
    var e' := Act(lt, e, FinishOutput(es));
    var t := Table(e.output.value, e.store.merge.value.level + 1, es);
    PlansKept(lt, e, e');
    FreshFile(e, e'.disk.tables);
    assert Numbers(e'.outputs) == Numbers(e.outputs) + {t.number};
    assert InUse(e') == InUse(e) + {t.number};
    OutputOnDisk(e, t, e'.disk.tables);
  }

  lemma OutputOnDisk(e: Engine, t: Table, tables: map<nat, set<Entry>>)
    requires OnDisk(e.disk.tables, e.outputs) && t.number !in Numbers(e.outputs)
    requires tables == e.disk.tables[t.number := t.es]
    ensures OnDisk(tables, e.outputs + {t})
    ensures DistinctNumbers(e.outputs) ==> DistinctNumbers(e.outputs + {t})
  {
    assert forall u :: u in e.outputs ==> u.number in Numbers(e.outputs);
  }

  lemma StoreBounds(st: Store)
    requires S.Inv(st)
    ensures st.floor <= st.lastSequence
    ensures forall i :: 0 <= i < |st.starts| ==> st.starts[i] <= st.lastSequence
    ensures st.merge.Some? ==> st.merge.value.snap <= st.lastSequence
  {
    hide VersionOk, ReadersOk, AtomicOk, HistoryOk, SequenceOk, MergeOk;
  }

  /** What a background step makes of the store. */
  lemma BackgroundFields(lt: Order, st: Store, step: Step)
    requires Shaped(st) && Enabled(lt, st, step) && IsBackground(step)
    ensures var st' := Do(lt, st, step);
            && Shaped(st') && FirstLive(st') == OldestLive(st')
            && st'.starts == st.starts && st'.memtables == st.memtables && st'.history == st.history
            && st'.groups == st.groups && st'.group == st.group && st'.lastSequence == st.lastSequence
            && st'.readers == st.readers
            && (step.Flush? ==> OldestLive(st') == |st.starts| - 1 && st'.floor == st.floor && st'.merge == st.merge)
            && (!step.Flush? ==> OldestLive(st') == OldestLive(st) && st'.immutable == st.immutable)
            && (step.FinishMerge? ==> st.merge.Some? && st'.floor == st.merge.value.snap && st'.merge == None)
            && (step.MoveTable? ==> st'.floor == st.floor && st'.merge == st.merge == None)
  {
    hide Fits, Merged, Closed, HidesNothing, DistinctNumbers;
  }

  /** Committing: the edit's version is on disk, and its numbers were allocated. */
  lemma CommitKeeps(lt: Order, e: Engine, e': Engine, step: Step, logNumber: nat)
    requires TotalOrder(lt) && Inv(lt, e) && BackgroundFree(e.(building := None)) && IsBackground(step)
    requires Enabled(lt, e.store, step) && logNumber == if step.Flush? then e.logfileNumber else e.logNumber
    requires var c := EditFor(lt, e, step, logNumber);
             && e' == e.(commit := Some(c), building := None, pending := e'.pending)
             && OnDisk(e.disk.tables, c.edit.version) && (forall t :: t in c.edit.version ==> t.number < e.nextFile)
             && (step.Flush? ==> Numbers(e.outputs) !! Numbers(c.edit.version))
             && (e.output.Some? ==> e.output.value !in Numbers(c.edit.version) && e.output.value in e'.pending)
    requires Numbers(e.outputs) <= e'.pending
    requires step.FinishMerge? ==> e.output == None
    ensures Inv(lt, e')
  {
    hide S.Inv, Enabled, Do, LoggedOk, FromOk, LogFilesOk, OnDisk, DistinctNumbers;
    StoreBounds(e.store);
    BackgroundFields(lt, e.store, step);
    assert InUse(e') == InUse(e) + Numbers(e'.commit.value.edit.version);
  }

  lemma FlushEdit(lt: Order, st: Store, number: nat, to: nat)
    requires Shaped(st) && Enabled(lt, st, Flush(number, to))
    ensures var es, v := st.memtables[OldestLive(st)], Do(lt, st, Flush(number, to)).version;
            v == if es == {} then st.version else st.version + {Table(number, to, es)}
  {
    hide Fits;
  }

  lemma CommitFlushKeeps(lt: Order, e: Engine, to: nat)
    requires TotalOrder(lt) && Inv(lt, e) && Allowed(lt, e, CommitFlush(to))
    ensures Inv(lt, Act(lt, e, CommitFlush(to)))
  {
    hide S.Inv, Enabled, Do, LoggedOk, FromOk, LogFilesOk, DistinctNumbers, ManifestOk;
    var e' := Act(lt, e, CommitFlush(to));
    var b := e.building.value;
    FlushEdit(lt, e.store, b.number, to);
    VersionInUse(e, e.outputs);
    VersionInUse(e, e.store.version);
    NumbersIn(e, b.number);
    CommitKeeps(lt, e, e', Flush(b.number, to), e.logfileNumber);
  }

  lemma NumbersIn(e: Engine, n: nat)
    requires n !in InUse(e)
    ensures n !in Numbers(e.outputs) && n !in Numbers(e.store.version)
  {
  }

  lemma MergeEdit(lt: Order, st: Store, items: seq<C.Item>, outputs: Version)
    requires Shaped(st) && Enabled(lt, st, FinishMerge(items, outputs))
    ensures Do(lt, st, FinishMerge(items, outputs)).version == st.version - st.merge.value.inputs + outputs
  {
    hide Merged, DistinctNumbers;
  }

  lemma CommitMergeKeeps(lt: Order, e: Engine, items: seq<C.Item>)
    requires TotalOrder(lt) && Inv(lt, e) && Allowed(lt, e, CommitMerge(items))
    ensures Inv(lt, Act(lt, e, CommitMerge(items)))
  {
    hide S.Inv, Enabled, Do, LoggedOk, FromOk, LogFilesOk, DistinctNumbers, ManifestOk;
    MergeEdit(lt, e.store, items, e.outputs);
    VersionInUse(e, e.outputs);
    VersionInUse(e, e.store.version);
    CommitKeeps(lt, e, Act(lt, e, CommitMerge(items)), FinishMerge(items, e.outputs), e.logNumber);
  }

  lemma MoveEdit(lt: Order, st: Store, t: Table)
    requires Shaped(st) && Enabled(lt, st, MoveTable(t))
    ensures Do(lt, st, MoveTable(t)).version == st.version - {t} + {t.(level := t.level + 1)} && t in st.version
  {
  }

  lemma CommitMoveKeeps(lt: Order, e: Engine, t: Table)
    requires TotalOrder(lt) && Inv(lt, e) && Allowed(lt, e, CommitMove(t))
    ensures Inv(lt, Act(lt, e, CommitMove(t)))
  {
    hide S.Inv, Enabled, Do, LoggedOk, FromOk, LogFilesOk, DistinctNumbers, ManifestOk;
    MoveEdit(lt, e.store, t);
    VersionInUse(e, e.store.version);
    CommitKeeps(lt, e, Act(lt, e, CommitMove(t)), MoveTable(t), e.logNumber);
  }

  lemma MergeFields(lt: Order, st: Store, step: Step)
    requires Shaped(st) && Enabled(lt, st, step) && (step.BeginMerge? || step.AbandonMerge?)
    ensures var st' := Do(lt, st, step);
            Shaped(st') && st' == st.(merge := st'.merge) && (step.BeginMerge? ==> st.merge == None && st'.merge.Some?)
  {
  }

  lemma StartMergeKeeps(lt: Order, e: Engine, level: nat, inputs: Version, based: set<Key>)
    requires TotalOrder(lt) && Inv(lt, e) && Allowed(lt, e, StartMerge(level, inputs, based))
    ensures Inv(lt, Act(lt, e, StartMerge(level, inputs, based)))
  {
    hide S.Inv, Enabled, Do, LoggedOk, FromOk, LogFilesOk, DistinctNumbers, OnDisk;
    var e' := Act(lt, e, StartMerge(level, inputs, based));
    S.StepKeeps(lt, e.store, BeginMerge(level, inputs, based));
    MergeFields(lt, e.store, BeginMerge(level, inputs, based));
    assert InUse(e') == InUse(e);
  }

  lemma BgErrorLogged(e: Engine)
    requires LoggedOk(e.logged, e.store.groups, e.store.group, e.store.lastSequence, e.bgError)
    ensures LoggedOk(e.logged, e.store.groups, e.store.group, e.store.lastSequence, true)
  {
  }

  lemma MergeFailsKeeps(lt: Order, e: Engine)
    requires TotalOrder(lt) && Inv(lt, e) && Allowed(lt, e, MergeFails)
    ensures Inv(lt, Act(lt, e, MergeFails))
  {
    hide S.Inv, Enabled, Do, LoggedOk, FromOk, LogFilesOk, DistinctNumbers, OnDisk, ManifestOk;
    var e' := Act(lt, e, MergeFails);
    BgErrorLogged(e);
    S.StepKeeps(lt, e.store, AbandonMerge);
    MergeFields(lt, e.store, AbandonMerge);
    IdlePlans(lt, e, e');
    assert InUse(e') <= InUse(e);
    NothingHeld(e.disk.tables);
  }

  /** With no edit under way, the manifest's plans depend on little of the store. */
  lemma IdlePlans(lt: Order, e: Engine, e': Engine)
    requires Shaped(e.store) && Shaped(e'.store) && ManifestOk(lt, e) && e.commit == None && e'.commit == None
    requires e'.store == e.store.(merge := e'.store.merge) && e'.disk.manifest == e.disk.manifest
    requires e'.logNumber == e.logNumber && e'.nextFile == e.nextFile
    ensures ManifestOk(lt, e')
  {
  }

  lemma NothingHeld(tables: map<nat, set<Entry>>)
    ensures OnDisk(tables, {}) && DistinctNumbers({})
  {
  }

  lemma ManifestWrittenKeeps(lt: Order, e: Engine, event: Event)
    requires TotalOrder(lt) && Inv(lt, e) && Allowed(lt, e, event) && (event.WriteManifest? || event.ManifestFails?)
    ensures Inv(lt, Act(lt, e, event))
  {
    hide S.Inv, Enabled, Do, LoggedOk, FromOk, LogFilesOk, ManifestOk, TablesOk, PendingOk;
    var e' := Act(lt, e, event);
    BgErrorLogged(e);
    ManifestWrittenPlans(lt, e, e');
    ManifestWrittenTables(e, e');
  }

  /** The manifest now is the edit, or what it was. */
  ghost predicate ManifestMoves(e: Engine, e': Engine) {
    && e.commit.Some? && e'.commit.Some? && !e.commit.value.written && !e.commit.value.failed
    && e' == e.(disk := e'.disk, commit := e'.commit, bgError := e'.bgError)
    && e'.disk == e.disk.(manifest := e'.disk.manifest)
    && e'.commit.value.step == e.commit.value.step && e'.commit.value.edit == e.commit.value.edit
    && e'.disk.manifest == if e'.commit.value.written then e.commit.value.edit else e.disk.manifest
  }

  lemma ManifestWrittenPlans(lt: Order, e: Engine, e': Engine)
    requires Shaped(e.store) && ManifestOk(lt, e) && ManifestMoves(e, e')
    requires !e'.commit.value.written ==> e'.commit.value.failed
    ensures ManifestOk(lt, e')
  {
    hide Enabled, Do;
  }

  lemma ManifestWrittenTables(e: Engine, e': Engine)
    requires TablesOk(e) && PendingOk(e) && ManifestMoves(e, e')
    ensures TablesOk(e') && PendingOk(e')
  {
    hide DistinctNumbers, OnDisk;
    assert InUse(e') <= InUse(e);
  }

  lemma LaterOldest(logs: map<nat, seq<seq<Entry>>>, logged: seq<seq<Entry>>, logNumbers: seq<nat>, from: seq<nat>,
                    oldest: nat, later: nat)
    requires LogFilesOk(logs, logged, logNumbers, from, oldest) && oldest <= later < |from|
    requires forall i, j :: 0 <= i < j < |logNumbers| ==> logNumbers[i] < logNumbers[j]
    ensures LogFilesOk(logs, logged, logNumbers, from, later)
  {
    hide LogBatches;
    forall n | n in logs && n >= logNumbers[later] ensures exists i :: later <= i < |from| && logNumbers[i] == n {
      assert oldest < later ==> logNumbers[oldest] < logNumbers[later];
      var i :| oldest <= i < |from| && logNumbers[i] == n;
      assert i >= later;
    }
  }

  lemma InstalledPlans(lt: Order, e: Engine, e': Engine)
    requires Shaped(e.store) && ManifestOk(lt, e) && e.commit.Some? && e.commit.value.written
    requires e'.store == Do(lt, e.store, e.commit.value.step) && e'.disk == e.disk && e'.nextFile == e.nextFile
    requires e'.commit == None && e'.logNumber == e.commit.value.edit.logNumber
    ensures Shaped(e'.store) && ManifestOk(lt, e') && e'.store.version == e.commit.value.edit.version
    ensures e'.logNumber == if e.commit.value.step.Flush? then e.logfileNumber else e.logNumber
  {
    hide Enabled, Do;
    BackgroundFields(lt, e.store, e.commit.value.step);
  }

  lemma InstalledTables(lt: Order, e: Engine, e': Engine)
    requires TablesOk(e) && PendingOk(e) && e.commit.Some? && IsBackground(e.commit.value.step)
    requires var c := e.commit.value;
             && e' == e.(store := e'.store, logNumber := e'.logNumber, commit := None,
                         pending := if c.step.FinishMerge? then e.pending - Numbers(e.outputs) else e.pending,
                         outputs := if c.step.FinishMerge? then {} else e.outputs)
             && e'.store.version == c.edit.version && e'.store.readers == e.store.readers
             && (c.step.Flush? ==> e'.store.merge == e.store.merge)
             && (c.step.MoveTable? ==> e'.store.merge == e.store.merge)
    ensures TablesOk(e') && PendingOk(e')
  {
    hide DistinctNumbers, OnDisk;
    NothingHeld(e.disk.tables);
    assert InUse(e') <= InUse(e);
  }

  lemma InstallKeeps(lt: Order, e: Engine)
    requires TotalOrder(lt) && Inv(lt, e) && Allowed(lt, e, Install)
    ensures Inv(lt, Act(lt, e, Install))
  {
    hide S.Inv, Enabled, Do, LoggedOk, FromOk, LogFilesOk, TablesOk, PendingOk;
    var e' := Act(lt, e, Install);
    S.StepKeeps(lt, e.store, e.commit.value.step);
    InstalledPlans(lt, e, e');
    BackgroundFields(lt, e.store, e.commit.value.step);
    LogsShaped(e);
    LaterOldest(e.disk.logs, e.logged, e.logNumbers, e.from, OldestLive(e.store), OldestLive(e'.store));
    InstalledTables(lt, e, e');
  }

  lemma LogsShaped(e: Engine)
    requires FromOk(e.from, e.store.starts, e.store.groups, e.store.history)
    ensures |e.from| == |e.store.starts|
  {
  }

  ghost function Keep(e: Engine): set<nat> {
    e.pending + Numbers(e.store.version) + ReaderNumbers(e.store.readers)
  }

  /** Between commits everything in use is kept. */
  lemma KeepsInUse(lt: Order, e: Engine)
    requires Inv(lt, e) && e.commit == None
    ensures InUse(e) <= Keep(e) && (e.building.Some? ==> e.building.value.number in Keep(e))
  {
    hide S.Inv, Enabled, Do, LoggedOk, FromOk, LogFilesOk, DistinctNumbers, OnDisk;
  }

  lemma DeleteLogs(logs: map<nat, seq<seq<Entry>>>, logged: seq<seq<Entry>>, logNumbers: seq<nat>, from: seq<nat>,
                   oldest: nat, logNumber: nat)
    requires LogFilesOk(logs, logged, logNumbers, from, oldest) && logNumber == logNumbers[oldest]
    requires forall i, j :: 0 <= i < j < |logNumbers| ==> logNumbers[i] < logNumbers[j]
    ensures LogFilesOk(map n | n in logs && n >= logNumber :: logs[n], logged, logNumbers, from, oldest)
  {
    hide LogBatches;
    forall i | oldest <= i < |from| ensures logNumbers[i] >= logNumber {
      assert i == oldest || logNumbers[oldest] < logNumbers[i];
    }
  }

  lemma DeleteKeeps(lt: Order, e: Engine)
    requires TotalOrder(lt) && Inv(lt, e) && Allowed(lt, e, DeleteObsoleteFiles)
    ensures Inv(lt, Act(lt, e, DeleteObsoleteFiles))
  {
    hide S.Inv, Enabled, Do, LoggedOk, FromOk, LogFilesOk, DistinctNumbers, OnDisk, ManifestOk;
    var e' := Act(lt, e, DeleteObsoleteFiles);
    KeepsInUse(lt, e);
    LogsShaped(e);
    DeleteLogs(e.disk.logs, e.logged, e.logNumbers, e.from, OldestLive(e.store), e.logNumber);
    FreshFile(e, e'.disk.tables);
    PlansKept(lt, e, e');
    assert InUse(e') == InUse(e);
  }

  // ----- Crash and recovery -----

  lemma {:induction false} ReplayGap(logs: map<nat, seq<seq<Entry>>>, lo: nat, a: nat, b: nat)
    requires lo <= a <= b && forall n :: a <= n < b ==> n !in logs
    ensures Replay(logs, lo, b) == Replay(logs, lo, a)
    decreases b
  {
    if a < b {
      ReplayGap(logs, lo, a, b - 1);
    }
  }

  lemma {:induction false} ReplayCongruent(logs: map<nat, seq<seq<Entry>>>, logs': map<nat, seq<seq<Entry>>>, lo: nat,
                                           hi: nat)
    requires forall n :: n < hi ==> (n in logs <==> n in logs') && (n in logs ==> logs[n] == logs'[n])
    ensures Replay(logs, lo, hi) == Replay(logs', lo, hi)
    decreases hi
  {
    if hi > lo {
      ReplayCongruent(logs, logs', lo, hi - 1);
    }
  }

  /** Replaying the logs from the first-th on, up to and including the i-th, gives back their batches. */
  lemma {:induction false} ReplayIsLogged(logs: map<nat, seq<seq<Entry>>>, logged: seq<seq<Entry>>,
                                          logNumbers: seq<nat>, from: seq<nat>, first: nat, i: nat)
    requires LogFilesOk(logs, logged, logNumbers, from, first) && first <= i < |from| && FromAscends(from, |logged|)
    requires forall i, j :: 0 <= i < j < |logNumbers| ==> logNumbers[i] < logNumbers[j]
    ensures from[first] <= LogEnd(logged, from, i) <= |logged|
    ensures Replay(logs, logNumbers[first], logNumbers[i] + 1) == logged[from[first]..LogEnd(logged, from, i)]
    decreases i
  {
    hide LogFilesOk, LogBatches;
    LogFile(logs, logged, logNumbers, from, first, i);
    if i > first {
      ReplayIsLogged(logs, logged, logNumbers, from, first, i - 1);
      NoLogBetween(logs, logged, logNumbers, from, first, i);
      assert logNumbers[first] <= logNumbers[i - 1];
      ReplayGap(logs, logNumbers[first], logNumbers[i - 1] + 1, logNumbers[i]);
      assert logged[from[first]..from[i]] + logged[from[i]..LogEnd(logged, from, i)] ==
             logged[from[first]..LogEnd(logged, from, i)];
    } else {
      assert Replay(logs, logNumbers[first], logNumbers[first]) == [];
    }
  }

  lemma LogFile(logs: map<nat, seq<seq<Entry>>>, logged: seq<seq<Entry>>, logNumbers: seq<nat>, from: seq<nat>,
                first: nat, i: nat)
    requires LogFilesOk(logs, logged, logNumbers, from, first) && first <= i < |from| && FromAscends(from, |logged|)
    ensures |logNumbers| == |from| && from[i] <= LogEnd(logged, from, i) <= |logged| && logNumbers[i] in logs
    ensures logs[logNumbers[i]] == logged[from[i]..LogEnd(logged, from, i)]
  {
  }

  lemma NoLogBetween(logs: map<nat, seq<seq<Entry>>>, logged: seq<seq<Entry>>, logNumbers: seq<nat>, from: seq<nat>,
                     first: nat, i: nat)
    requires LogFilesOk(logs, logged, logNumbers, from, first) && first < i < |from|
    requires forall i, j :: 0 <= i < j < |logNumbers| ==> logNumbers[i] < logNumbers[j]
    ensures forall n :: logNumbers[i - 1] < n < logNumbers[i] ==> n !in logs
  {
    hide LogBatches;
    forall n | logNumbers[i - 1] < n < logNumbers[i] ensures n !in logs {
      if n in logs {
        assert logNumbers[first] <= logNumbers[i - 1];
        var j :| first <= j < |from| && logNumbers[j] == n;
      }
    }
  }

  lemma CutBatches(logged: seq<seq<Entry>>, from: seq<nat>, i: nat, c: nat)
    requires i < |from| && FromAscends(from, |logged|) && from[|from| - 1] <= c <= |logged|
    ensures LogBatches(logged[..c], from, i) ==
            if i == |from| - 1 then LogBatches(logged, from, i)[..c - from[i]] else LogBatches(logged, from, i)
  {
  }

  lemma CutLastLog(logs: map<nat, seq<seq<Entry>>>, logged: seq<seq<Entry>>, logNumbers: seq<nat>, from: seq<nat>,
                   first: nat, cut: nat)
    requires LogFilesOk(logs, logged, logNumbers, from, first) && FromAscends(from, |logged|)
    requires forall i, j :: 0 <= i < j < |logNumbers| ==> logNumbers[i] < logNumbers[j]
    requires cut <= |logs[logNumbers[|logNumbers| - 1]]|
    ensures var n := logNumbers[|logNumbers| - 1];
            && |logs[n]| == |logged| - from[|from| - 1] && |logged| - (|logs[n]| - cut) >= from[|from| - 1]
            && LogFilesOk(logs[n := logs[n][..cut]], logged[..|logged| - (|logs[n]| - cut)], logNumbers, from, first)
  {
    hide LogBatches;
    var top := |from| - 1;
    var n, c := logNumbers[top], from[top] + cut;
    LogFile(logs, logged, logNumbers, from, first, top);
    forall i | first <= i < |from|
      ensures LogBatches(logged[..c], from, i) == if i == top then logs[n][..cut] else LogBatches(logged, from, i)
      ensures i < top ==> logNumbers[i] != n
    {
      CutBatches(logged, from, i, c);
    }
  }

  lemma ReplayCut(logs: map<nat, seq<seq<Entry>>>, logged: seq<seq<Entry>>, logNumbers: seq<nat>, from: seq<nat>,
                  first: nat, cut: nat, number: nat)
    requires first < |from| == |logNumbers|
    requires LogFilesOk(logs, logged, logNumbers, from, first) && FromAscends(from, |logged|)
    requires forall i, j :: 0 <= i < j < |logNumbers| ==> logNumbers[i] < logNumbers[j]
    requires cut <= |logs[logNumbers[|logNumbers| - 1]]| && forall n :: n in logs ==> n < number
    ensures var n := logNumbers[|logNumbers| - 1];
            var c := |logged| - (|logs[n]| - cut);
            && from[first] <= c <= |logged|
            && Replay(logs[n := logs[n][..cut]], logNumbers[first], number) == logged[from[first]..c]
  {
    hide LogFilesOk;
    var n := logNumbers[|logNumbers| - 1];
    LogFile(logs, logged, logNumbers, from, first, |from| - 1);
    CutLastLog(logs, logged, logNumbers, from, first, cut);
    var logs', logged' := logs[n := logs[n][..cut]], logged[..|logged| - (|logs[n]| - cut)];
    LogFileBound(logs, logged, logNumbers, from, first, number);
    LogFileGap(logs', logged', logNumbers, from, first);
    ReplayIsLogged(logs', logged', logNumbers, from, first, |from| - 1);
    ReplayGap(logs', logNumbers[first], n + 1, number);
  }

  /** After a crash, replay yields exactly what was logged since the manifest's log, cut short by
      what the newest log lost. */
  lemma RecoveredBatches(lt: Order, e: Engine, cut: nat, number: nat)
    requires Inv(lt, e) && e.logfileNumber in e.disk.logs && cut <= |e.disk.logs[e.logfileNumber]|
    requires forall n :: n in e.disk.logs ==> n < number
    ensures var first, c := e.disk.manifest.first, |e.logged| - (|e.disk.logs[e.logfileNumber]| - cut);
            && first < |e.from| && e.from[first] <= c <= |e.logged| && e.from[first] <= |e.store.groups|
            && Recovered(e, cut, number) == e.logged[e.from[first]..c]
  {
    hide S.Inv, Enabled, Do, TablesOk, PendingOk, ManifestOk, LogFilesOk, Ascending, InOrder, Replay;
    ManifestLog(lt, e);
    LoggedLength(e);
    LaterOldest(e.disk.logs, e.logged, e.logNumbers, e.from, OldestLive(e.store), e.disk.manifest.first);
    ReplayCut(e.disk.logs, e.logged, e.logNumbers, e.from, e.disk.manifest.first, cut, number);
  }

  lemma LogFileBound(logs: map<nat, seq<seq<Entry>>>, logged: seq<seq<Entry>>, logNumbers: seq<nat>, from: seq<nat>,
                     first: nat, number: nat)
    requires LogFilesOk(logs, logged, logNumbers, from, first) && forall n :: n in logs ==> n < number
    ensures logNumbers[|logNumbers| - 1] < number
  {
    hide LogBatches;
    assert logNumbers[|from| - 1] in logs;
  }

  lemma LogFileGap(logs: map<nat, seq<seq<Entry>>>, logged: seq<seq<Entry>>, logNumbers: seq<nat>, from: seq<nat>,
                   first: nat)
    requires LogFilesOk(logs, logged, logNumbers, from, first)
    requires forall i, j :: 0 <= i < j < |logNumbers| ==> logNumbers[i] < logNumbers[j]
    ensures logNumbers[first] <= logNumbers[|logNumbers| - 1]
    ensures forall n :: n > logNumbers[|logNumbers| - 1] ==> n !in logs
  {
    hide LogBatches;
  }

  /** The manifest's log number is that of the first memtable its version does not cover. */
  lemma ManifestLog(lt: Order, e: Engine)
    requires Inv(lt, e)
    ensures var m := e.disk.manifest;
            OldestLive(e.store) <= m.first < |e.store.starts| && m.logNumber == e.logNumbers[m.first]
  {
    hide S.Inv, Enabled, Do, TablesOk, PendingOk, DistinctNumbers, OnDisk, LogFilesOk, LoggedOk, FromOk;
    if e.commit.Some? {
      BackgroundFields(lt, e.store, e.commit.value.step);
    }
  }

  /** The manifest's version stands for everything written before its first log. */
  lemma ManifestVersion(lt: Order, e: Engine)
    requires TotalOrder(lt) && Inv(lt, e)
    ensures var m := e.disk.manifest;
            && m.first < |e.store.starts|
             && VersionOk(m.version, UpTo(e.store.history, e.store.starts[m.first]), m.floor)
            && BoundsOk(m, e.store, e.nextFile)
  {
    hide Enabled, Do, TablesOk, PendingOk, DistinctNumbers, OnDisk, LogFilesOk, LoggedOk, FromOk;
    hide VersionOk, SnapshotsOk, MergeOk, ReadersOk, AtomicOk, HistoryOk, MemtablesOk, SequenceOk;
    if e.commit.Some? {
      BackgroundFields(lt, e.store, e.commit.value.step);
      S.StepKeeps(lt, e.store, e.commit.value.step);
    }
  }

  lemma {:induction false} TopSequenceBounds(batches: seq<seq<Entry>>, start: nat)
    requires forall g :: g in batches ==> InOrder(g)
    ensures TopSequence(batches, start) >= start
    ensures forall x :: x in EntriesIn(batches) ==> x.seqno <= TopSequence(batches, start)
    ensures TopSequence(batches, start) == start ||
            exists x :: x in EntriesIn(batches) && x.seqno == TopSequence(batches, start)
  {
    if batches != [] {
      var init, g := batches[..|batches| - 1], batches[|batches| - 1];
      assert batches == init + [g] && g in batches;
      TopSequenceBounds(init, start);
      EntriesInAppend(init, g);
      if g != [] {
        assert g[|g| - 1] in g;
        assert forall x :: x in g ==> x.seqno <= g[|g| - 1].seqno;
      }
    }
  }

  lemma SplitEntries(a: seq<seq<Entry>>, b: seq<seq<Entry>>)
    ensures EntriesIn(a + b) == EntriesIn(a) + EntriesIn(b)
  {
    forall x ensures x in EntriesIn(a + b) <==> x in EntriesIn(a) || x in EntriesIn(b) {
      if x in EntriesIn(a) {
        var g :| g in a && x in g;
        assert g in a + b;
      }
      if x in EntriesIn(b) {
        var g :| g in b && x in g;
        assert g in a + b;
      }
    }
  }

  lemma AscendingEntries(logged: seq<seq<Entry>>)
    requires Ascending(logged) && forall g :: g in logged ==> InOrder(g)
    ensures forall a, b :: a in EntriesIn(logged) && b in EntriesIn(logged) && a.seqno == b.seqno ==> a == b
  {
    forall a, b | a in EntriesIn(logged) && b in EntriesIn(logged) && a.seqno == b.seqno ensures a == b {
      var i :| 0 <= i < |logged| && a in logged[i];
      var j :| 0 <= j < |logged| && b in logged[j];
      if i == j {
        var g := logged[i];
        assert g in logged;
        var m :| 0 <= m < |g| && g[m] == a;
        var n :| 0 <= n < |g| && g[n] == b;
        assert m == n;
      }
    }
  }

  lemma PrefixAscends(logged: seq<seq<Entry>>, c: nat)
    requires c <= |logged| && Ascending(logged) && forall g :: g in logged ==> InOrder(g)
    ensures Ascending(logged[..c]) && forall g :: g in logged[..c] ==> InOrder(g)
  {
    hide InOrder;
    forall i, j, a: Entry, b: Entry | 0 <= i < j < c && a in logged[..c][i] && b in logged[..c][j]
      ensures a.seqno < b.seqno
    {
      assert a in logged[i] && b in logged[j];
    }
  }

  lemma LaterBatchesNewer(logged: seq<seq<Entry>>, m: nat, c: nat)
    requires m <= c <= |logged| && Ascending(logged)
    ensures Newer(EntriesIn(logged[m..c]), EntriesIn(logged[..m]))
  {
    forall x, y | x in EntriesIn(logged[m..c]) && y in EntriesIn(logged[..m]) && x.key == y.key
      ensures x.seqno > y.seqno
    {
      var j :| 0 <= j < c - m && x in logged[m..c][j];
      var i :| 0 <= i < m && y in logged[..m][i];
      assert y in logged[i] && x in logged[m + j];
    }
  }

  /** The version recovery installs stands for everything that survived. */
  lemma RecoveredVersion(m: Manifest, tables: seq<Table>, logged: seq<seq<Entry>>, mid: nat, c: nat)
    requires mid <= c <= |logged| && Ascending(logged) && (forall g :: g in logged ==> InOrder(g))
    requires VersionOk(m.version, EntriesIn(logged[..mid]), m.floor)
    requires RecoveredTables(tables, logged[mid..c], m.nextFile) && forall t :: t in m.version ==> t.number < m.nextFile
    ensures VersionOk(m.version + (set t | t in tables), EntriesIn(logged[..c]), m.floor)
  {
    hide SameFrom, InOrder, Ascending;
    var past, found, added := EntriesIn(logged[..mid]), EntriesIn(logged[mid..c]), (set t | t in tables);
    assert logged[..mid] + logged[mid..c] == logged[..c];
    SplitEntries(logged[..mid], logged[mid..c]);
    LaterBatchesNewer(logged, mid, c);
    PrefixAscends(logged, c);
    AscendingEntries(logged[..c]);
    assert found + past == EntriesIn(logged[..c]);
    UniqueIsDistinct(EntriesIn(logged[..c]), found + past);
    UniqueIsDistinct(EntriesIn(logged[..c]), found + AllOf(m.version));
    SameUnder(m.floor, found, AllOf(m.version), past);
    RecoveredOrder(m, tables, found, past);
    assert AllOf(m.version + added) == found + AllOf(m.version);
  }

  lemma RecoveredOrder(m: Manifest, tables: seq<Table>, found: set<Entry>, past: set<Entry>)
    requires LevelOrder(m.version) && AllOf(m.version) <= past && Newer(found, past)
    requires forall t :: t in m.version ==> t.number < m.nextFile
    requires forall i :: 0 <= i < |tables| ==> tables[i].level == 0 && tables[i].number >= m.nextFile
    requires forall i, j :: 0 <= i < j < |tables| ==>
               tables[i].number < tables[j].number && Newer(tables[j].es, tables[i].es)
    requires AllOf(set t | t in tables) == found
    ensures LevelOrder(m.version + (set t | t in tables))
  {
    var added := set t | t in tables;
    forall a, b | a in m.version + added && b in m.version + added && SearchedBefore(a, b) ensures Newer(a.es, b.es) {
      if a in added && b in m.version {
        assert a.es <= found && b.es <= AllOf(m.version);
      } else if a in added {
        var i :| 0 <= i < |tables| && tables[i] == a;
        var j :| 0 <= j < |tables| && tables[j] == b;
      }
    }
  }

  /** The reopened store satisfies the invariant of `Store`. */
  lemma ReopenedStore(m: Manifest, version: Version, survivors: seq<seq<Entry>>, top: nat)
    requires VersionOk(version, EntriesIn(survivors), m.floor) && m.floor <= top < MAX_SEQUENCE_NUMBER
    requires Ascending(survivors) && forall g :: g in survivors ==> InOrder(g)
    requires forall x :: x in EntriesIn(survivors) ==> x.seqno <= top
    ensures S.Inv(Store(top, [{}], false, version, [], None, None, map[], EntriesIn(survivors),
                        [top], survivors, m.floor))
  {
    hide VersionOk, InOrder, Ascending;
    var history := EntriesIn(survivors);
    AscendingEntries(survivors);
    assert UpTo(history, top) == history;
    assert Slice(history, [top], 0) == {};
    forall g: seq<Entry>, i | g in survivors && 0 <= i < |g| ensures g[i].seqno <= top {
      assert g[i] in g;
    }
  }

  lemma {:induction false} ContentsHold(tables: seq<Table>, n: nat)
    requires forall i, j :: 0 <= i < j < |tables| ==> tables[i].number < tables[j].number
    ensures forall i :: 0 <= i < |tables| ==>
              tables[i].number in Contents(tables) && Contents(tables)[tables[i].number] == tables[i].es
    ensures (forall i :: 0 <= i < |tables| ==> tables[i].number >= n) ==> forall k :: k in Contents(tables) ==> k >= n
  {
    if tables != [] {
      ContentsHold(tables[..|tables| - 1], n);
    }
  }

  /** Everything the recovered version refers to is on disk. */
  lemma RecoveredOnDisk(before: map<nat, set<Entry>>, m: Manifest, tables: seq<Table>, leftovers: map<nat, set<Entry>>)
    requires OnDisk(before, m.version) && forall t :: t in m.version ==> t.number < m.nextFile
    requires forall n :: n in leftovers ==> n >= m.nextFile
    requires forall i :: 0 <= i < |tables| ==> tables[i].number >= m.nextFile
    requires forall i, j :: 0 <= i < j < |tables| ==> tables[i].number < tables[j].number
    ensures OnDisk(before + leftovers + Contents(tables), m.version + (set t | t in tables))
  {
    ContentsHold(tables, m.nextFile);
  }

  lemma ReopenedFiles(lt: Order, e': Engine, number: nat)
    requires Shaped(e'.store) && e'.store.readers == map[] && e'.store.merge == None && |e'.store.starts| == 1
    requires !e'.store.immutable && e'.store.group == None
    requires e'.logNumber == e'.logfileNumber == number && e'.nextFile == number + 1 && e'.logNumbers == [number]
    requires e'.pending == {} && e'.building == None && e'.output == None && e'.outputs == {} && e'.commit == None
    requires e'.disk.manifest ==
             Manifest(e'.store.version, number, e'.store.lastSequence, number + 1, e'.store.floor, 0)
    requires OnDisk(e'.disk.tables, e'.store.version) && forall t :: t in e'.store.version ==> t.number < number
    requires e'.store.floor <= e'.store.lastSequence && e'.store.starts[0] <= e'.store.lastSequence
    ensures TablesOk(e') && PendingOk(e') && ManifestOk(lt, e')
    ensures LogNumbersOk(e'.logNumbers, e'.logfileNumber, e'.nextFile)
  {
    hide OnDisk;
    NothingHeld(e'.disk.tables);
    assert ReaderNumbers(e'.store.readers) == {};
  }

  lemma ReopenedLogs(logs: map<nat, seq<seq<Entry>>>, survivors: seq<seq<Entry>>, number: nat, top: nat)
    requires (forall n :: n in logs ==> n < number) && forall x :: x in EntriesIn(survivors) ==> x.seqno <= top
    requires Ascending(survivors) && forall g :: g in survivors ==> InOrder(g)
    ensures LogFilesOk(logs[number := []], survivors, [number], [|survivors|], 0)
    ensures FromOk([|survivors|], [top], survivors, EntriesIn(survivors))
    ensures LoggedOk(survivors, survivors, None, top, false)
  {
    hide Ascending, InOrder;
    assert survivors[..|survivors|] == survivors;
    assert UpTo(EntriesIn(survivors), top) == EntriesIn(survivors);
    assert LogBatches(survivors, [|survivors|], 0) == [];
  }

  /** What each log leaves out is what was flushed before it. */
  lemma BeforeFirst(e: Engine, first: nat)
    requires LoggedOk(e.logged, e.store.groups, e.store.group, e.store.lastSequence, e.bgError)
    requires FromOk(e.from, e.store.starts, e.store.groups, e.store.history) && first < |e.from|
    ensures e.from[first] <= |e.logged|
    ensures UpTo(e.store.history, e.store.starts[first]) == EntriesIn(e.logged[..e.from[first]])
  {
    hide Ascending, InOrder;
    assert e.logged[..e.from[first]] == e.logged[..|e.store.groups|][..e.from[first]];
  }

  lemma ReopenKeeps(lt: Order, e: Engine, d: Durable, number: nat, top: nat, tables: seq<Table>,
                    leftovers: map<nat, set<Entry>>, survivors: seq<seq<Entry>>)
    requires var m := d.manifest;
             var version := m.version + (set t | t in tables);
             && VersionOk(version, EntriesIn(survivors), m.floor) && m.floor <= top < MAX_SEQUENCE_NUMBER
             && (forall x :: x in EntriesIn(survivors) ==> x.seqno <= top)
             && OnDisk(d.tables + leftovers + Contents(tables), version)
             && forall t :: t in version ==> t.number < number
    requires Ascending(survivors) && (forall g :: g in survivors ==> InOrder(g))
    requires forall n :: n in d.logs ==> n < number
    ensures Inv(lt, Reopened(e, d, number, top, tables, leftovers, survivors))
  {
    hide S.Inv, LogFilesOk, FromOk, ManifestOk, PendingOk, TablesOk, OnDisk, VersionOk, Ascending, InOrder;
    hide Replay, TopSequence;
    hide InUse, LogNumbersOk, LoggedOk;
    var e' := Reopened(e, d, number, top, tables, leftovers, survivors);
    ReopenedStore(d.manifest, e'.store.version, survivors, e'.store.lastSequence);
    ReopenedFiles(lt, e', number);
    ReopenedLogs(d.logs, survivors, number, e'.store.lastSequence);
  }

  /** A crash at any point, with the newest log cut anywhere, reopens to a consistent engine. */
  lemma CrashKeeps(lt: Order, e: Engine, cut: nat, number: nat, top: nat, tables: seq<Table>,
                   leftovers: map<nat, set<Entry>>)
    requires TotalOrder(lt) && Inv(lt, e) && Allowed(lt, e, CrashAndRecover(cut, number, top, tables, leftovers))
    ensures Inv(lt, Act(lt, e, CrashAndRecover(cut, number, top, tables, leftovers)))
  {
    hide S.Inv, Enabled, Do, LogFilesOk, FromOk, ManifestOk, PendingOk, OnDisk, VersionOk, Ascending, InOrder, Inv;
    hide InUse, LogNumbersOk, Newer, Replay, TopSequence, LoggedOk;
    var m, c := e.disk.manifest, |e.logged| - (|e.disk.logs[e.logfileNumber]| - cut);
    InvParts(lt, e);
    RecoveredBatches(lt, e, cut, number);
    ManifestVersion(lt, e);
    BeforeFirst(e, m.first);
    RecoveredVersion(m, tables, e.logged, e.from[m.first], c);
    PrefixAscends(e.logged, c);
    SurvivorsBelowTop(e.logged, e.from[m.first], c, m.lastSequence, e.store.history, e.store.starts[m.first]);
    RecoveredOnDisk(e.disk.tables, m, tables, leftovers);
    ReopenKeeps(lt, e, AfterCrash(e.disk, e.logfileNumber, cut), number, top, tables, leftovers, e.logged[..c]);
  }

  lemma InvParts(lt: Order, e: Engine)
    requires Inv(lt, e)
    ensures Shaped(e.store) && S.Inv(e.store) && TablesOk(e)
    ensures LoggedOk(e.logged, e.store.groups, e.store.group, e.store.lastSequence, e.bgError)
    ensures Ascending(e.logged) && forall g :: g in e.logged ==> InOrder(g)
    ensures FromOk(e.from, e.store.starts, e.store.groups, e.store.history)
  {
  }

  /** The recovered `lastSequence` is at least every surviving sequence number, and still in range. */
  lemma SurvivorsBelowTop(logged: seq<seq<Entry>>, mid: nat, c: nat, last: nat, history: set<Entry>, start: nat)
    requires mid <= c <= |logged| && Ascending(logged) && (forall g :: g in logged ==> InOrder(g))
    requires UpTo(history, start) == EntriesIn(logged[..mid]) && start <= last
    ensures var top := TopSequence(logged[mid..c], last);
            last <= top && forall x :: x in EntriesIn(logged[..c]) ==> x.seqno <= top
  {
    hide InOrder, Ascending;
    TopSequenceBounds(logged[mid..c], last);
    assert logged[..mid] + logged[mid..c] == logged[..c];
    SplitEntries(logged[..mid], logged[mid..c]);
  }

  // ----- Every run, crashes included -----

  lemma EmptyInv(lt: Order)
    ensures Inv(lt, Initial())
  {
    hide S.Inv, TablesOk, PendingOk, ManifestOk, LogFilesOk, FromOk, LoggedOk, OnDisk;
    S.InitialInv();
    NothingHeld(map[]);
    ReopenedFiles(lt, Initial(), 1);
    ReopenedLogs(map[], [], 1, 0);
    assert EntriesIn([]) == {};
  }

  lemma EventKeeps(lt: Order, e: Engine, event: Event)
    requires TotalOrder(lt) && Inv(lt, e) && Allowed(lt, e, event)
    ensures Inv(lt, Act(lt, e, event))
  {
    hide Inv, Allowed, Act;
    match event
    case Foreground(step) => ForegroundKeeps(lt, e, step);
    case AppendRecord => AppendKeeps(lt, e);
    case AppendFails => FailKeeps(lt, e, event);
    case SyncFails => FailKeeps(lt, e, event);
    case SwitchLog => SwitchKeeps(lt, e);
    case StartFlush => AllocationKeeps(lt, e, event);
    case BuildTable => BuildTableKeeps(lt, e);
    case CommitFlush(to) => CommitFlushKeeps(lt, e, to);
    case FlushFails => FlushFailsKeeps(lt, e);
    case StartMerge(level, inputs, based) => StartMergeKeeps(lt, e, level, inputs, based);
    case OpenOutput => AllocationKeeps(lt, e, event);
    case FinishOutput(es) => FinishOutputKeeps(lt, e, es);
    case CommitMerge(items) => CommitMergeKeeps(lt, e, items);
    case MergeFails => MergeFailsKeeps(lt, e);
    case CommitMove(t) => CommitMoveKeeps(lt, e, t);
    case WriteManifest => ManifestWrittenKeeps(lt, e, event);
    case ManifestFails(_) => ManifestWrittenKeeps(lt, e, event);
    case Install => InstallKeeps(lt, e);
    case DeleteObsoleteFiles => DeleteKeeps(lt, e);
    case CrashAndRecover(cut, number, top, tables, leftovers) => CrashKeeps(lt, e, cut, number, top, tables, leftovers);
  }

  /** A run from an empty database, with any number of crashes in it. */
  ghost predicate IsRun(lt: Order, es: seq<Engine>, events: seq<Event>) {
    && |es| == |events| + 1 && es[0] == Initial()
    && forall i {:trigger events[i]} :: 0 <= i < |events| ==>
         Shaped(es[i].store) && Allowed(lt, es[i], events[i]) && es[i + 1] == Act(lt, es[i], events[i])
  }

  lemma {:induction false} RunKeeps(lt: Order, es: seq<Engine>, events: seq<Event>, i: nat)
    requires TotalOrder(lt) && IsRun(lt, es, events) && i < |es|
    ensures Inv(lt, es[i])
  {
    hide Inv, Allowed, Act;
    if i == 0 {
      EmptyInv(lt);
    } else {
      RunKeeps(lt, es, events, i - 1);
      assert events[i - 1] == events[i - 1];
      EventKeeps(lt, es[i - 1], events[i - 1]);
    }
  }

  /** The batches known to the survivors of a crash. */
  function Survivors(e: Engine, cut: nat): nat
    requires e.logfileNumber in e.disk.logs && cut <= |e.disk.logs[e.logfileNumber]| <= |e.logged|
  {
    |e.logged| - (|e.disk.logs[e.logfileNumber]| - cut)
  }

  /** A store whose groups are exactly `survivors`, and whose tables alone read like them. */
  ghost predicate HoldsExactly(st: Store, survivors: seq<seq<Entry>>) {
    && st.groups == survivors
    && (forall x :: x in EntriesIn(survivors) ==> x.seqno <= st.lastSequence)
    && forall k :: Read(AllOf(st.version), k, st.lastSequence) == Read(EntriesIn(survivors), k, st.lastSequence)
  }

  /** Crash recovery: at any point of any run, whatever the newest log loses beyond its first `cut`
      records, the database comes back as the groups logged before that point and nothing else. What
      was logged is the completed groups in order, and at most one group never acknowledged. */
  lemma RecoveryIsPrefix(lt: Order, es: seq<Engine>, events: seq<Event>, i: nat, cut: nat)
    requires TotalOrder(lt) && IsRun(lt, es, events) && i < |events|
    requires events[i].CrashAndRecover? && events[i].cut == cut
    ensures Shaped(es[i].store) && Allowed(lt, es[i], events[i])
    ensures es[i].store.groups <= es[i].logged && |es[i].logged| <= |es[i].store.groups| + 1
    ensures HoldsExactly(es[i + 1].store, es[i].logged[..Survivors(es[i], cut)])
    ensures cut == |es[i].disk.logs[es[i].logfileNumber]| ==> es[i].store.groups <= es[i + 1].store.groups
    ensures es[i].disk.manifest.lastSequence <= es[i + 1].store.lastSequence
  {
    hide Inv, Allowed, Act, HoldsExactly;
    assert events[i] == events[i];
    RunKeeps(lt, es, events, i);
    RunKeeps(lt, es, events, i + 1);
    CrashAllowed(lt, es[i], events[i]);
    LoggedBounds(lt, es[i]);
    ReopenedFields(lt, es[i], events[i], es[i + 1]);
    RecoveredReads(lt, es[i + 1], es[i].logged[..Survivors(es[i], cut)]);
    RecoveredTop(lt, es[i], events[i]);
  }

  lemma CrashAllowed(lt: Order, e: Engine, event: Event)
    requires Shaped(e.store) && Allowed(lt, e, event) && event.CrashAndRecover?
    ensures e.logfileNumber in e.disk.logs && event.cut <= |e.disk.logs[e.logfileNumber]| <= |e.logged|
  {
    hide RecoveredTables, Recovered, TopSequence;
  }

  lemma LoggedBounds(lt: Order, e: Engine)
    requires Inv(lt, e)
    ensures e.store.groups <= e.logged && |e.logged| <= |e.store.groups| + 1
  {
    hide S.Inv, FromOk, LogFilesOk, TablesOk, PendingOk, ManifestOk, Ascending, InOrder;
  }

  lemma ReopenedFields(lt: Order, e: Engine, event: Event, e': Engine)
    requires Shaped(e.store) && Allowed(lt, e, event) && event.CrashAndRecover?
    requires e' == Act(lt, e, event)
    ensures e.logfileNumber in e.disk.logs && event.cut <= |e.disk.logs[e.logfileNumber]| <= |e.logged|
    ensures e'.store.memtables == [{}] && e'.store.group == None
    ensures e'.store.groups == e.logged[..Survivors(e, event.cut)]
    ensures e'.store.history == EntriesIn(e.logged[..Survivors(e, event.cut)])
  {
    hide RecoveredTables, Recovered, TopSequence;
  }

  lemma RecoveredReads(lt: Order, e: Engine, survivors: seq<seq<Entry>>)
    requires Inv(lt, e) && e.store.memtables == [{}] && e.store.group == None
    requires e.store.groups == survivors && e.store.history == EntriesIn(survivors)
    ensures HoldsExactly(e.store, survivors)
  {
    hide FromOk, LogFilesOk, TablesOk, PendingOk, ManifestOk, LoggedOk;
    StoreReads(e.store);
  }

  /** A store with empty memtables reads from its tables what its history says. */
  lemma StoreReads(st: Store)
    requires S.Inv(st) && st.memtables == [{}] && st.group == None
    ensures forall x :: x in st.history ==> x.seqno <= st.lastSequence
    ensures forall k :: Read(AllOf(st.version), k, st.lastSequence) == Read(st.history, k, st.lastSequence)
  {
    hide VersionOk, SnapshotsOk, MergeOk, ReadersOk, AtomicOk, MemtablesOk;
    assert Live(st) == {};
    assert AllOf(st.version) + Live(st) == AllOf(st.version);
    forall k ensures Read(AllOf(st.version), k, st.lastSequence) == Read(st.history, k, st.lastSequence) {
      S.CurrentReads(st, k, st.lastSequence);
    }
  }

  lemma RecoveredTop(lt: Order, e: Engine, event: Event)
    requires Inv(lt, e) && Allowed(lt, e, event) && event.CrashAndRecover?
    ensures e.disk.manifest.lastSequence <= Act(lt, e, event).store.lastSequence
  {
    hide S.Inv, Enabled, Do, FromOk, ManifestOk, PendingOk, TablesOk, OnDisk, LogFilesOk, Ascending, InOrder, Replay;
    InvParts(lt, e);
    RecoveredBatches(lt, e, event.cut, event.number);
    TopSequenceBounds(Recovered(e, event.cut, event.number), e.disk.manifest.lastSequence);
  }

  /** Recovery is never stuck: in any run without a failed append, wherever the newest log is cut, there
      are level-0 tables and a last sequence number for `Open` to go on with. */
  lemma RecoveryPossible(lt: Order, es: seq<Engine>, events: seq<Event>, i: nat, cut: nat) returns (event: Event)
    requires TotalOrder(lt) && IsRun(lt, es, events) && i < |es| && !es[i].damaged
    requires es[i].logfileNumber in es[i].disk.logs && cut <= |es[i].disk.logs[es[i].logfileNumber]|
    requires HighestSequence(es[i].store) < MAX_SEQUENCE_NUMBER
    ensures event.CrashAndRecover? && event.cut == cut && Shaped(es[i].store) && Allowed(lt, es[i], event)
  {
    hide Inv, Allowed, Act;
    RunKeeps(lt, es, events, i);
    event := RecoveryFor(lt, es[i], cut);
  }

  /** The highest sequence number handed out, to the group being applied included. */
  function HighestSequence(st: Store): nat {
    st.lastSequence + if st.group.Some? then |st.group.value.es| else 0
  }

  lemma RecoveryFor(lt: Order, e: Engine, cut: nat) returns (event: Event)
    requires Inv(lt, e) && !e.damaged && e.logfileNumber in e.disk.logs && cut <= |e.disk.logs[e.logfileNumber]|
    requires HighestSequence(e.store) < MAX_SEQUENCE_NUMBER
    ensures event.CrashAndRecover? && event.cut == cut && Shaped(e.store) && Allowed(lt, e, event)
  {
    hide S.Inv, Enabled, Do, FromOk, PendingOk, TablesOk, OnDisk, LogFilesOk, Ascending, InOrder, Replay;
    hide TopSequence, VersionOk;
    LogAvailable(lt, e);
    LogsBelowNextFile(lt, e);
    var m, number := e.disk.manifest, e.nextFile + 1;
    RecoveredBatches(lt, e, cut, number);
    var batches := Recovered(e, cut, number);
    TopSequenceBounds(batches, m.lastSequence);
    assert forall x :: x in EntriesIn(batches) ==> x in EntriesIn(e.logged);
    var table := Table(m.nextFile, 0, EntriesIn(batches));
    assert (set t | t in [table]) == {table};
    event := CrashAndRecover(cut, number, TopSequence(batches, m.lastSequence), [table], map[]);
  }

  lemma LogsBelowNextFile(lt: Order, e: Engine)
    requires Inv(lt, e)
    ensures e.disk.manifest.nextFile <= e.nextFile && e.disk.manifest.lastSequence <= e.store.lastSequence
    ensures forall n :: n in e.disk.logs ==> n < e.nextFile
    ensures forall g :: g in e.logged ==> InOrder(g)
  {
    hide S.Inv, Enabled, Do, FromOk, PendingOk, TablesOk, OnDisk, Ascending, InOrder, LogBatches;
  }

  // ----- Files -----

  ghost predicate InLog(e: Engine, n: nat, x: Entry) {
    n in e.disk.logs && exists g :: g in e.disk.logs[n] && x in g
  }

  /** Nothing a memtable holds is only there: its log is still on disk, numbered at or above the
      installed log number. */
  lemma MemtablesAreLogged(lt: Order, es: seq<Engine>, events: seq<Event>, i: nat, x: Entry)
    requires TotalOrder(lt) && IsRun(lt, es, events) && i < |es|
    ensures Shaped(es[i].store)
    ensures x in Live(es[i].store) ==> exists n :: n >= es[i].logNumber && InLog(es[i], n, x)
  {
    hide Inv, Allowed, Act;
    RunKeeps(lt, es, events, i);
    InvParts(lt, es[i]);
    if x in Live(es[i].store) {
      LiveIsLogged(lt, es[i], x);
    }
  }

  lemma LiveIsLogged(lt: Order, e: Engine, x: Entry)
    requires Inv(lt, e) && x in Live(e.store)
    ensures exists n :: n >= e.logNumber && InLog(e, n, x)
  {
    hide S.Inv, TablesOk, PendingOk, ManifestOk, Ascending, InOrder, LogBatches;
    var o := OldestLive(e.store);
    LiveHistory(e.store);
    LoggedLength(e);
    BeforeFirst(e, o);
    LoggedHistory(e);
    var j :| 0 <= j < |e.logged| && x in e.logged[j];
    InPrefix(e.logged, e.from[o], j, x);
    var i := LogOf(e.logged, e.from, o, j);
    LogFile(e.disk.logs, e.logged, e.logNumbers, e.from, o, i);
    var g := e.disk.logs[e.logNumbers[i]];
    assert g[j - e.from[i]] == e.logged[j];
    assert InLog(e, e.logNumbers[i], x);
  }

  lemma InPrefix(logged: seq<seq<Entry>>, m: nat, j: nat, x: Entry)
    requires m <= |logged| && j < |logged| && x in logged[j]
    ensures j < m ==> x in EntriesIn(logged[..m])
  {
    if j < m {
      assert logged[..m][j] in logged[..m];
    }
  }

  lemma LiveHistory(st: Store)
    requires S.Inv(st)
    ensures Live(st) == set x | x in st.history && x.seqno > st.starts[OldestLive(st)]
  {
    hide VersionOk, SnapshotsOk, MergeOk, ReadersOk, AtomicOk, HistoryOk, SequenceOk;
    S.LiveIsRest(st);
  }

  /** Everything inserted has its batch in `logged`. */
  lemma LoggedHistory(e: Engine)
    requires S.Inv(e.store) && LoggedOk(e.logged, e.store.groups, e.store.group, e.store.lastSequence, e.bgError)
    ensures forall x :: x in e.store.history ==> exists j :: 0 <= j < |e.logged| && x in e.logged[j]
  {
    hide VersionOk, SnapshotsOk, MergeOk, ReadersOk, AtomicOk, MemtablesOk, Ascending, InOrder;
    var n := |e.store.groups|;
    forall x | x in e.store.history ensures exists j :: 0 <= j < |e.logged| && x in e.logged[j] {
      if x in EntriesIn(e.store.groups) {
        var j :| 0 <= j < n && x in e.store.groups[j];
        assert e.logged[j] == e.logged[..n][j];
      } else {
        assert x in e.logged[n];
      }
    }
  }

  lemma {:induction false} LogOf(logged: seq<seq<Entry>>, from: seq<nat>, first: nat, j: nat) returns (i: nat)
    requires first < |from| && FromAscends(from, |logged|) && from[first] <= j < |logged|
    ensures first <= i < |from| && from[i] <= j < LogEnd(logged, from, i)
    decreases |from| - first
  {
    if first + 1 < |from| && from[first + 1] <= j {
      i := LogOf(logged, from, first + 1, j);
    } else {
      i := first;
    }
  }

  /** No table anything refers to is ever deleted: not the current version's, not one a reader still
      holds, not a running compaction's inputs or finished outputs, and not the manifest's. */
  lemma NeededTablesExist(lt: Order, es: seq<Engine>, events: seq<Event>, i: nat)
    requires TotalOrder(lt) && IsRun(lt, es, events) && i < |es|
    ensures var e := es[i];
            && OnDisk(e.disk.tables, e.store.version) && OnDisk(e.disk.tables, e.outputs)
            && OnDisk(e.disk.tables, e.disk.manifest.version)
            && (forall id :: id in e.store.readers ==> OnDisk(e.disk.tables, e.store.readers[id].version))
            && (e.store.merge.Some? ==> OnDisk(e.disk.tables, e.store.merge.value.inputs))
  {
    hide Inv, Allowed, Act;
    RunKeeps(lt, es, events, i);
    InputsOnDisk(lt, es[i]);
  }

  lemma InputsOnDisk(lt: Order, e: Engine)
    requires Inv(lt, e)
    ensures TablesOk(e) && (e.store.merge.Some? ==> OnDisk(e.disk.tables, e.store.merge.value.inputs))
  {
    hide VersionOk, SnapshotsOk, ReadersOk, AtomicOk, HistoryOk, SequenceOk, MemtablesOk, PendingOk;
    hide ManifestOk, LogFilesOk;
    hide LoggedOk, FromOk, LogNumbersOk;
  }

  /** What the code itself establishes before it commits a flush. */
  ghost predicate FlushReady(e: Engine, to: nat) {
    Shaped(e.store) && e.building.Some? && e.building.value.built &&
    Fits(e.store.version, e.store.memtables[OldestLive(e.store)], to)
  }

  /** What the code itself establishes before it commits a compaction. */
  ghost predicate MergeReady(lt: Order, e: Engine, items: seq<C.Item>) {
    BackgroundFree(e) && e.output == None && e.store.merge.Some? && Merged(lt, items, e.store.merge.value, e.outputs)
  }

  ghost predicate InstallReady(e: Engine) {
    e.commit.Some? && e.commit.value.written && !e.commit.value.failed
  }

  /** Conditions of events that the code never tests, because they always hold. */
  lemma NeverBlocked(lt: Order, es: seq<Engine>, events: seq<Event>, i: nat)
    requires TotalOrder(lt) && IsRun(lt, es, events) && i < |es|
    ensures Shaped(es[i].store) && es[i].logfileNumber in es[i].disk.logs
    ensures |es[i].disk.logs[es[i].logfileNumber]| <= |es[i].logged|
    ensures InstallReady(es[i]) ==> Allowed(lt, es[i], Install)
    ensures forall to :: FlushReady(es[i], to) ==> Allowed(lt, es[i], CommitFlush(to))
    ensures forall items :: MergeReady(lt, es[i], items) ==> Allowed(lt, es[i], CommitMerge(items))
  {
    hide Inv, Allowed, Act;
    RunKeeps(lt, es, events, i);
    LogAvailable(lt, es[i]);
    InstallCondition(lt, es[i]);
    forall to | FlushReady(es[i], to) ensures Allowed(lt, es[i], CommitFlush(to)) {
      FlushCondition(lt, es[i], to);
    }
    forall items | MergeReady(lt, es[i], items) ensures Allowed(lt, es[i], CommitMerge(items)) {
      MergeCondition(lt, es[i], items);
    }
  }

  lemma LogAvailable(lt: Order, e: Engine)
    requires Inv(lt, e)
    ensures Shaped(e.store) && e.logfileNumber in e.disk.logs && |e.disk.logs[e.logfileNumber]| <= |e.logged|
  {
    hide S.Inv, TablesOk, PendingOk, ManifestOk, LoggedOk, LogFilesOk;
    LoggedLength(e);
    LogFile(e.disk.logs, e.logged, e.logNumbers, e.from, OldestLive(e.store), |e.from| - 1);
  }

  lemma InstallCondition(lt: Order, e: Engine)
    requires Inv(lt, e)
    ensures Shaped(e.store) && (InstallReady(e) ==> Allowed(lt, e, Install))
  {
    hide S.Inv, TablesOk, PendingOk, LoggedOk, LogFilesOk, FromOk;
  }

  lemma FlushCondition(lt: Order, e: Engine, to: nat)
    requires Inv(lt, e) && FlushReady(e, to)
    ensures Allowed(lt, e, CommitFlush(to))
  {
    hide S.Inv, TablesOk, ManifestOk, LoggedOk, LogFilesOk, FromOk, Fits, InUse, DistinctNumbers;
  }

  lemma MergeCondition(lt: Order, e: Engine, items: seq<C.Item>)
    requires Inv(lt, e) && MergeReady(lt, e, items)
    ensures Allowed(lt, e, CommitMerge(items))
  {
    hide S.Inv, TablesOk, ManifestOk, LoggedOk, LogFilesOk, FromOk, Merged, InUse;
    assert Numbers(e.store.version - e.store.merge.value.inputs) <= Numbers(e.store.version);
  }
}
