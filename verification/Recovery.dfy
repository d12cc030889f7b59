/** Replaying one log file into memtables and level-0 tables. */
module Recovery {
  import opened Entries
  import opened LogFormat
  import opened LogReader
  import opened LogRoundTrip
  import W = WriteBatch

  /** The result of replaying part of a log: the status, the entries inserted in order, and the
      highest sequence number accounted for. */
  datatype Progress = Progress(ok: bool, entries: seq<Entry>, maxSequence: nat)

  /** What one record does. Too small a record is reported and skipped; a malformed batch ends the
      replay in paranoid mode and is otherwise passed over, with what was read of it kept. */
  function ReplayRecord(record: seq<Byte>, paranoid: bool, s: Progress): Progress {
    if |record| < W.HEADER then s.(ok := !paranoid)
    else
      var applied := W.Apply(record);
      var entries := s.entries + applied.entries;
      if !applied.ok && paranoid then Progress(false, entries, s.maxSequence)
      else
        Progress(true, entries, if LastSequence(record) > s.maxSequence then LastSequence(record) else s.maxSequence)
  }

  /** Sequence plus count minus one, in unsigned 64-bit arithmetic. */
  function LastSequence(record: seq<Byte>): nat
    requires |record| >= W.HEADER
  {
    (W.SequenceOf(record) + W.CountOf(record) - 1) % 0x1_0000_0000_0000_0000
  }

  /** Replays a log file from position p. Corruption the reader reports matters in paranoid mode only. */
  function Replay(crc: Crc, file: seq<Byte>, p: nat, paranoid: bool, s: Progress): Progress
    requires p <= |file|
    decreases |file| - p
  {
    var r := Assemble(crc, file, p, None);
    var ok := s.ok && !(paranoid && r.drops != []);
    if !r.ok || !ok then s.(ok := ok)
    else Replay(crc, file, r.next, paranoid, ReplayRecord(r.record, paranoid, s))
  }

  function Flatten(tables: seq<seq<Entry>>): seq<Entry> {
    if tables == [] then [] else Flatten(tables[..|tables| - 1]) + tables[|tables| - 1]
  }

  /** The loop of RecoverLogFile. `full` stands for the memtable size rule, and `tableOk` for the
      outcome of writing the n-th level-0 table; each table holds one memtable's entries. */
  method RecoverLogFile(file: SequentialFile, crc: Crc, paranoid: bool, maxSequence: nat,
                        full: seq<Entry> -> bool, tableOk: nat -> bool)
    returns (ok: bool, tables: seq<seq<Entry>>, max: nat)
    requires file.pos == 0
    modifies file
    ensures var r := Replay(crc, file.content, 0, paranoid, Progress(true, [], maxSequence));
      && (ok ==> r == Progress(true, Flatten(tables), max))
      && (ok <== r.ok && forall n :: tableOk(n))
    ensures [] !in tables
  {
    hide Assemble, W.Apply, LastSequence, Flatten;
    FlattenNone();
    var reader := new Reader(file, crc);
    tables, max, ok := [], maxSequence, true;
    var mem: seq<Entry> := [];
    ghost var whole := Replay(crc, file.content, 0, paranoid, Progress(true, [], maxSequence));
    assert reader.Position() == 0 && Flatten(tables) + mem == [];
    while true
      invariant reader.Valid() && fresh(reader) && reader.file == file && reader.crc == crc
      invariant ok ==> whole == Replay(crc, file.content, reader.Position(), paranoid,
                                 Progress(true, Flatten(tables) + mem, max))
      invariant !ok && (forall n :: tableOk(n)) ==> !whole.ok
      invariant [] !in tables
      decreases |file.content| - reader.Position(), ok
    {
      ghost var at := reader.Position();
      ghost var r := Assemble(crc, file.content, at, None);
      ghost var dropped := reader.drops;
      var before := |reader.drops|;
      var more, record := reader.ReadRecord();
      assert reader.drops == dropped + r.drops;
      if |reader.drops| > before && paranoid {
        ok := false;
      }
      if !more || !ok {
        break;
      }
      if |record| < W.HEADER {
        if paranoid {
          ok := false;
          ReplayStops(crc, file.content, reader.Position(), paranoid, Progress(false, Flatten(tables) + mem, max));
        }
        continue;
      }
      var inserted, added := W.InsertInto(record);
      assert W.Applied(inserted, added) == W.Apply(record);
      assert Flatten(tables) + (mem + added) == Flatten(tables) + mem + added;
      mem := mem + added;
      if !inserted && paranoid {
        ok := false;
        ReplayStops(crc, file.content, reader.Position(), paranoid, Progress(false, Flatten(tables) + mem, max));
        break;
      }
      var last := LastSequence(record);
      if last > max {
        max := last;
      }
      if mem != [] && full(mem) {
        ok := tableOk(|tables|);
        if !ok {
          break;
        }
        FlattenMore(tables, mem);
        tables := tables + [mem];
        assert Flatten(tables) + [] == Flatten(tables);
        mem := [];
      }
    }
    if ok && mem != [] {
      ok := tableOk(|tables|);
      if ok {
        FlattenMore(tables, mem);
        tables := tables + [mem];
      }
    }
  }

  lemma FlattenNone()
    ensures Flatten([]) == []
  {
  }

  lemma FlattenMore(tables: seq<seq<Entry>>, mem: seq<Entry>)
    ensures Flatten(tables + [mem]) == Flatten(tables) + mem
  {
    assert (tables + [mem])[..|tables|] == tables;
  }

  /** A failed status is final. */
  lemma ReplayStops(crc: Crc, file: seq<Byte>, p: nat, paranoid: bool, s: Progress)
    requires p <= |file| && !s.ok
    ensures Replay(crc, file, p, paranoid, s) == s
  {
  }

  // ----- What comes back of a log the engine wrote -----

  /** A group as the leader logs it: its first sequence number and its operations. */
  datatype Batch = Batch(sequence: nat, ops: seq<W.Op>)

  ghost predicate Legal(b: Batch) {
    W.ValidOps(b.ops) && 0 < b.sequence && b.sequence + |b.ops| <= MAX_SEQUENCE_NUMBER
  }

  function Records(batches: seq<Batch>): (r: seq<seq<Byte>>)
    ensures |r| == |batches|
    decreases batches
  {
    if batches == [] then [] else [W.Contents(batches[0].sequence, batches[0].ops)] + Records(batches[1..])
  }

  function EntriesOf(batches: seq<Batch>): seq<Entry> {
    if batches == [] then [] else W.Numbered(batches[0].sequence, batches[0].ops) + EntriesOf(batches[1..])
  }

  /** The end of the last batch, or the start value if that is higher. */
  function MaxSequence(batches: seq<Batch>, start: nat): nat
    decreases batches
  {
    if batches == [] then start
    else
      var last := batches[0].sequence + |batches[0].ops|;
      MaxSequence(batches[1..], if last > start + 1 then last - 1 else start)
  }

  /** A whole record adds its batch's entries and raises the highest sequence number. */
  lemma LegalRecord(b: Batch, paranoid: bool, s: Progress)
    requires Legal(b) && s.ok
    ensures var last := b.sequence + |b.ops|;
            ReplayRecord(W.Contents(b.sequence, b.ops), paranoid, s) ==
            Progress(true, s.entries + W.Numbered(b.sequence, b.ops),
                     if last > s.maxSequence + 1 then last - 1 else s.maxSequence)
  {
    hide W.Apply, W.Contents, W.Numbered, LastSequence, Legal;
    W.ContentsLength(b.sequence, b.ops);
    LegalApplies(b);
    LegalLast(b);
  }

  lemma LegalApplies(b: Batch)
    requires Legal(b)
    ensures W.Apply(W.Contents(b.sequence, b.ops)) == W.Applied(true, W.Numbered(b.sequence, b.ops))
  {
    hide W.Apply, W.Contents, W.Numbered;
    W.ApplyContents(b.sequence, b.ops);
  }

  lemma LegalLast(b: Batch)
    requires Legal(b)
    ensures |W.Contents(b.sequence, b.ops)| >= W.HEADER
    ensures LastSequence(W.Contents(b.sequence, b.ops)) == b.sequence + |b.ops| - 1
  {
    hide W.Contents, W.SequenceOf, W.CountOf, W.ValidOps;
    W.ContentsLength(b.sequence, b.ops);
    assert |b.ops| < 0x8000_0000 by {
      FewOps(b.ops);
    }
    W.HeaderRoundTrip(b.sequence, b.ops);
  }

  lemma FewOps(ops: seq<W.Op>)
    requires W.ValidOps(ops)
    ensures |ops| < 0x8000_0000
  {
  }

  lemma {:induction false} ReplayWhole(crc: Crc, file: seq<Byte>, p: nat, batches: seq<Batch>, paranoid: bool,
                                       s: Progress)
    requires p <= |file| && s.ok && forall b :: b in batches ==> Legal(b)
    requires ReadAll(crc, file, p) == (Records(batches), [])
    ensures Replay(crc, file, p, paranoid, s) ==
            Progress(true, s.entries + EntriesOf(batches), MaxSequence(batches, s.maxSequence))
    decreases |batches|
  {
    hide Assemble, W.Contents, ReplayRecord, Legal, W.Numbered;
    var r := Assemble(crc, file, p, None);
    NoDrops(crc, file, p);
    if batches == [] {
      assert s.entries + [] == s.entries;
    } else {
      LegalRecord(batches[0], paranoid, s);
      var next := ReplayRecord(r.record, paranoid, s);
      assert ReadAll(crc, file, r.next).0 == Records(batches)[1..] == Records(batches[1..]);
      ReplayWhole(crc, file, r.next, batches[1..], paranoid, next);
      assert s.entries + (W.Numbered(batches[0].sequence, batches[0].ops) + EntriesOf(batches[1..])) ==
             s.entries + W.Numbered(batches[0].sequence, batches[0].ops) + EntriesOf(batches[1..]);
    }
  }

  lemma NoDrops(crc: Crc, file: seq<Byte>, p: nat)
    requires p <= |file| && ReadAll(crc, file, p).1 == []
    ensures Assemble(crc, file, p, None).drops == []
    ensures Assemble(crc, file, p, None).ok ==> ReadAll(crc, file, Assemble(crc, file, p, None).next).1 == []
  {
    hide Assemble;
  }

  lemma {:induction false} RecordsPrefix(batches: seq<Batch>, m: nat)
    requires m <= |batches|
    ensures Records(batches)[..m] == Records(batches[..m])
    decreases batches
  {
    hide W.Contents;
    if m > 0 {
      RecordsPrefix(batches[1..], m - 1);
      assert batches[..m][1..] == batches[1..][..m - 1];
      FirstOfPrefix(W.Contents(batches[0].sequence, batches[0].ops), Records(batches[1..]), m);
    }
  }

  lemma FirstOfPrefix(first: seq<Byte>, rest: seq<seq<Byte>>, m: nat)
    requires 0 < m <= |rest| + 1
    ensures ([first] + rest)[..m] == [first] + rest[..m - 1]
  {
  }

  /** Cut a log at any byte: recovery, paranoid or not, finds no fault and brings back exactly the
      groups whose records are whole, in order, with their own sequence numbers. */
  lemma CutLogReplays(crc: Crc, batches: seq<Batch>, n: nat, paranoid: bool, maxSequence: nat)
    requires n <= |EncodeAll(crc, 0, Records(batches))| && forall b :: b in batches ==> Legal(b)
    ensures var whole := batches[..WholeRecords(crc, 0, Records(batches), n)];
            Replay(crc, EncodeAll(crc, 0, Records(batches))[..n], 0, paranoid, Progress(true, [], maxSequence)) ==
            Progress(true, EntriesOf(whole), MaxSequence(whole, maxSequence))
  {
    hide Legal, Replay, ReadAll, EncodeAll;
    var m := WholeRecords(crc, 0, Records(batches), n);
    TruncatedLogReadsBack(crc, Records(batches), n);
    RecordsPrefix(batches, m);
    ReplayWhole(crc, EncodeAll(crc, 0, Records(batches))[..n], 0, batches[..m], paranoid,
                Progress(true, [], maxSequence));
    assert [] + EntriesOf(batches[..m]) == EntriesOf(batches[..m]);
  }
}
