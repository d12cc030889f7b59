/** The database iterator: a bidirectional cursor over the user keys visible at one sequence number,
    computed from an iterator over every version in the database. */
module DbIter {
  import opened Entries

  /** The merged internal iterator: a position in the sorted versions, or none. */
  class InternalIterator {
    const lt: Order
    var entries: seq<Entry>
    var pos: nat  // == |entries| when the iterator is not valid

    constructor (lt: Order, entries: seq<Entry>)
      requires Sorted(lt, entries)
      ensures this.lt == lt && this.entries == entries && pos == |entries|
    {
      this.lt, this.entries, pos := lt, entries, |entries|;
    }

    predicate Valid()
      reads this
    {
      pos < |entries|
    }

    method SeekToFirst()
      modifies `pos
      ensures pos == 0
    {
      pos := 0;
    }

    method SeekToLast()
      modifies `pos
      ensures pos == if entries == [] then 0 else |entries| - 1
    {
      pos := if entries == [] then 0 else |entries| - 1;
    }

    method Next()
      requires Valid()
      modifies `pos
      ensures pos == old(pos) + 1
    {
      pos := pos + 1;
    }

    method Prev()
      requires Valid()
      modifies `pos
      ensures pos == if old(pos) == 0 then |entries| else old(pos) - 1
    {
      pos := if pos == 0 then |entries| else pos - 1;
    }

    /** Moves to the first version that does not come before the target. */
    method Seek(target: Entry)
      modifies `pos
      ensures pos <= |entries|
      ensures forall i :: 0 <= i < pos ==> Before(lt, entries[i], target)
      ensures Valid() ==> !Before(lt, entries[pos], target)
    {
      pos := 0;
      while pos < |entries| && Before(lt, entries[pos], target)
        invariant pos <= |entries|
        invariant forall i :: 0 <= i < pos ==> Before(lt, entries[i], target)
      {
        pos := pos + 1;
      }
    }

    /** A writer adds a version while the iterator stands still: the iterator stays on its entry. */
    method Arrive(e: Entry) returns (ghost n: nat)
      requires TotalOrder(lt) && Sorted(lt, entries) && pos <= |entries|
      requires forall f :: f in entries && f.key == e.key ==> f.seqno != e.seqno
      modifies this
      ensures n <= |old(entries)| && entries == Inserted(old(entries), e, n) && Sorted(lt, entries)
      ensures pos == if n <= old(pos) then old(pos) + 1 else old(pos)
    {
      var i := 0;
      while i < |entries| && Before(lt, entries[i], e)
        invariant i <= |entries|
        invariant forall j :: 0 <= j < i ==> Before(lt, entries[j], e)
      {
        i := i + 1;
      }
      InsertSorted(lt, entries, e, i);
      entries := entries[..i] + [e] + entries[i..];
      if i <= pos {
        pos := pos + 1;
      }
      n := i;
    }
  }

  // ----- The plain list the iterator presents -----

  /** Version i is the newest one of its key at or below s. */
  predicate Head(es: seq<Entry>, s: nat, i: nat)
    requires i < |es|
  {
    es[i].seqno <= s && (i == 0 || es[i - 1].key != es[i].key || es[i - 1].seqno > s)
  }

  predicate Yields(es: seq<Entry>, s: nat, i: nat)
    requires i < |es|
  {
    Head(es, s, i) && es[i].kind == Put
  }

  /** The visible keys, in order, each with its value. */
  function ViewTo(es: seq<Entry>, s: nat, n: nat): seq<(Key, Value)>
    requires n <= |es|
  {
    if n == 0 then []
    else ViewTo(es, s, n - 1) + (if Yields(es, s, n - 1) then [(es[n - 1].key, es[n - 1].value)] else [])
  }

  function View(es: seq<Entry>, s: nat): seq<(Key, Value)> {
    ViewTo(es, s, |es|)
  }

  ghost function Rank(es: seq<Entry>, s: nat, i: nat): nat
    requires i <= |es|
  {
    |ViewTo(es, s, i)|
  }

  lemma {:induction false} ViewPrefix(es: seq<Entry>, s: nat, i: nat, n: nat)
    requires i <= n <= |es|
    ensures ViewTo(es, s, i) <= ViewTo(es, s, n)
  {
    if i < n {
      ViewPrefix(es, s, i, n - 1);
    }
  }

  lemma RankOfYield(es: seq<Entry>, s: nat, i: nat)
    requires i < |es| && Yields(es, s, i)
    ensures Rank(es, s, i) < |View(es, s)| && View(es, s)[Rank(es, s, i)] == (es[i].key, es[i].value)
  {
    ViewPrefix(es, s, i + 1, |es|);
  }

  /** No version yields in [i, n), so the list does not grow there. */
  lemma {:induction false} RankFlat(es: seq<Entry>, s: nat, i: nat, n: nat)
    requires i <= n <= |es|
    requires forall j {:trigger Yields(es, s, j)} :: i <= j < n ==> !Yields(es, s, j)
    ensures ViewTo(es, s, n) == ViewTo(es, s, i)
  {
    if i < n {
      RankFlat(es, s, i, n - 1);
    }
  }

  /** Every position of the list comes from exactly one yielded version. */
  lemma {:induction false} ViewOrigin(es: seq<Entry>, s: nat, n: nat, c: nat) returns (i: nat)
    requires n <= |es| && c < |ViewTo(es, s, n)|
    ensures i < n && Yields(es, s, i) && Rank(es, s, i) == c && ViewTo(es, s, n)[c] == (es[i].key, es[i].value)
  {
    if c < |ViewTo(es, s, n - 1)| {
      i := ViewOrigin(es, s, n - 1, c);
    } else {
      i := n - 1;
    }
  }

  lemma SameKeyBetween(lt: Order, es: seq<Entry>, i: nat, j: nat, m: nat)
    requires TotalOrder(lt) && Sorted(lt, es)
    requires i <= j <= m < |es| && es[i].key == es[m].key
    ensures es[j].key == es[i].key && es[j].seqno <= es[i].seqno && es[m].seqno <= es[j].seqno
  {
    if i < j < m {
      assert Before(lt, es[i], es[j]) && Before(lt, es[j], es[m]);
    } else if i < m {
      assert Before(lt, es[i], es[m]);
    }
  }

  lemma KeysAscend(lt: Order, es: seq<Entry>, i: nat, j: nat)
    requires TotalOrder(lt) && Sorted(lt, es) && i <= j < |es|
    ensures AtMost(lt, es[i].key, es[j].key)
  {
    if i < j {
      assert Before(lt, es[i], es[j]);
    }
  }

  /** Yielded versions have strictly increasing keys. */
  lemma YieldsAscend(lt: Order, es: seq<Entry>, s: nat, i: nat, j: nat)
    requires TotalOrder(lt) && Sorted(lt, es)
    requires i < j < |es| && Yields(es, s, i) && Yields(es, s, j)
    ensures lt(es[i].key, es[j].key)
  {
    KeysAscend(lt, es, i, j);
    if es[i].key == es[j].key {
      SameKeyBetween(lt, es, i, j - 1, j);
    }
  }

  /** The head of a key's visible versions is what a read of that key finds. */
  lemma HeadIsNewest(lt: Order, es: seq<Entry>, s: nat, i: nat)
    requires TotalOrder(lt) && Sorted(lt, es)
    requires i < |es| && Head(es, s, i)
    ensures IsNewest(Elements(es), es[i].key, s, es[i])
  {
    forall f | f in Elements(es) && f.key == es[i].key && f.seqno <= s ensures f.seqno <= es[i].seqno {
      var j :| 0 <= j < |es| && es[j] == f;
      if j < i {
        SameKeyBetween(lt, es, j, i - 1, i);
      } else {
        SameKeyBetween(lt, es, i, j, j);
      }
    }
  }

  lemma {:induction false} HeadExists(lt: Order, es: seq<Entry>, s: nat, i: nat) returns (h: nat)
    requires TotalOrder(lt) && Sorted(lt, es)
    requires i < |es| && es[i].seqno <= s
    ensures h <= i && Head(es, s, h) && es[h].key == es[i].key
  {
    if Head(es, s, i) {
      h := i;
    } else {
      h := HeadExists(lt, es, s, i - 1);
    }
  }

  /** The list holds exactly what reads at sequence number s would find, in strictly increasing key order. */
  lemma ViewIsReads(lt: Order, es: seq<Entry>, s: nat)
    requires TotalOrder(lt) && Sorted(lt, es) && DistinctVersions(Elements(es))
    ensures forall k, v :: (k, v) in View(es, s) <==> Read(Elements(es), k, s) == Some(v)
    ensures forall c, d :: 0 <= c < d < |View(es, s)| ==> lt(View(es, s)[c].0, View(es, s)[d].0)
  {
    forall k, v ensures (k, v) in View(es, s) <==> Read(Elements(es), k, s) == Some(v) {
      if (k, v) in View(es, s) {
        var c :| 0 <= c < |View(es, s)| && View(es, s)[c] == (k, v);
        var i := ViewOrigin(es, s, |es|, c);
        HeadIsNewest(lt, es, s, i);
        ReadIs(Elements(es), k, s, es[i]);
      }
      if Read(Elements(es), k, s) == Some(v) {
        var e :| e in Elements(es) && e.key == k && e.seqno <= s;
        var j :| 0 <= j < |es| && es[j] == e;
        var i := HeadExists(lt, es, s, j);
        HeadIsNewest(lt, es, s, i);
        ReadIs(Elements(es), k, s, es[i]);
        RankOfYield(es, s, i);
      }
    }
    forall c, d | 0 <= c < d < |View(es, s)| ensures lt(View(es, s)[c].0, View(es, s)[d].0) {
      ViewAscends(lt, es, s, c, d);
    }
  }

  lemma ViewAscends(lt: Order, es: seq<Entry>, s: nat, c: nat, d: nat)
    requires TotalOrder(lt) && Sorted(lt, es)
    requires c < d < |View(es, s)|
    ensures lt(View(es, s)[c].0, View(es, s)[d].0)
  {
    var i := ViewOrigin(es, s, |es|, c);
    var j := ViewOrigin(es, s, |es|, d);
    if j < i {
      ViewPrefix(es, s, j, i);
    }
    YieldsAscend(lt, es, s, i, j);
  }

  /** The first index of the list whose key is not below the target. */
  function LowerBound(lt: Order, view: seq<(Key, Value)>, target: Key): (n: nat)
    ensures n <= |view|
    ensures forall c :: 0 <= c < n ==> lt(view[c].0, target)
    ensures n < |view| ==> !lt(view[n].0, target)
  {
    if view == [] || !lt(view[0].0, target) then 0 else 1 + LowerBound(lt, view[1..], target)
  }

  // ----- The iterator -----

  datatype Direction = Forward | Reverse

  class DBIter {
    const iter: InternalIterator
    const sequence: nat
    var direction: Direction
    var valid: bool
    var savedKey: Key
    var savedValue: Value
    /** Which version the iterator stands for; it is `iter.pos` only when moving forward. */
    ghost var at: nat

    constructor (iter: InternalIterator, sequence: nat)
      ensures this.iter == iter && this.sequence == sequence && !valid
    {
      this.iter, this.sequence := iter, sequence;
      direction, valid, savedKey, savedValue := Forward, false, [], [];
      at := 0;
    }

    ghost predicate Ordered()
      reads iter
    {
      TotalOrder(iter.lt) && Sorted(iter.lt, iter.entries) && iter.pos <= |iter.entries|
    }

    ghost predicate Good()
      reads this, iter
    {
      && Ordered()
      && (valid ==>
            && at < |iter.entries| && Yields(iter.entries, sequence, at)
            && (direction == Forward ==> iter.pos == at)
            && (direction == Reverse ==>
                  && savedKey == iter.entries[at].key && savedValue == iter.entries[at].value
                  && JustBefore(iter.entries, sequence, iter.pos, at)))
    }

    /** The reverse resting place: every version between the internal position and the current entry is
        too recent to be seen, though it may belong to other keys. */
    static ghost predicate JustBefore(es: seq<Entry>, s: nat, p: nat, i: nat)
      requires p <= |es| && i < |es|
    {
      && (p < |es| ==> p < i && es[p].key != es[i].key && es[p].seqno <= s)
      && forall j :: (if p < |es| then p + 1 else 0) <= j < i ==> es[j].seqno > s
    }

    predicate Valid()
      reads this
    {
      valid
    }

    function CurrentKey(): (k: Key)
      requires Good() && valid
      reads this, iter
      ensures k == iter.entries[at].key
    {
      if direction == Forward then iter.entries[iter.pos].key else savedKey
    }

    function CurrentValue(): (v: Value)
      requires Good() && valid
      reads this, iter
      ensures v == iter.entries[at].value
    {
      if direction == Forward then iter.entries[iter.pos].value else savedValue
    }

    /** The index in the plain list that a valid iterator shows. */
    ghost function Cursor(): (c: nat)
      requires Good() && valid
      reads this, iter
      ensures c < |View(iter.entries, sequence)|
      ensures View(iter.entries, sequence)[c] == (CurrentKey(), CurrentValue())
    {
      RankOfYield(iter.entries, sequence, at);
      Rank(iter.entries, sequence, at)
    }

    /** What a forward scan from p0 to p has established: nothing it passed should have been shown, and
        everything that `skip` hides from p on is hidden for good reason. */
    static ghost predicate Scanned(lt: Order, es: seq<Entry>, s: nat, p0: nat, start: Option<Key>,
                                   p: nat, skipping: bool, skip: Key)
    {
      && p0 <= p <= |es|
      && (start.Some? ==> skipping && AtMost(lt, start.value, skip))
      && (skipping ==> forall j :: p <= j < |es| && es[j].seqno <= s ==> AtMost(lt, skip, es[j].key))
      && (skipping && start != Some(skip) ==> exists q :: p0 <= q < p && es[q].key == skip && es[q].seqno <= s)
      && (0 < p < |es| && es[p - 1].seqno <= s && es[p - 1].key == es[p].key ==>
            skipping && AtMost(lt, es[p].key, skip))
      && (forall j {:trigger Yields(es, s, j)} :: p0 <= j < p && Yields(es, s, j) ==>
            start.Some? && !lt(start.value, es[j].key))
    }

    static lemma ScanPastRecent(lt: Order, es: seq<Entry>, s: nat, p0: nat, start: Option<Key>, p: nat,
                                skipping: bool, skip: Key)
      requires Scanned(lt, es, s, p0, start, p, skipping, skip) && p < |es| && es[p].seqno > s
      ensures Scanned(lt, es, s, p0, start, p + 1, skipping, skip)
    {
    }

    static lemma ScanPastDeletion(lt: Order, es: seq<Entry>, s: nat, p0: nat, start: Option<Key>, p: nat,
                                  skipping: bool, skip: Key)
      requires TotalOrder(lt) && Sorted(lt, es)
      requires Scanned(lt, es, s, p0, start, p, skipping, skip) && p < |es| && es[p].seqno <= s
      requires es[p].kind == Deletion
      ensures Scanned(lt, es, s, p0, start, p + 1, true, es[p].key)
    {
      forall j | p < j < |es| ensures AtMost(lt, es[p].key, es[j].key) {
        KeysAscend(lt, es, p, j);
      }
    }

    static lemma ScanPastHidden(lt: Order, es: seq<Entry>, s: nat, p0: nat, start: Option<Key>, p: nat, skip: Key)
      requires TotalOrder(lt) && Sorted(lt, es)
      requires Scanned(lt, es, s, p0, start, p, true, skip) && p < |es| && es[p].seqno <= s
      requires AtMost(lt, es[p].key, skip)
      ensures Scanned(lt, es, s, p0, start, p + 1, true, skip)
    {
      assert es[p].key == skip;
      if start != Some(skip) {
        var q :| p0 <= q < p && es[q].key == skip && es[q].seqno <= s;
        SameKeyBetween(lt, es, q, p - 1, p);
      }
    }

    static lemma ScanFound(lt: Order, es: seq<Entry>, s: nat, p0: nat, start: Option<Key>, p: nat, skipping: bool,
                           skip: Key)
      requires TotalOrder(lt) && Sorted(lt, es)
      requires Scanned(lt, es, s, p0, start, p, skipping, skip) && p < |es| && es[p].seqno <= s && es[p].kind == Put
      requires !(skipping && AtMost(lt, es[p].key, skip))
      ensures Yields(es, s, p)
      ensures start.Some? ==> lt(start.value, es[p].key)
    {
    }

    static lemma ScanResult(lt: Order, es: seq<Entry>, s: nat, p0: nat, start: Option<Key>, p: nat, skipping: bool,
                            skip: Key)
      requires Scanned(lt, es, s, p0, start, p, skipping, skip)
      ensures p0 <= p <= |es|
      ensures forall j {:trigger Yields(es, s, j)} :: p0 <= j < p && Yields(es, s, j) ==>
                start.Some? && !lt(start.value, es[j].key)
    {
    }

    /** Finds the first visible key from the internal position on, past `savedKey` if `skipping`. */
    method FindNextUserEntry(skipping0: bool)
      requires Ordered() && direction == Forward && iter.Valid()
      requires Scanned(iter.lt, iter.entries, sequence, iter.pos, if skipping0 then Some(savedKey) else None, iter.pos,
                       skipping0, savedKey)
      modifies this, iter`pos
      ensures Good() && direction == Forward
      ensures valid ==> old(iter.pos) <= at && (skipping0 ==> iter.lt(old(savedKey), iter.entries[at].key))
      ensures forall j {:trigger Yields(iter.entries, sequence, j)} ::
                old(iter.pos) <= j < (if valid then at else |iter.entries|) && Yields(iter.entries, sequence, j) ==>
                            skipping0 && !iter.lt(old(savedKey), iter.entries[j].key)
    {
      hide Scanned, Yields, JustBefore, Sorted, TotalOrder;
      ghost var lt, es, s, p0 := iter.lt, iter.entries, sequence, iter.pos;
      ghost var start := if skipping0 then Some(savedKey) else None;
      var skipping := skipping0;
      while iter.Valid()
        invariant direction == Forward && iter.pos <= |es|
        invariant Scanned(lt, es, s, p0, start, iter.pos, skipping, savedKey)
        decreases |es| - iter.pos
      {
        var e := iter.entries[iter.pos];
        if e.seqno <= sequence {
          match e.kind
          case Deletion =>
            ScanPastDeletion(lt, es, s, p0, start, iter.pos, skipping, savedKey);
            savedKey := e.key;
            skipping := true;
          case Put =>
            if skipping && AtMost(iter.lt, e.key, savedKey) {
              ScanPastHidden(lt, es, s, p0, start, iter.pos, savedKey);
            } else {
              ScanFound(lt, es, s, p0, start, iter.pos, skipping, savedKey);
              ScanResult(lt, es, s, p0, start, iter.pos, skipping, savedKey);
              valid := true;
              savedKey := [];
              at := iter.pos;
              return;
            }
        } else {
          ScanPastRecent(lt, es, s, p0, start, iter.pos, skipping, savedKey);
        }
        iter.Next();
      }
      ScanResult(lt, es, s, p0, start, iter.pos, skipping, savedKey);
      savedKey := [];
      valid := false;
    }

    method Next()
      requires Good() && valid
      modifies this, iter`pos
      ensures Good()
      ensures valid == (old(Cursor()) + 1 < |View(iter.entries, sequence)|)
      ensures valid ==> Cursor() == old(Cursor()) + 1
    {
      ghost var es, s, was := iter.entries, sequence, at;
      RankOfYield(es, s, was);
      if direction == Reverse {
        direction := Forward;
        if !iter.Valid() {
          iter.SeekToFirst();
        } else {
          iter.Next();
        }
        if !iter.Valid() {
          assert false;  // the current entry itself still lies ahead
        }
      } else {
        savedKey := iter.entries[iter.pos].key;
      }
      ghost var p0 := iter.pos;
      forall j | p0 <= j < |es| && es[j].seqno <= s ensures AtMost(iter.lt, es[was].key, es[j].key) {
        KeysAscend(iter.lt, es, was, j);
      }
      if p0 > 0 {
        KeysAscend(iter.lt, es, p0 - 1, was);
      }
      FindNextUserEntry(true);
      NextYield(iter.lt, es, s, was, if valid then at else |es|);
      if valid {
        RankOfYield(es, s, at);
      }
    }

    method Seek(target: Key)
      requires Good()
      modifies this, iter`pos
      ensures Good()
      ensures valid == (LowerBound(iter.lt, View(iter.entries, sequence), target) < |View(iter.entries, sequence)|)
      ensures valid ==> Cursor() == LowerBound(iter.lt, View(iter.entries, sequence), target)
    {
      direction, savedValue, savedKey := Forward, [], [];
      ghost var es, s := iter.entries, sequence;
      iter.Seek(Entry(target, sequence, Put, []));
      ghost var p := iter.pos;
      if iter.Valid() {
        FindNextUserEntry(false);
      } else {
        valid := false;
      }
      SeekLands(iter.lt, es, s, target, p, if valid then at else |es|);
    }

    /** The first yielded version at or after the seek position is the lower bound in the list. */
    static lemma SeekLands(lt: Order, es: seq<Entry>, s: nat, target: Key, p: nat, n: nat)
      requires TotalOrder(lt) && Sorted(lt, es)
      requires p <= n <= |es|
      requires forall i :: 0 <= i < p ==> Before(lt, es[i], Entry(target, s, Put, []))
      requires p < |es| ==> !Before(lt, es[p], Entry(target, s, Put, []))
      requires forall j {:trigger Yields(es, s, j)} :: p <= j < n ==> !Yields(es, s, j)
      requires n < |es| ==> Yields(es, s, n)
      ensures Rank(es, s, n) == LowerBound(lt, View(es, s), target)
      ensures n < |es| <==> Rank(es, s, n) < |View(es, s)|
    {
      ViewPrefix(es, s, n, |es|);
      if n < |es| {
        RankOfYield(es, s, n);
        KeysAscend(lt, es, p, n);
      }
      forall c | 0 <= c < Rank(es, s, n) ensures lt(View(es, s)[c].0, target) {
        var i := ViewOrigin(es, s, n, c);
        assert Before(lt, es[i], Entry(target, s, Put, []));
      }
    }

    method SeekToFirst()
      requires Good()
      modifies this, iter`pos
      ensures Good()
      ensures valid == (|View(iter.entries, sequence)| > 0)
      ensures valid ==> Cursor() == 0
    {
      direction, savedValue := Forward, [];
      iter.SeekToFirst();
      if iter.Valid() {
        FindNextUserEntry(false);
      } else {
        valid := false;
      }
      RankFlat(iter.entries, sequence, 0, if valid then at else |iter.entries|);
      if valid {
        RankOfYield(iter.entries, sequence, at);
      }
    }

    /** What a backward scan has established over the versions from lo up to hi: the newest visible
        version met last, and that nothing after it should have been shown. */
    static ghost predicate ScannedBack(es: seq<Entry>, s: nat, lo: nat, hi: nat, kind: Kind, key: Key, value: Value,
                                       i: nat)
    {
      && lo <= hi <= |es|
      && (kind == Put ==>
            && lo <= i < hi && es[i] == Entry(key, es[i].seqno, Put, value) && es[i].seqno <= s
            && (forall j :: lo <= j < i ==> es[j].seqno > s)
            && (forall j {:trigger Yields(es, s, j)} :: i < j < hi ==> !Yields(es, s, j)))
      && (kind == Deletion ==> forall j {:trigger Yields(es, s, j)} :: lo <= j < hi ==> !Yields(es, s, j))
    }

    /** Taking in one more visible version, which the loop has not stopped at. */
    static lemma ScanBackOver(lt: Order, es: seq<Entry>, s: nat, lo: nat, hi: nat, kind: Kind, key: Key, value: Value,
                              i: nat)
      requires TotalOrder(lt) && Sorted(lt, es)
      requires 0 < lo && ScannedBack(es, s, lo, hi, kind, key, value, i)
      requires es[lo - 1].seqno <= s && !(kind == Put && lt(es[lo - 1].key, key))
      ensures ScannedBack(es, s, lo - 1, hi, es[lo - 1].kind, es[lo - 1].key, es[lo - 1].value, lo - 1)
    {
      if kind == Put {
        KeysAscend(lt, es, lo - 1, i);
        assert es[lo - 1].key == key;
        SameKeyBetween(lt, es, lo - 1, i - 1, i);
        assert !Head(es, s, i);
      }
    }

    static lemma ScanBackOverRecent(es: seq<Entry>, s: nat, lo: nat, hi: nat, kind: Kind, key: Key, value: Value,
                                    i: nat)
      requires 0 < lo && ScannedBack(es, s, lo, hi, kind, key, value, i) && es[lo - 1].seqno > s
      ensures ScannedBack(es, s, lo - 1, hi, kind, key, value, i)
    {
    }

    /** Where the scan may stop: at the front, or at a visible version of a smaller key. */
    static lemma BackResult(lt: Order, es: seq<Entry>, s: nat, lo: nat, hi: nat, kind: Kind, key: Key, value: Value,
                            i: nat)
      requires TotalOrder(lt) && Sorted(lt, es) && ScannedBack(es, s, lo, hi, kind, key, value, i)
      requires lo == 0 || (kind == Put && es[lo - 1].seqno <= s && lt(es[lo - 1].key, key))
      ensures kind == Put ==>
        && i < hi <= |es| && Yields(es, s, i) && es[i].key == key && es[i].value == value
        && JustBefore(es, s, if lo == 0 then |es| else lo - 1, i)
      ensures forall j {:trigger Yields(es, s, j)} :: (if kind == Put then i + 1 else 0) <= j < hi ==> !Yields(es, s, j)
    {
    }

    static lemma MarkerForgets(es: seq<Entry>, s: nat, lo: nat, hi: nat, key: Key, value: Value, i: nat)
      requires ScannedBack(es, s, lo, hi, Deletion, key, value, i)
      ensures ScannedBack(es, s, lo, hi, Deletion, [], [], i)
    {
    }

    static lemma NothingScanned(es: seq<Entry>, s: nat, hi: nat, key: Key, value: Value)
      requires hi <= |es|
      ensures ScannedBack(es, s, hi, hi, Deletion, key, value, 0)
    {
    }

    /** Finds the last visible key at or before the internal position. */
    method FindPrevUserEntry()
      requires Ordered() && direction == Reverse
      modifies this, iter`pos
      ensures Good()
      ensures var hi := if old(iter.Valid()) then old(iter.pos) + 1 else 0;
        && (valid ==> at < hi && direction == Reverse)
        && forall j {:trigger Yields(iter.entries, sequence, j)} ::
             (if valid then at + 1 else 0) <= j < hi ==> !Yields(iter.entries, sequence, j)
    {
      hide ScannedBack, Yields, JustBefore, Sorted, TotalOrder;
      ghost var es, s := iter.entries, sequence;
      ghost var hi := if iter.Valid() then iter.pos + 1 else 0;
      NothingScanned(es, s, hi, savedKey, savedValue);
      var valueType := Deletion;
      ghost var i := 0;
      while iter.Valid()
        invariant direction == Reverse && iter.pos <= |es|
        invariant ScannedBack(es, s, if iter.Valid() then iter.pos + 1 else 0, hi, valueType, savedKey, savedValue, i)
        decreases if iter.Valid() then iter.pos + 1 else 0
      {
        var e := iter.entries[iter.pos];
        if e.seqno <= sequence {
          if valueType != Deletion && iter.lt(e.key, savedKey) {
            break;
          }
          ScanBackOver(iter.lt, es, s, iter.pos + 1, hi, valueType, savedKey, savedValue, i);
          valueType := e.kind;
          i := iter.pos;
          if valueType == Deletion {
            MarkerForgets(es, s, iter.pos, hi, e.key, e.value, i);
            savedKey, savedValue := [], [];
          } else {
            savedKey, savedValue := e.key, e.value;
          }
        } else {
          ScanBackOverRecent(es, s, iter.pos + 1, hi, valueType, savedKey, savedValue, i);
        }
        iter.Prev();
      }
      BackResult(iter.lt, es, s, if iter.Valid() then iter.pos + 1 else 0, hi, valueType, savedKey, savedValue, i);
      if valueType == Deletion {
        valid, savedKey, savedValue, direction := false, [], [], Forward;
      } else {
        valid := true;
        at := i;
      }
    }

    method Prev()
      requires Good() && valid
      modifies this, iter`pos
      ensures Good()
      ensures valid == (old(Cursor()) > 0)
      ensures valid ==> Cursor() == old(Cursor()) - 1
    {
      hide Yields, JustBefore, Sorted, TotalOrder, ViewTo;
      ghost var es, s, was := iter.entries, sequence, at;
      if direction == Forward {
        savedKey := iter.entries[iter.pos].key;
        while true
          invariant iter.Valid() && iter.pos <= was && direction == Forward
          invariant forall j {:trigger Yields(es, s, j)} :: iter.pos <= j < was ==> !Yields(es, s, j)
          invariant es[iter.pos].key == savedKey
          invariant valid && savedKey == es[was].key
          decreases iter.pos
        {
          iter.Prev();
          if !iter.Valid() {
            valid, savedKey, savedValue := false, [], [];
            RankFlat(es, s, 0, was);
            NoRank(es, s);
            return;
          }
          if iter.lt(iter.entries[iter.pos].key, savedKey) {
            break;
          }
          SameKeyHides(iter.lt, es, s, iter.pos, was);
        }
        direction := Reverse;
      } else {
        RestsBefore(es, s, iter.pos, was);
      }
      FindPrevUserEntry();
      if valid {
        RankFlat(es, s, at + 1, was);
        RankNext(es, s, at);
      } else {
        RankFlat(es, s, 0, was);
        NoRank(es, s);
      }
    }

    static lemma NoRank(es: seq<Entry>, s: nat)
      ensures Rank(es, s, 0) == 0
    {
    }

    static lemma RankNext(es: seq<Entry>, s: nat, i: nat)
      requires i < |es| && Yields(es, s, i)
      ensures Rank(es, s, i + 1) == Rank(es, s, i) + 1
    {
    }

    /** Before a yielded version, versions of the same key are too new to be seen. */
    static lemma SameKeyHides(lt: Order, es: seq<Entry>, s: nat, p: nat, i: nat)
      requires TotalOrder(lt) && Sorted(lt, es) && p < i < |es| && Yields(es, s, i) && !lt(es[p].key, es[i].key)
      ensures es[p].key == es[i].key && !Yields(es, s, p)
    {
      KeysAscend(lt, es, p, i);
      SameKeyBetween(lt, es, p, i - 1, i);
    }

    /** In reverse nothing between the internal position and the current entry is shown. */
    static lemma RestsBefore(es: seq<Entry>, s: nat, p: nat, i: nat)
      requires p <= |es| && i < |es| && JustBefore(es, s, p, i)
      ensures p < |es| ==> p < i
      ensures forall j {:trigger Yields(es, s, j)} :: (if p < |es| then p + 1 else 0) <= j < i ==> !Yields(es, s, j)
    {
    }

    method SeekToLast()
      requires Good()
      modifies this, iter`pos
      ensures Good()
      ensures valid == (|View(iter.entries, sequence)| > 0)
      ensures valid ==> Cursor() == |View(iter.entries, sequence)| - 1 && direction == Reverse
    {
      direction, savedValue := Reverse, [];
      iter.SeekToLast();
      FindPrevUserEntry();
      RankFlat(iter.entries, sequence, if valid then at + 1 else 0, |iter.entries|);
    }

    /** Stepping from one yielded version to the next one with a larger key advances the list by one. */
    static lemma NextYield(lt: Order, es: seq<Entry>, s: nat, i: nat, n: nat)
      requires TotalOrder(lt) && Sorted(lt, es)
      requires i < n <= |es| && Yields(es, s, i)
      requires forall j {:trigger Yields(es, s, j)} :: i < j < n && Yields(es, s, j) ==> !lt(es[i].key, es[j].key)
      ensures Rank(es, s, n) == Rank(es, s, i) + 1
    {
      forall j | i < j < n ensures !Yields(es, s, j) {
        KeysAscend(lt, es, i, j);
        if es[i].key == es[j].key {
          SameKeyBetween(lt, es, i, j - 1, j);
        }
      }
      RankFlat(es, s, i + 1, n);
    }
  }

  // ----- Where the internal iterator rests -----

  /** The first version of the key of version i. */
  ghost predicate FirstOfKey(es: seq<Entry>, f: nat, i: nat) {
    f <= i < |es| && es[f].key == es[i].key && (f == 0 || es[f - 1].key != es[f].key)
  }

  /** Moving backward, the internal iterator stands just before all versions of the current key, as the
      source's comment says, exactly when the version before them is old enough to be seen. */
  lemma JustBeforeIff(it: DBIter, f: nat)
    requires it.Good() && it.valid && it.direction == Reverse && FirstOfKey(it.iter.entries, f, it.at)
    ensures it.iter.pos == (if f == 0 then |it.iter.entries| else f - 1) <==>
            f == 0 || it.iter.entries[f - 1].seqno <= it.sequence
  {
    var es, p := it.iter.entries, it.iter.pos;
    if p < |es| && p >= f {
      SameKeyBetween(it.iter.lt, es, f, p, it.at);
    }
  }

  /** Three keys of which the middle one is too new to be seen: after SeekToLast the internal iterator
      stands before the middle key, not just before the last. */
  method RestsEarlier(lt: Order, a: Key, b: Key, c: Key, v: Value) returns (it: DBIter)
    requires TotalOrder(lt) && lt(a, b) && lt(b, c)
    ensures it.Good() && it.valid && it.direction == Reverse && it.CurrentKey() == c
    ensures FirstOfKey(it.iter.entries, 2, it.at) && it.iter.pos == 0
  {
    hide View, ViewTo, Yields;
    var es := [Entry(a, 1, Put, v), Entry(b, 9, Put, v), Entry(c, 2, Put, v)];
    var iter := new InternalIterator(lt, es);
    it := new DBIter(iter, 5);
    TwoOfThree(es, 5);
    it.SeekToLast();
    JustBeforeIff(it, 2);
  }

  lemma TwoOfThree(es: seq<Entry>, s: nat)
    requires |es| == 3 && es[0].kind == es[1].kind == es[2].kind == Put && es[1].key != es[2].key
    requires es[0].seqno <= s < es[1].seqno && es[2].seqno <= s
    ensures |View(es, s)| == 2 && forall i :: 0 <= i < 3 && Yields(es, s, i) && Rank(es, s, i) == 1 ==> i == 2
  {
    assert ViewTo(es, s, 0) == [] && |ViewTo(es, s, 1)| == 1 && |ViewTo(es, s, 2)| == 1;
  }

  // ----- Writers that go on -----

  function Inserted(es: seq<Entry>, e: Entry, n: nat): (fs: seq<Entry>)
    requires n <= |es|
    ensures |fs| == |es| + 1
  {
    es[..n] + [e] + es[n..]
  }

  /** Where the version at i is after an insertion at n. */
  function After(n: nat, i: nat): nat {
    if n <= i then i + 1 else i
  }

  lemma InsertedAt(es: seq<Entry>, e: Entry, n: nat, i: nat)
    requires n <= |es| && i < |es|
    ensures Inserted(es, e, n)[n] == e && Inserted(es, e, n)[After(n, i)] == es[i]
  {
  }

  /** Inserting a version too new to be seen changes nothing about which versions are shown. */
  lemma YieldsInsert(lt: Order, es: seq<Entry>, e: Entry, n: nat, s: nat, i: nat)
    requires TotalOrder(lt) && n <= |es| && Sorted(lt, Inserted(es, e, n)) && e.seqno > s && i < |es|
    ensures Inserted(es, e, n)[After(n, i)] == es[i]
    ensures Yields(Inserted(es, e, n), s, After(n, i)) == Yields(es, s, i)
  {
    hide Inserted;
    var fs := Inserted(es, e, n);
    InsertedAt(es, e, n, i);
    if i > 0 {
      InsertedAt(es, e, n, i - 1);
      if i == n {
        assert Before(lt, fs[n - 1], fs[n]) && Before(lt, fs[n], fs[n + 1]);
      }
    }
  }

  lemma {:induction false} ViewInsert(lt: Order, es: seq<Entry>, e: Entry, n: nat, s: nat, i: nat)
    requires TotalOrder(lt) && n <= |es| && Sorted(lt, Inserted(es, e, n)) && e.seqno > s && i <= |es|
    ensures ViewTo(Inserted(es, e, n), s, After(n, i)) == ViewTo(es, s, i)
    ensures i <= n ==> ViewTo(Inserted(es, e, n), s, i) == ViewTo(es, s, i)
  {
    hide Yields, Inserted, Sorted;
    if i > 0 {
      ViewInsert(lt, es, e, n, s, i - 1);
      YieldsInsert(lt, es, e, n, s, i - 1);
    }
    if i == n {
      if n < |es| {
        InsertedAt(es, e, n, n);
      } else {
        LastInserted(es, e);
      }
      NotYielded(Inserted(es, e, n), s, n);
    }
  }

  lemma OneMore(es: seq<Entry>, e: Entry, n: nat)
    requires n <= |es|
    ensures Elements(Inserted(es, e, n)) == Elements(es) + {e}
  {
    assert es == es[..n] + es[n..];
  }

  lemma LastInserted(es: seq<Entry>, e: Entry)
    ensures Inserted(es, e, |es|)[|es|] == e
  {
  }

  lemma NotYielded(es: seq<Entry>, s: nat, n: nat)
    requires n < |es| && es[n].seqno > s
    ensures !Yields(es, s, n) && ViewTo(es, s, n + 1) == ViewTo(es, s, n)
  {
  }

  /** A version newer than the iterator's sequence number arrives between two calls: nothing changes. */
  method Arrive(it: DBIter, e: Entry)
    requires it.Good() && e.seqno > it.sequence
    requires forall f :: f in it.iter.entries && f.key == e.key ==> f.seqno != e.seqno
    modifies it`at, it.iter
    ensures it.Good() && Elements(it.iter.entries) == old(Elements(it.iter.entries)) + {e}
    ensures View(it.iter.entries, it.sequence) == old(View(it.iter.entries, it.sequence))
    ensures CursorOf(it) == old(CursorOf(it))
  {
    hide Inserted, Yields, DBIter.JustBefore, Sorted, TotalOrder, ViewTo, Elements;
    ghost var es, s, i, p := it.iter.entries, it.sequence, it.at, it.iter.pos;
    ghost var n := it.iter.Arrive(e);
    ghost var fs := it.iter.entries;
    OneMore(es, e, n);
    ViewInsert(it.iter.lt, es, e, n, s, |es|);
    if it.valid {
      it.at := After(n, i);
      ViewInsert(it.iter.lt, es, e, n, s, i);
      YieldsInsert(it.iter.lt, es, e, n, s, i);
      if it.direction == Reverse {
        StillJustBefore(es, e, n, s, p, i);
      }
    }
  }

  lemma StillJustBefore(es: seq<Entry>, e: Entry, n: nat, s: nat, p: nat, i: nat)
    requires n <= |es| && e.seqno > s && p <= |es| && i < |es| && DBIter.JustBefore(es, s, p, i)
    ensures DBIter.JustBefore(Inserted(es, e, n), s, After(n, p), After(n, i))
  {
    hide Inserted;
    var fs := Inserted(es, e, n);
    InsertedAt(es, e, n, i);
    if p < |es| {
      InsertedAt(es, e, n, p);
    }
    forall j | (if After(n, p) < |fs| then After(n, p) + 1 else 0) <= j < After(n, i) ensures fs[j].seqno > s {
      if j != n {
        InsertedAt(es, e, n, if j < n then j else j - 1);
      }
    }
  }

  // ----- Whole runs -----

  /** A call of the iterator, or a version that a writer adds meanwhile. */
  datatype Op = OpSeek(target: Key) | OpSeekToFirst | OpSeekToLast | OpNext | OpPrev | OpArrive(e: Entry)

  /** A plain cursor over a sorted list: an index, or nothing. Next and Prev need a valid cursor and are
      skipped without one. */
  function StepCursor(lt: Order, view: seq<(Key, Value)>, cursor: Option<nat>, op: Op): Option<nat> {
    match op
    case OpSeek(target) => InList(view, LowerBound(lt, view, target))
    case OpSeekToFirst => InList(view, 0)
    case OpSeekToLast => InList(view, |view| - 1)
    case OpNext => if cursor.Some? then InList(view, cursor.value + 1) else None
    case OpPrev => if cursor.Some? then InList(view, cursor.value - 1) else None
    case OpArrive(_) => cursor
  }

  function InList(view: seq<(Key, Value)>, i: int): (c: Option<nat>) {
    if 0 <= i < |view| then Some(i) else None
  }

  function RunCursor(lt: Order, view: seq<(Key, Value)>, ops: seq<Op>): Option<nat> {
    if ops == [] then None
    else StepCursor(lt, view, RunCursor(lt, view, ops[..|ops| - 1]), ops[|ops| - 1])
  }

  /** What a cursor shows. */
  function Shown(view: seq<(Key, Value)>, cursor: Option<nat>): Option<(Key, Value)> {
    if cursor.Some? && cursor.value < |view| then Some(view[cursor.value]) else None
  }

  ghost function CursorOf(it: DBIter): Option<nat>
    requires it.Good()
    reads it, it.iter
  {
    if it.valid then Some(it.Cursor()) else None
  }

  /** What arrives is too new for the iterator, and sequence numbers are given out once. */
  ghost predicate Arrivals(entries: set<Entry>, sequence: nat, ops: seq<Op>) {
    forall n :: 0 <= n < |ops| && ops[n].OpArrive? ==>
      && ops[n].e.seqno > sequence && (forall f :: f in entries ==> f.seqno != ops[n].e.seqno)
      && forall m :: 0 <= m < n && ops[m].OpArrive? ==> ops[m].e.seqno != ops[n].e.seqno
  }

  method Apply(it: DBIter, op: Op)
    requires it.Good()
    requires op.OpArrive? ==> op.e.seqno > it.sequence && forall f :: f in it.iter.entries ==> f.seqno != op.e.seqno
    modifies it, it.iter
    ensures it.Good() && View(it.iter.entries, it.sequence) == old(View(it.iter.entries, it.sequence))
    ensures Elements(it.iter.entries) == old(Elements(it.iter.entries)) + if op.OpArrive? then {op.e} else {}
    ensures CursorOf(it) == StepCursor(it.iter.lt, View(it.iter.entries, it.sequence), old(CursorOf(it)), op)
  {
    match op {
      case OpSeek(target) => it.Seek(target);
      case OpSeekToFirst => it.SeekToFirst();
      case OpSeekToLast => it.SeekToLast();
      case OpNext => if it.Valid() { it.Next(); }
      case OpPrev => if it.Valid() { it.Prev(); }
      case OpArrive(e) => Arrive(it, e);
    }
  }

  /** Any sequence of calls, in both directions, with writers adding versions in between, shows after
      each call exactly what the plain cursor over the visible list shows. */
  method Replay(iter: InternalIterator, sequence: nat, ops: seq<Op>) returns (shown: seq<Option<(Key, Value)>>)
    requires TotalOrder(iter.lt) && Sorted(iter.lt, iter.entries) && iter.pos <= |iter.entries|
    requires Arrivals(Elements(iter.entries), sequence, ops)
    modifies iter
    ensures |shown| == |ops|
    ensures var view := old(View(iter.entries, sequence));
            forall n :: 0 <= n < |ops| ==> shown[n] == Shown(view, RunCursor(iter.lt, view, ops[..n + 1]))
  {
    hide View, Shown, StepCursor, Arrivals, TotalOrder, Sorted, Elements;
    var it := new DBIter(iter, sequence);
    ghost var view, first := View(iter.entries, sequence), Elements(iter.entries);
    shown := [];
    for n := 0 to |ops|
      invariant it.Good() && it.iter == iter && it.sequence == sequence && View(iter.entries, sequence) == view
      invariant Elements(iter.entries) == first + Arrived(ops[..n])
      invariant |shown| == n
      invariant RunCursor(iter.lt, view, ops[..n]) == CursorOf(it)
      invariant forall m :: 0 <= m < n ==> shown[m] == Shown(view, RunCursor(iter.lt, view, ops[..m + 1]))
    {
      ArrivalIsNew(iter.entries, first, sequence, ops, n);
      Apply(it, ops[n]);
      assert ops[..n + 1][..n] == ops[..n];
      assert Elements(iter.entries) == first + Arrived(ops[..n + 1]);
      shown := shown + [Current(it)];
    }
  }

  ghost function Arrived(ops: seq<Op>): set<Entry> {
    if ops == [] then {}
    else Arrived(ops[..|ops| - 1]) + if ops[|ops| - 1].OpArrive? then {ops[|ops| - 1].e} else {}
  }

  lemma {:induction false} ArrivedFrom(ops: seq<Op>)
    ensures forall f :: f in Arrived(ops) ==> exists m :: 0 <= m < |ops| && ops[m] == OpArrive(f)
  {
    if ops != [] {
      var n := |ops| - 1;
      ArrivedFrom(ops[..n]);
      forall f | f in Arrived(ops) ensures exists m :: 0 <= m < |ops| && ops[m] == OpArrive(f) {
        if f in Arrived(ops[..n]) {
          var m :| 0 <= m < n && ops[..n][m] == OpArrive(f);
          assert ops[m] == OpArrive(f);
        } else {
          assert ops[n] == OpArrive(f);
        }
      }
    }
  }

  lemma ArrivalIsNew(entries: seq<Entry>, first: set<Entry>, sequence: nat, ops: seq<Op>, n: nat)
    requires n < |ops| && Arrivals(first, sequence, ops) && Elements(entries) == first + Arrived(ops[..n])
    ensures ops[n].OpArrive? ==> ops[n].e.seqno > sequence && forall f :: f in entries ==> f.seqno != ops[n].e.seqno
  {
    ArrivedFrom(ops[..n]);
    forall f | f in entries && ops[n].OpArrive? ensures f.seqno != ops[n].e.seqno {
      assert f in Elements(entries);
      if f !in first {
        var m :| 0 <= m < n && ops[..n][m] == OpArrive(f);
        assert ops[m] == OpArrive(f);
      }
    }
  }

  /** What an iterator shows. */
  function Current(it: DBIter): (r: Option<(Key, Value)>)
    requires it.Good()
    reads it, it.iter
    ensures r == Shown(View(it.iter.entries, it.sequence), CursorOf(it))
  {
    if it.Valid() then Some((it.CurrentKey(), it.CurrentValue())) else None
  }
}
