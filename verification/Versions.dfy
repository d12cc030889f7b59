/** Versions: immutable sets of tables arranged in levels, searched from the newest data down. */
module Versions {
  import opened Entries

  datatype Table = Table(number: nat, level: nat, es: set<Entry>)

  type Version = set<Table>

  ghost function AllOf(v: Version): set<Entry> {
    set t, e | t in v && e in t.es :: e
  }

  ghost function AtLevel(v: Version, level: nat): Version {
    set t | t in v && t.level == level
  }

  /** Every entry of xs is newer than every entry of ys with the same user key. */
  ghost predicate Newer(xs: set<Entry>, ys: set<Entry>) {
    forall x, y :: x in xs && y in ys && x.key == y.key ==> x.seqno > y.seqno
  }

  /** A read looks into t before it looks into u. */
  predicate SearchedBefore(t: Table, u: Table) {
    t.level < u.level || (t.level == 0 && u.level == 0 && t.number > u.number)
  }

  /** Entries never hop across levels: what is searched first is newer, key by key. */
  ghost predicate LevelOrder(v: Version) {
    && (forall t, u :: t in v && u in v && SearchedBefore(t, u) ==> Newer(t.es, u.es))
    && (forall t, u :: t in v && u in v && t.number == u.number ==> t == u)
    && (forall t :: t in v ==> t.level < NUM_LEVELS)
  }

  // ----- Reading layer by layer -----

  /** Looking into newer data first, and into older data only when it holds no visible version, is
      reading the union. */
  lemma ReadLayered(newer: set<Entry>, older: set<Entry>, k: Key, s: nat)
    requires Newer(newer, older) && DistinctVersions(newer + older)
    ensures Read(newer + older, k, s) == if HasVersion(newer, k, s) then Read(newer, k, s) else Read(older, k, s)
  {
    if HasVersion(newer, k, s) {
      ReadsAgree(newer, newer + older, k, s);
    } else {
      ReadsAgree(older, newer + older, k, s);
    }
  }

  ghost predicate IsNewestTable(ts: set<Table>, t: Table) {
    t in ts && forall u :: u in ts ==> u.number <= t.number
  }

  lemma {:induction false} NewestTableExists(ts: set<Table>)
    requires ts != {}
    ensures exists t :: IsNewestTable(ts, t)
    decreases ts
  {
    var c :| c in ts;
    var rest := ts - {c};
    if rest == {} {
      assert forall u :: u in ts ==> u == c by {
        forall u | u in ts ensures u == c {
          assert u !in rest;
        }
      }
      assert IsNewestTable(ts, c);
    } else {
      NewestTableExists(rest);
      var n :| IsNewestTable(rest, n);
      assert IsNewestTable(ts, if n.number < c.number then c else n) by {
        forall u | u in ts ensures u.number <= n.number || u == c {
          assert u == c || u in rest;
        }
      }
    }
  }

  /** Level 0: the tables may overlap and are searched from the newest file to the oldest. `None`
      means that nothing was found, a deletion marker included in what can be found. */
  ghost function GetNewestFirst(ts: set<Table>, k: Key, s: nat): Option<Option<Value>>
    decreases ts
  {
    if ts == {} then
      None
    else
      NewestTableExists(ts);
      var t :| IsNewestTable(ts, t);
      if HasVersion(t.es, k, s) then Some(Read(t.es, k, s)) else GetNewestFirst(ts - {t}, k, s)
  }

  /** The other levels: the files of a level form one sorted run. */
  ghost function GetBelow(v: Version, level: nat, k: Key, s: nat): Option<Option<Value>>
    decreases NUM_LEVELS - level
  {
    if level >= NUM_LEVELS then None
    else if HasVersion(AllOf(AtLevel(v, level)), k, s) then Some(Read(AllOf(AtLevel(v, level)), k, s))
    else GetBelow(v, level + 1, k, s)
  }

  ghost function Get(v: Version, k: Key, s: nat): Option<Option<Value>> {
    var r := GetNewestFirst(AtLevel(v, 0), k, s);
    if r.Some? then r else GetBelow(v, 1, k, s)
  }

  /** Visible at s, and if so read as what. */
  ghost function Visible(es: set<Entry>, k: Key, s: nat): Option<Option<Value>> {
    if HasVersion(es, k, s) then Some(Read(es, k, s)) else None
  }

  lemma VisibleLayered(newer: set<Entry>, older: set<Entry>, k: Key, s: nat)
    requires Newer(newer, older) && DistinctVersions(newer + older)
    ensures Visible(newer + older, k, s) ==
            if Visible(newer, k, s).Some? then Visible(newer, k, s) else Visible(older, k, s)
  {
    ReadLayered(newer, older, k, s);
    assert HasVersion(newer + older, k, s) <==> HasVersion(newer, k, s) || HasVersion(older, k, s) by {
      assert forall e :: e in newer || e in older <==> e in newer + older;
    }
  }

  lemma {:induction false} NewestFirstIsVisible(ts: set<Table>, k: Key, s: nat)
    requires LevelOrder(ts) && (forall t :: t in ts ==> t.level == 0)
    requires DistinctVersions(AllOf(ts))
    ensures GetNewestFirst(ts, k, s) == Visible(AllOf(ts), k, s)
    decreases ts
  {
    if ts != {} {
      NewestTableExists(ts);
      var t :| IsNewestTable(ts, t) &&
               GetNewestFirst(ts, k, s) ==
                 if HasVersion(t.es, k, s) then Some(Read(t.es, k, s)) else GetNewestFirst(ts - {t}, k, s);
      var rest := ts - {t};
      assert AllOf(ts) == t.es + AllOf(rest);
      assert Newer(t.es, AllOf(rest)) by {
        forall x, y | x in t.es && y in AllOf(rest) && x.key == y.key ensures x.seqno > y.seqno {
          var u :| u in rest && y in u.es;
          assert SearchedBefore(t, u);
        }
      }
      NewestFirstIsVisible(rest, k, s);
      VisibleLayered(t.es, AllOf(rest), k, s);
    }
  }

  ghost function Below(v: Version, level: nat): Version {
    set t | t in v && t.level >= level
  }

  lemma ShallowerIsNewer(v: Version, level: nat)
    requires LevelOrder(v)
    ensures Newer(AllOf(AtLevel(v, level)), AllOf(Below(v, level + 1)))
    ensures AllOf(Below(v, level)) == AllOf(AtLevel(v, level)) + AllOf(Below(v, level + 1))
  {
    forall x, y | x in AllOf(AtLevel(v, level)) && y in AllOf(Below(v, level + 1)) && x.key == y.key
      ensures x.seqno > y.seqno
    {
      var t :| t in AtLevel(v, level) && x in t.es;
      var u :| u in Below(v, level + 1) && y in u.es;
      assert SearchedBefore(t, u);
    }
  }

  lemma {:induction false} BelowIsVisible(v: Version, level: nat, k: Key, s: nat)
    requires LevelOrder(v) && DistinctVersions(AllOf(v))
    ensures GetBelow(v, level, k, s) == Visible(AllOf(Below(v, level)), k, s)
    decreases NUM_LEVELS - level
  {
    if level < NUM_LEVELS {
      BelowIsVisible(v, level + 1, k, s);
      ShallowerIsNewer(v, level);
      VisibleLayered(AllOf(AtLevel(v, level)), AllOf(Below(v, level + 1)), k, s);
    } else {
      assert AllOf(Below(v, level)) == {};
    }
  }

  lemma AtLevelOrder(v: Version, level: nat)
    requires LevelOrder(v) && DistinctVersions(AllOf(v))
    ensures LevelOrder(AtLevel(v, level)) && DistinctVersions(AllOf(AtLevel(v, level)))
  {
  }

  /** Searching level by level, and level 0 file by file, finds what the whole version holds. */
  lemma GetIsVisible(v: Version, k: Key, s: nat)
    requires LevelOrder(v) && DistinctVersions(AllOf(v))
    ensures Get(v, k, s) == Visible(AllOf(v), k, s)
  {
    hide Visible, Newer, GetNewestFirst;
    AtLevelOrder(v, 0);
    NewestFirstIsVisible(AtLevel(v, 0), k, s);
    BelowIsVisible(v, 1, k, s);
    ShallowerIsNewer(v, 0);
    assert Below(v, 0) == v;
    VisibleLayered(AllOf(AtLevel(v, 0)), AllOf(Below(v, 1)), k, s);
  }

  // ----- Keeping the order -----

  /** What `PickLevelForMemTableOutput` guarantees of the level it picks: level 0, or no table at that
      level or a shallower one holds any of the keys. */
  ghost predicate Fits(v: Version, es: set<Entry>, level: nat) {
    && level < NUM_LEVELS
    && (level > 0 ==> forall t, x, y :: t in v && t.level <= level && x in t.es && y in es ==> x.key != y.key)
  }

  /** A flushed memtable, newer than everything flushed before, keeps the order wherever it fits. */
  lemma FlushKeepsOrder(v: Version, t: Table)
    requires LevelOrder(v) && Newer(t.es, AllOf(v)) && Fits(v, t.es, t.level)
    requires forall u :: u in v ==> u.number < t.number
    ensures LevelOrder(v + {t})
    ensures AllOf(v + {t}) == AllOf(v) + t.es
  {
    forall a, b | a in v + {t} && b in v + {t} && SearchedBefore(a, b) ensures Newer(a.es, b.es) {
      if a == t {
        assert b.es <= AllOf(v);
      }
    }
  }

  /** What a compaction's choice of inputs must guarantee: two adjacent levels, and whatever else at
      the upper of them or above it shares a key with an input is newer than the input. */
  ghost predicate Closed(v: Version, level: nat, inputs: Version) {
    && inputs <= v && level + 1 < NUM_LEVELS
    && (forall i :: i in inputs ==> i.level == level || i.level == level + 1)
    && (forall t, i :: t in v - inputs && i in inputs && t.level <= level ==> Newer(t.es, i.es))
  }

  /** Replacing the inputs by tables one level down that hold no other entries keeps the order. */
  lemma MergeKeepsOrder(v: Version, level: nat, inputs: Version, outputs: Version)
    requires LevelOrder(v) && Closed(v, level, inputs)
    requires AllOf(outputs) <= AllOf(inputs) && (forall t :: t in outputs ==> t.level == level + 1)
    requires forall t, u :: t in outputs && u in (v - inputs) + outputs && t.number == u.number ==> t == u
    ensures LevelOrder(v - inputs + outputs)
    ensures AllOf(v - inputs + outputs) == AllOf(v - inputs) + AllOf(outputs)
  {
    forall a, b | a in v - inputs + outputs && b in v - inputs + outputs && SearchedBefore(a, b)
      ensures Newer(a.es, b.es)
    {
      forall x, y | x in a.es && y in b.es && x.key == y.key ensures x.seqno > y.seqno {
        if a in outputs {
          assert x in AllOf(outputs);
          var i :| i in inputs && x in i.es;
          assert b !in outputs && SearchedBefore(i, b);
        } else if b in outputs {
          assert y in AllOf(outputs);
          var i :| i in inputs && y in i.es;
          assert a in v - inputs && Newer(a.es, i.es);
        }
      }
    }
  }
}
