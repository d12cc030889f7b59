/** Nuke's memory cache: a dictionary and a linked list over the same nodes, least recently used first. */
module LruCache {
  import opened Entries
  import opened L = LinkedList

  datatype Entry<K, V> = Entry(value: V, key: K, cost: int, expiration: Option<real>)

  // ----- What the cache holds, as a list from least to most recently used -----

  function Cost<K, V>(es: seq<Entry<K, V>>): int {
    if es == [] then 0 else es[0].cost + Cost(es[1..])
  }

  lemma {:induction false} CostConcat<K, V>(a: seq<Entry<K, V>>, b: seq<Entry<K, V>>)
    ensures Cost(a + b) == Cost(a) + Cost(b)
  {
    if a == [] {
      assert a + b == b;
    } else {
      assert (a + b)[1..] == a[1..] + b;
      CostConcat(a[1..], b);
    }
  }

  ghost predicate DistinctKeys<K, V>(es: seq<Entry<K, V>>) {
    forall i, j :: 0 <= i < j < |es| ==> es[i].key != es[j].key
  }

  /** The list without the entry of a key. */
  function Without<K(==), V>(es: seq<Entry<K, V>>, key: K): seq<Entry<K, V>> {
    if es == [] then [] else if es[0].key == key then es[1..] else [es[0]] + Without(es[1..], key)
  }

  lemma {:induction false} WithoutAt<K, V>(es: seq<Entry<K, V>>, m: nat)
    requires DistinctKeys(es) && m < |es|
    ensures Without(es, es[m].key) == es[..m] + es[m + 1..]
    ensures Cost(es[..m] + es[m + 1..]) == Cost(es) - es[m].cost
    decreases m
  {
    if m == 0 {
      assert es[..0] + es[1..] == es[1..];
    } else {
      assert es[0].key != es[m].key;
      DistinctRest(es);
      FirstStays(es, m);
      hide DistinctKeys;
      WithoutAt(es[1..], m - 1);
    }
  }

  lemma DistinctRest<K, V>(es: seq<Entry<K, V>>)
    requires DistinctKeys(es) && es != []
    ensures DistinctKeys(es[1..])
  {
  }

  lemma FirstStays<K, V>(es: seq<Entry<K, V>>, m: nat)
    requires 0 < m < |es|
    ensures var left := es[1..][..m - 1] + es[1..][m..];
            && es[1..][m - 1] == es[m] && es[..m] + es[m + 1..] == [es[0]] + left
            && Cost(es[..m] + es[m + 1..]) == es[0].cost + Cost(left)
  {
    hide Cost;
    var left := es[1..][..m - 1] + es[1..][m..];
    assert es[..m] + es[m + 1..] == [es[0]] + left;
    CostFirst(es[0], left);
  }

  lemma CostFirst<K, V>(e: Entry<K, V>, es: seq<Entry<K, V>>)
    ensures Cost([e] + es) == e.cost + Cost(es)
  {
  }

  lemma {:induction false} WithoutNothing<K, V>(es: seq<Entry<K, V>>, key: K)
    requires forall e :: e in es ==> e.key != key
    ensures Without(es, key) == es
  {
    if es != [] {
      assert es[0] in es;
      WithoutNothing(es[1..], key);
      assert es == [es[0]] + es[1..];
    }
  }

  /** Drops entries from the front while the rest costs too much. */
  function TrimToCost<K, V>(es: seq<Entry<K, V>>, limit: int): seq<Entry<K, V>> {
    if es != [] && Cost(es) > limit then TrimToCost(es[1..], limit) else es
  }

  function TrimToCount<K, V>(es: seq<Entry<K, V>>, limit: int): seq<Entry<K, V>> {
    if es != [] && |es| > limit then TrimToCount(es[1..], limit) else es
  }

  /** Trimming removes the shortest least-recently-used prefix that is enough, and nothing else. */
  lemma {:induction false} TrimIsShortest<K, V>(es: seq<Entry<K, V>>, limit: int) returns (n: nat)
    ensures n <= |es| && TrimToCost(es, limit) == es[n..]
    ensures n == |es| || Cost(es[n..]) <= limit
    ensures forall m :: 0 <= m < n ==> Cost(es[m..]) > limit
    ensures limit >= 0 ==> Cost(TrimToCost(es, limit)) <= limit
  {
    if es != [] && Cost(es) > limit {
      var k := TrimIsShortest(es[1..], limit);
      n := k + 1;
      assert es[1..][k..] == es[n..];
      forall m | 0 <= m < n ensures Cost(es[m..]) > limit {
        if m == 0 {
          assert es[0..] == es;
        } else {
          assert es[1..][m - 1..] == es[m..];
        }
      }
    } else {
      n := 0;
      assert es[0..] == es;
    }
  }

  lemma {:induction false} CountTrimIs<K, V>(es: seq<Entry<K, V>>, limit: int)
    ensures TrimToCount(es, limit) ==
            if |es| <= limit then es else if limit <= 0 then [] else es[|es| - limit..]
  {
    if es != [] && |es| > limit {
      CountTrimIs(es[1..], limit);
    }
  }

  /** Costs that are not negative only shrink when entries go. */
  lemma {:induction false} CountTrimKeepsCost<K, V>(es: seq<Entry<K, V>>, limit: int)
    requires forall e :: e in es ==> e.cost >= 0
    ensures Cost(TrimToCount(es, limit)) <= Cost(es)
  {
    if es != [] && |es| > limit {
      assert es[0] in es;
      CountTrimKeepsCost(es[1..], limit);
    }
  }

  /** What `set` leaves: the key's entry is the most recent one, and both limits are applied. */
  function AfterSet<K(==), V>(es: seq<Entry<K, V>>, e: Entry<K, V>, costLimit: int, countLimit: int): seq<Entry<K, V>> {
    TrimToCount(TrimToCost(Without(es, e.key) + [e], costLimit), countLimit)
  }

  lemma {:induction false} WithoutMembers<K, V>(es: seq<Entry<K, V>>, key: K)
    ensures forall x :: x in Without(es, key) ==> x in es
  {
    if es != [] && es[0].key != key {
      WithoutMembers(es[1..], key);
    }
  }

  /** Every `set` ends within both limits, when they and the costs are not negative. */
  lemma SetStaysWithinLimits<K, V>(es: seq<Entry<K, V>>, e: Entry<K, V>, costLimit: int, countLimit: int)
    requires costLimit >= 0 && countLimit >= 0 && e.cost >= 0 && forall x :: x in es ==> x.cost >= 0
    ensures var r := AfterSet(es, e, costLimit, countLimit); Cost(r) <= costLimit && |r| <= countLimit
  {
    var all := Without(es, e.key) + [e];
    WithoutMembers(es, e.key);
    var n := TrimIsShortest(all, costLimit);
    CountTrimKeepsCost(all[n..], countLimit);
    CountTrimIs(all[n..], countLimit);
  }

  // ----- The cache -----

  class Cache<K(==), V> {
    var map_: map<K, Node<Entry<K, V>>>
    const list: LinkedList<Entry<K, V>>
    var costLimit: int
    var countLimit: int
    var totalCost: int

    constructor (costLimit: int, countLimit: int)
      ensures Valid() && Held() == [] && fresh(list) && this.costLimit == costLimit && this.countLimit == countLimit
    {
      map_ := map[];
      list := new LinkedList<Entry<K, V>>();
      this.costLimit, this.countLimit, totalCost := costLimit, countLimit, 0;
    }

    static ghost function Values(ns: seq<Node<Entry<K, V>>>): seq<Entry<K, V>> {
      seq(|ns|, i requires 0 <= i < |ns| => ns[i].value)
    }

    /** The entries, least recently used first. */
    ghost function Held(): seq<Entry<K, V>>
      reads this, list
    {
      Values(list.nodes)
    }

    /** The dictionary finds exactly the list's nodes, each under its own key. */
    static ghost predicate Indexes(m: map<K, Node<Entry<K, V>>>, ns: seq<Node<Entry<K, V>>>) {
      && (forall i :: 0 <= i < |ns| ==> ns[i].value.key in m && m[ns[i].value.key] == ns[i])
      && (forall k :: k in m ==> m[k] in ns && m[k].value.key == k)
    }

    ghost predicate Valid()
      reads this, list, list.nodes
    {
      && list.Valid() && Indexes(map_, list.nodes)
      && DistinctKeys(Held()) && totalCost == Cost(Held())
    }

    /** How many entries there are: the source asks the dictionary. */
    function TotalCount(): (n: nat)
      requires Valid()
      reads this, list, list.nodes
      ensures n == |Held()|
    {
      CountIs(map_, list.nodes);
      |map_|
    }

    static lemma {:induction false} CountIs(m: map<K, Node<Entry<K, V>>>, ns: seq<Node<Entry<K, V>>>)
      requires Indexes(m, ns) && DistinctKeys(Values(ns))
      ensures |m| == |ns|
      decreases |ns|
    {
      if ns == [] {
        assert m.Keys == {};
      } else {
        var last, init := ns[|ns| - 1], ns[..|ns| - 1];
        var rest := m - {last.value.key};
        assert Values(ns)[|ns| - 1] == last.value;
        forall i | 0 <= i < |init| ensures init[i].value.key in rest && rest[init[i].value.key] == init[i] {
          assert Values(ns)[i].key != Values(ns)[|ns| - 1].key;
        }
        forall k | k in rest ensures rest[k] in init {
          assert m[k] in ns && m[k] != last;
        }
        assert forall i :: 0 <= i < |init| ==> Values(init)[i] == Values(ns)[i];
        CountIs(rest, init);
        assert m == rest[last.value.key := last];
      }
    }

    static lemma IndexesWithout(m: map<K, Node<Entry<K, V>>>, ns: seq<Node<Entry<K, V>>>, i: nat)
      requires Indexes(m, ns) && DistinctKeys(Values(ns)) && i < |ns|
      ensures var left, key := ns[..i] + ns[i + 1..], ns[i].value.key;
              && Indexes(m - {key}, left) && DistinctKeys(Values(left))
              && Values(left) == Values(ns)[..i] + Values(ns)[i + 1..]
    {
      var es := Values(ns);
      forall j | 0 <= j < |ns| && j != i ensures ns[j].value.key != ns[i].value.key {
        assert es[j].key != es[i].key;
      }
      assert Values(ns[..i] + ns[i + 1..]) == es[..i] + es[i + 1..];
    }

    /** Takes a node out of the list and the dictionary. */
    method RemoveNode(node: Node<Entry<K, V>>, ghost i: nat)
      requires Valid() && i < |list.nodes| && list.nodes[i] == node
      modifies this`map_, this`totalCost, list, list.nodes
      ensures Valid() && list.nodes == old(list.nodes)[..i] + old(list.nodes)[i + 1..]
      ensures Held() == Without(old(Held()), node.value.key) == old(Held())[..i] + old(Held())[i + 1..]
      ensures node.next == null && node.previous == null && map_ == old(map_) - {node.value.key}
    {
      hide Indexes, DistinctKeys, Cost, Without;
      ghost var es := Held();
      IndexesWithout(map_, list.nodes, i);
      WithoutAt(es, i);
      list.Remove(node, i);
      map_ := map_ - {node.value.key};
      totalCost := totalCost - node.value.cost;
    }

    /** The place of a key's node in the list. */
    ghost function PlaceOf(key: K): (i: nat)
      requires Valid() && key in map_
      reads this, list, list.nodes
      ensures i < |list.nodes| && list.nodes[i] == map_[key]
    {
      var i :| 0 <= i < |list.nodes| && list.nodes[i] == map_[key];
      i
    }

    lemma AbsentKey(key: K)
      requires Valid() && key !in map_
      ensures Without(Held(), key) == Held() && forall e :: e in Held() ==> e.key != key
    {
      forall e | e in Held() ensures e.key != key {
        var i :| 0 <= i < |Held()| && Held()[i] == e;
        assert list.nodes[i].value == e;
      }
      WithoutNothing(Held(), key);
    }

    static lemma IndexesWith(m: map<K, Node<Entry<K, V>>>, ns: seq<Node<Entry<K, V>>>, node: Node<Entry<K, V>>)
      requires Indexes(m, ns) && DistinctKeys(Values(ns)) && node.value.key !in m
      ensures Indexes(m[node.value.key := node], ns + [node]) && DistinctKeys(Values(ns + [node]))
      ensures Values(ns + [node]) == Values(ns) + [node.value]
      ensures Cost(Values(ns) + [node.value]) == Cost(Values(ns)) + node.value.cost
    {
      CostConcat(Values(ns), [node.value]);
      assert Cost([node.value]) == node.value.cost;
      var es := Values(ns);
      assert Values(ns + [node]) == es + [node.value];
      forall i | 0 <= i < |ns| ensures es[i].key != node.value.key {
        assert ns[i].value.key in m;
      }
      DistinctWith(es, node.value);
    }

    static lemma DistinctWith(es: seq<Entry<K, V>>, e: Entry<K, V>)
      requires DistinctKeys(es) && forall i :: 0 <= i < |es| ==> es[i].key != e.key
      ensures DistinctKeys(es + [e])
    {
    }

    /** Looks a key up. An expired entry is removed; a live one becomes the most recently used. */
    method Value(key: K, now: real) returns (r: Option<V>)
      requires Valid()
      modifies this, list, list.nodes
      ensures Valid() && unchanged(`costLimit) && unchanged(`countLimit)
      ensures r.None? ==> Held() == Without(old(Held()), key)
      ensures r.Some? ==> exists e ::
                Finds(old(Held()), key, now, e) && r.value == e.value && Held() == Without(old(Held()), key) + [e]
      ensures r.Some? <==> exists e :: Finds(old(Held()), key, now, e)
    {
      hide Indexes, DistinctKeys, Cost, Without;
      ghost var es := Held();
      if key !in map_ {
        AbsentKey(key);
        return None;
      }
      ghost var i := PlaceOf(key);
      var node := map_[key];
      KeyOf(key);
      OnlyEntry(es, i);
      RemoveNode(node, i);
      if IsExpired(node.value, now) {
        return None;
      }
      IndexesWith(map_, list.nodes, node);
      list.AppendNode(node);
      map_ := map_[key := node];
      totalCost := totalCost + node.value.cost;
      r := Some(node.value.value);
      assert Finds(es, key, now, node.value);
    }

    lemma KeyOf(key: K)
      requires Valid() && key in map_
      ensures map_[key].value.key == key && Held()[PlaceOf(key)] == map_[key].value && map_[key].value in Held()
    {
      hide DistinctKeys, Cost;
      assert Held()[PlaceOf(key)] in Held();
    }

    /** The entry of a key, still fresh. */
    static ghost predicate Finds(es: seq<Entry<K, V>>, key: K, now: real, e: Entry<K, V>) {
      e in es && e.key == key && !IsExpired(e, now)
    }

    static predicate IsExpired(e: Entry<K, V>, now: real) {
      e.expiration.Some? && e.expiration.value < now
    }

    static lemma OnlyEntry(es: seq<Entry<K, V>>, i: nat)
      requires DistinctKeys(es) && i < |es|
      ensures forall e :: e in es && e.key == es[i].key ==> e == es[i]
    {
    }

    method Set(value: V, key: K, cost: int, expiration: Option<real>)
      requires Valid()
      modifies this, list, list.nodes
      ensures Valid() && unchanged(`costLimit) && unchanged(`countLimit)
      ensures Held() == AfterSet(old(Held()), Entry.Entry(value, key, cost, expiration), costLimit, countLimit)
    {
      hide Indexes, DistinctKeys, Cost, Without, TrimToCost, TrimToCount;
      var e := Entry.Entry(value, key, cost, expiration);
      AddEntry(e);
      Trim();
    }

    method AddEntry(e: Entry<K, V>)
      requires Valid()
      modifies this`map_, this`totalCost, list, list.nodes
      ensures Valid() && Held() == Without(old(Held()), e.key) + [e]
      ensures fresh(set n | n in list.nodes && n !in old(list.nodes))
    {
      hide Indexes, DistinctKeys, Cost, Without;
      if e.key in map_ {
        KeyOf(e.key);
        RemoveNode(map_[e.key], PlaceOf(e.key));
      } else {
        AbsentKey(e.key);
      }
      ghost var m, ns := map_, list.nodes;
      var node := list.Append(e);
      IndexesWith(m, ns, node);
      map_ := map_[e.key := node];
      totalCost := totalCost + e.cost;
    }

    /** The source's `_trim`: both limits, one after the other. */
    method Trim()
      requires Valid()
      modifies this`map_, this`totalCost, list, list.nodes
      ensures Valid() && Held() == TrimToCount(TrimToCost(old(Held()), costLimit), countLimit)
    {
      hide Indexes, DistinctKeys, Cost, Without, TrimToCost, TrimToCount;
      ghost var k := TrimCost(costLimit);
      k := TrimCount(countLimit);
    }

    method TrimCost(limit: int) returns (ghost k: nat)
      requires Valid()
      modifies this`map_, this`totalCost, list, list.nodes
      ensures Valid() && Held() == TrimToCost(old(Held()), limit)
      ensures k <= |old(list.nodes)| && list.nodes == old(list.nodes)[k..]
    {
      hide Indexes, DistinctKeys, Cost, Without, TrimToCost;
      k := 0;
      while totalCost > limit && list.first != null
        invariant Valid() && TrimToCost(old(Held()), limit) == TrimToCost(Held(), limit)
        invariant k <= |old(list.nodes)| && list.nodes == old(list.nodes)[k..]
        decreases |list.nodes|
      {
        FirstIsNull();
        TrimSteps(Held(), limit);
        RemoveFirst();
        k := k + 1;
      }
      FirstIsNull();
      TrimSteps(Held(), limit);
    }

    method TrimCount(limit: int) returns (ghost k: nat)
      requires Valid()
      modifies this`map_, this`totalCost, list, list.nodes
      ensures Valid() && Held() == TrimToCount(old(Held()), limit)
      ensures k <= |old(list.nodes)| && list.nodes == old(list.nodes)[k..]
    {
      hide Indexes, DistinctKeys, Cost, Without, TrimToCount;
      k := 0;
      while TotalCount() > limit && list.first != null
        invariant Valid() && TrimToCount(old(Held()), limit) == TrimToCount(Held(), limit)
        invariant k <= |old(list.nodes)| && list.nodes == old(list.nodes)[k..]
        decreases |list.nodes|
      {
        FirstIsNull();
        TrimSteps(Held(), limit);
        RemoveFirst();
        k := k + 1;
      }
      FirstIsNull();
      TrimSteps(Held(), limit);
    }

    /** Takes the least recently used entry out. */
    method RemoveFirst()
      requires Valid() && list.first != null
      modifies this`map_, this`totalCost, list, list.nodes
      ensures Valid() && |old(list.nodes)| > 0 && list.nodes == old(list.nodes)[1..] && Held() == old(Held())[1..]
    {
      hide Indexes, DistinctKeys, Cost, Without;
      ghost var es, ns := Held(), list.nodes;
      RemoveNode(list.first, 0);
      assert es[..0] + es[1..] == es[1..] && ns[..0] + ns[1..] == ns[1..];
    }

    static lemma TrimSteps(es: seq<Entry<K, V>>, limit: int)
      ensures TrimToCost(es, limit) == if Cost(es) > limit && es != [] then TrimToCost(es[1..], limit) else es
      ensures TrimToCount(es, limit) == if |es| > limit && es != [] then TrimToCount(es[1..], limit) else es
    {
    }

    lemma FirstIsNull()
      requires Valid()
      ensures list.first == null <==> Held() == []
    {
      hide Indexes, DistinctKeys, Cost;
    }

    /** Changing a limit trims at once. */
    method SetCostLimit(limit: int)
      requires Valid()
      modifies this, list, list.nodes
      ensures Valid() && costLimit == limit && unchanged(`countLimit)
      ensures Held() == TrimToCount(TrimToCost(old(Held()), limit), countLimit)
    {
      hide Indexes, DistinctKeys, Cost, TrimToCost, TrimToCount;
      costLimit := limit;
      Trim();
    }

    method SetCountLimit(limit: int)
      requires Valid()
      modifies this, list, list.nodes
      ensures Valid() && countLimit == limit && unchanged(`costLimit)
      ensures Held() == TrimToCount(TrimToCost(old(Held()), costLimit), limit)
    {
      hide Indexes, DistinctKeys, Cost, TrimToCost, TrimToCount;
      countLimit := limit;
      Trim();
    }

    method RemoveValue(key: K) returns (r: Option<V>)
      requires Valid()
      modifies this, list, list.nodes
      ensures Valid() && Held() == Without(old(Held()), key) && unchanged(`costLimit) && unchanged(`countLimit)
      ensures r.Some? <==> exists e :: e in old(Held()) && e.key == key
      ensures r.Some? ==> exists e :: e in old(Held()) && e.key == key && e.value == r.value
    {
      hide Indexes, DistinctKeys, Cost, Without;
      if key !in map_ {
        AbsentKey(key);
        return None;
      }
      var node := map_[key];
      ghost var i := PlaceOf(key);
      KeyOf(key);
      assert Held()[i] == node.value && Held()[i] in Held();
      RemoveNode(node, i);
      r := Some(node.value.value);
    }

    method RemoveAll()
      requires Valid()
      modifies this, list, list.nodes
      ensures Valid() && Held() == [] && unchanged(`costLimit) && unchanged(`countLimit)
    {
      map_ := map[];
      list.RemoveAll();
      totalCost := 0;
    }
  }
}
