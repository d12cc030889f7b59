/** Group commit: many writers, one leader at a time, each batch written exactly once. */
module WriteQueue {
  import opened Entries
  import W = WriteBatch

  const KILOBYTES := 1024

  // ----- The grouping rule -----

  /** What a writer asks for: its batch, if it has one, the batch's size, and whether to sync. */
  datatype Request = Request(ops: Option<seq<W.Op>>, bytes: nat, sync: bool)

  /** How large a group may grow; a small first batch is not to be slowed down much. */
  function SizeLimit(first: nat): nat {
    if first <= 128 * KILOBYTES then first + 128 * KILOBYTES else 1024 * KILOBYTES
  }

  /** The operations of some requests, in queue order. */
  function Combined(rs: seq<Request>): seq<W.Op> {
    if rs == [] then [] else Combined(rs[..|rs| - 1]) + OpsOf(rs[|rs| - 1])
  }

  function OpsOf(r: Request): seq<W.Op> {
    if r.ops.Some? then r.ops.value else []
  }

  function TotalBytes(rs: seq<Request>): nat {
    if rs == [] then 0 else TotalBytes(rs[..|rs| - 1]) + if rs[|rs| - 1].ops.Some? then rs[|rs| - 1].bytes else 0
  }

  /** The request at position n must wait for a later group. */
  predicate Stops(rs: seq<Request>, n: nat)
    requires 0 < n < |rs|
  {
    || (rs[n].sync && !rs[0].sync)
    || (rs[n].ops.Some? && TotalBytes(rs[..n + 1]) > SizeLimit(rs[0].bytes))
  }

  /** A group: as many requests from the front as the rule allows. */
  predicate IsGroup(rs: seq<Request>, n: nat) {
    && 0 < n <= |rs|
    && (forall i :: 0 < i < n ==> !Stops(rs, i))
    && (n < |rs| ==> Stops(rs, n))
  }

  lemma OneMore(rs: seq<Request>, n: nat)
    requires n < |rs|
    ensures Combined(rs[..n + 1]) == Combined(rs[..n]) + OpsOf(rs[n])
    ensures TotalBytes(rs[..n + 1]) == TotalBytes(rs[..n]) + if rs[n].ops.Some? then rs[n].bytes else 0
  {
    assert rs[..n + 1][..n] == rs[..n];
  }

  /** A group led by a writer that does not sync holds nobody who asked for it. */
  lemma GroupSyncsTogether(rs: seq<Request>, n: nat)
    requires IsGroup(rs, n)
    ensures !rs[0].sync ==> forall i :: 0 <= i < n ==> !rs[i].sync
  {
    forall i | 0 <= i < n && !rs[0].sync ensures !rs[i].sync {
      assert i > 0 ==> !Stops(rs, i);
    }
  }

  /** A group stays within its size limit, unless its first batch alone exceeds it. */
  lemma {:induction false} GroupSizeBounded(rs: seq<Request>, n: nat)
    requires rs != [] && rs[0].ops.Some? && 0 < n <= |rs| && forall i :: 0 < i < n ==> !Stops(rs, i)
    ensures TotalBytes(rs[..n]) == rs[0].bytes || TotalBytes(rs[..n]) <= SizeLimit(rs[0].bytes)
  {
    OneMore(rs, n - 1);
    if n > 1 {
      GroupSizeBounded(rs, n - 1);
      assert !Stops(rs, n - 1);
    } else {
      assert rs[..0] == [];
    }
  }

  // ----- Building a group -----

  class Writer {
    const batch: W.WriteBatch?
    const sync: bool

    constructor (batch: W.WriteBatch?, sync: bool)
      ensures this.batch == batch && this.sync == sync
    {
      this.batch, this.sync := batch, sync;
    }

    /** The writer's request is rs[i], as long as its batch is left alone. */
    ghost predicate Asks(r: Request)
      reads if batch != null then {batch} else {}
    {
      && r.sync == sync && (r.ops.Some? <==> batch != null)
      && (batch != null ==> batch.Valid() && r.ops == Some(batch.ops) && r.bytes == |batch.rep|)
    }
  }

  /** The source's BuildBatchGroup. The batches of a group of several are copied, in queue order, into
      the temporary batch; that of a group of one is used as it is. */
  method BuildBatchGroup(writers: seq<Writer>, tmp: W.WriteBatch, ghost rs: seq<Request>)
    returns (result: W.WriteBatch, n: nat)
    requires |writers| == |rs| > 0 && writers[0].batch != null && tmp.Valid() && tmp.ops == []
    requires forall i :: 0 <= i < |writers| ==> writers[i].Asks(rs[i]) && writers[i].batch != tmp
    requires |Combined(rs)| < 0x8000_0000
    modifies tmp
    ensures IsGroup(rs, n) && result.Valid() && result.ops == Combined(rs[..n]) && tmp.Valid()
    ensures result == tmp || (result == writers[0].batch && tmp.ops == [])
  {
    hide Combined, TotalBytes, SizeLimit, W.Contents, W.ValidOps;
    var first := writers[0];
    result := first.batch;
    var size := |first.batch.rep|;
    var maxSize := 1024 * KILOBYTES;
    if size <= 128 * KILOBYTES {
      maxSize := size + 128 * KILOBYTES;
    }
    LimitOf(rs[0].bytes, maxSize);
    n := 1;
    JustOne(rs);
    while n < |writers|
      invariant 0 < n <= |writers| && result.Valid() && tmp.Valid() && maxSize == SizeLimit(rs[0].bytes)
      invariant forall i :: 0 <= i < |writers| ==> writers[i].Asks(rs[i])
      invariant result == tmp || (result == first.batch && tmp.ops == [])
      invariant result.ops == Combined(rs[..n]) && size == TotalBytes(rs[..n])
      invariant forall i :: 0 < i < n ==> !Stops(rs, i)
    {
      var w := writers[n];
      assert w.Asks(rs[n]);
      OneMore(rs, n);
      if w.sync && !first.sync {
        break;
      }
      if w.batch != null {
        size := size + |w.batch.rep|;
        if size > maxSize {
          break;
        }
        PrefixIsSmall(rs, n);
        if result == first.batch {
          result := tmp;
          result.Append(first.batch);
        }
        result.Append(w.batch);
      }
      n := n + 1;
    }
  }

  lemma LimitOf(first: nat, limit: nat)
    requires limit == if first <= 128 * KILOBYTES then first + 128 * KILOBYTES else 1024 * KILOBYTES
    ensures limit == SizeLimit(first)
  {
  }

  lemma JustOne(rs: seq<Request>)
    requires rs != [] && rs[0].ops.Some?
    ensures Combined(rs[..1]) == rs[0].ops.value && TotalBytes(rs[..1]) == rs[0].bytes
  {
    assert rs[..1][..0] == [];
  }

  lemma {:induction false} PrefixIsSmall(rs: seq<Request>, n: nat)
    requires n < |rs|
    ensures |Combined(rs[..n + 1])| <= |Combined(rs)|
    ensures |Combined(rs[..n])| + |OpsOf(rs[n])| <= |Combined(rs)|
    decreases |rs| - n
  {
    OneMore(rs, n);
    if n + 1 < |rs| {
      PrefixIsSmall(rs, n + 1);
    } else {
      assert rs[..n + 1] == rs;
    }
  }

  // ----- The queue as a transition system -----

  datatype Waiter = Waiter(id: nat, request: Request)

  /** Where a thread is inside Write. */
  datatype Local = Parked | Preparing | Committing(members: seq<Waiter>, last: nat) | Returned(ok: bool)

  /** A group that was popped: its members, the sequence numbers it took, its status, and whether the
      log was synced for it. */
  datatype Group = Group(members: seq<Waiter>, first: nat, ops: seq<W.Op>, ok: bool, synced: bool)

  /** `waiting` is the deque, `done` what leaders told their followers; `arrived` and `groups` are
      history. */
  datatype Queue = Queue(waiting: seq<Waiter>, threads: map<nat, Local>, done: map<nat, bool>, lastSequence: nat,
                         tmp: seq<W.Op>, arrived: seq<Waiter>, groups: seq<Group>)

  datatype Event =
    | Arrive(w: Waiter)
    | Wake(id: nat)
    | Refuse(id: nat)
    | PassNull(id: nat)
    | Build(id: nat, n: nat)
    | Commit(id: nat, logOk: bool, syncOk: bool, insertOk: bool)

  function Initial(): Queue {
    Queue([], map[], map[], 0, [], [], [])
  }

  function Requests(ws: seq<Waiter>): (rs: seq<Request>)
    ensures |rs| == |ws| && forall i :: 0 <= i < |ws| ==> rs[i] == ws[i].request
  {
    seq(|ws|, i requires 0 <= i < |ws| => ws[i].request)
  }

  /** A follower's batch goes into the temporary batch. */
  predicate UsesTmp(members: seq<Waiter>) {
    exists i :: 1 <= i < |members| && members[i].request.ops.Some?
  }

  predicate Allowed(q: Queue, e: Event) {
    match e
    case Arrive(w) => w.id !in q.threads
    case Wake(id) =>
      id in q.threads && q.threads[id] == Parked && (id in q.done || (q.waiting != [] && q.waiting[0].id == id))
    case Refuse(id) => id in q.threads && q.threads[id] == Preparing && q.waiting != []
    case PassNull(id) =>
      id in q.threads && q.threads[id] == Preparing && q.waiting != [] && q.waiting[0].request.ops.None?
    case Build(id, n) =>
      && id in q.threads && q.threads[id] == Preparing && q.waiting != [] && q.waiting[0].request.ops.Some?
      && IsGroup(Requests(q.waiting), n)
    case Commit(id, _, _, _) =>
      id in q.threads && q.threads[id].Committing? && 0 < |q.threads[id].members| <= |q.waiting|
  }

  /** Pops the group's members and tells the followers. */
  function Popped(q: Queue, id: nat, n: nat, first: nat, ops: seq<W.Op>, ok: bool, synced: bool): Queue
    requires 0 < n <= |q.waiting|
  {
    var members := q.waiting[..n];
    q.(waiting := q.waiting[n..], threads := q.threads[id := Returned(ok)],
       done := q.done + map w | w in members && w.id != id :: w.id := ok,
       groups := q.groups + [Group(members, first, ops, ok, synced)])
  }

  function Act(q: Queue, e: Event): Queue
    requires Allowed(q, e)
  {
    match e
    case Arrive(w) => q.(waiting := q.waiting + [w], threads := q.threads[w.id := Parked], arrived := q.arrived + [w])
    case Wake(id) => q.(threads := q.threads[id := if id in q.done then Returned(q.done[id]) else Preparing])
    case Refuse(id) => Popped(q, id, 1, q.lastSequence + 1, [], false, false)
    case PassNull(id) => Popped(q, id, 1, q.lastSequence + 1, [], true, false)
    case Build(id, n) =>
      var members := q.waiting[..n];
      q.(threads := q.threads[id := Committing(members, q.lastSequence)],
         tmp := if UsesTmp(members) then q.tmp + Combined(Requests(members)) else q.tmp)
    case Commit(id, logOk, syncOk, insertOk) =>
      var local := q.threads[id];
      var sync := q.waiting[0].request.sync;
      var ops := Combined(Requests(local.members));
      var ok := logOk && (sync ==> syncOk) && insertOk;
      Popped(q.(tmp := if UsesTmp(local.members) then [] else q.tmp, lastSequence := local.last + |ops|),
             id, |local.members|, local.last + 1, ops, ok, sync && logOk && syncOk)
  }

  // ----- What every run keeps -----

  function Members(groups: seq<Group>): seq<Waiter> {
    if groups == [] then [] else Members(groups[..|groups| - 1]) + groups[|groups| - 1].members
  }

  ghost predicate DistinctIds(ws: seq<Waiter>) {
    forall i, j :: 0 <= i < j < |ws| ==> ws[i].id != ws[j].id
  }

  /** The groups' sequence ranges follow one another without gap or overlap, failed groups included. */
  predicate Consecutive(groups: seq<Group>, last: nat)
    decreases |groups|
  {
    if groups == [] then last == 0
    else
      var g := groups[|groups| - 1];
      last + 1 == g.first + |g.ops| && g.first > 0 && Consecutive(groups[..|groups| - 1], g.first - 1)
  }

  /** Only the thread at the front of the queue ever leads. */
  ghost predicate OneLeader(q: Queue) {
    forall id :: id in q.threads && (q.threads[id].Preparing? || q.threads[id].Committing?) ==>
      q.waiting != [] && q.waiting[0].id == id
  }

  ghost predicate CommitOk(q: Queue) {
    && (forall id :: id in q.threads && q.threads[id].Committing? ==>
          var ms := q.threads[id].members;
          && 0 < |ms| && ms <= q.waiting && q.threads[id].last == q.lastSequence
          && (!ms[0].request.sync ==> forall m :: m in ms ==> !m.request.sync)
          && q.tmp == if UsesTmp(ms) then Combined(Requests(ms)) else [])
    && ((forall id :: id in q.threads ==> !q.threads[id].Committing?) ==> q.tmp == [])
  }

  /** Those still queued have not been told anything. */
  ghost predicate WaitingOk(q: Queue) {
    forall w :: w in q.waiting ==> w.id in q.threads && !q.threads[w.id].Returned? && w.id !in q.done
  }

  /** Every member of a popped group hears the group's status, now or when it wakes. */
  ghost predicate Told(q: Queue, id: nat, ok: bool) {
    && id in q.threads
    && (q.threads[id] == Returned(ok) || (q.threads[id] == Parked && id in q.done && q.done[id] == ok))
    && (id in q.done ==> q.done[id] == ok)
  }

  /** A group takes sequence numbers for all its members' operations, unless it was refused before it
      was built. */
  predicate Written(g: Group) {
    g.ops == Combined(Requests(g.members)) || (!g.ok && |g.members| == 1 && g.ops == [])
  }

  ghost predicate GroupsOk(q: Queue) {
    && (forall g :: g in q.groups ==> Written(g))
    &&
    forall g, m {:trigger g in q.groups, m in g.members} :: g in q.groups && m in g.members ==>
      Told(q, m.id, g.ok) && (m.request.sync && m.request.ops.Some? && g.ok ==> g.synced)
  }

  ghost predicate ThreadsArrived(ids: set<nat>, arrived: seq<Waiter>) {
    forall id :: id in ids <==> exists w :: w in arrived && w.id == id
  }

  ghost predicate Inv(q: Queue) {
    && q.arrived == Members(q.groups) + q.waiting && DistinctIds(q.arrived)
    && ThreadsArrived(q.threads.Keys, q.arrived) && q.done.Keys <= q.threads.Keys
    && Consecutive(q.groups, q.lastSequence)
    && OneLeader(q) && CommitOk(q) && WaitingOk(q) && GroupsOk(q)
  }

  lemma MembersAppend(groups: seq<Group>, g: Group)
    ensures Members(groups + [g]) == Members(groups) + g.members
  {
    assert (groups + [g])[..|groups|] == groups;
  }

  lemma {:induction false} MemberArrived(groups: seq<Group>, g: Group, m: Waiter)
    requires g in groups && m in g.members
    ensures m in Members(groups)
  {
    var init, last := groups[..|groups| - 1], groups[|groups| - 1];
    assert groups == init + [last];
    if g != last {
      MemberArrived(init, g, m);
    }
  }

  /** An id belongs to one waiter: nobody in a popped group is still waiting. */
  lemma GroupNotWaiting(q: Queue, g: Group, m: Waiter, w: Waiter)
    requires q.arrived == Members(q.groups) + q.waiting && DistinctIds(q.arrived)
    requires g in q.groups && m in g.members && w in q.waiting
    ensures m.id != w.id
  {
    MemberArrived(q.groups, g, m);
    var i :| 0 <= i < |Members(q.groups)| && Members(q.groups)[i] == m;
    var j :| 0 <= j < |q.waiting| && q.waiting[j] == w;
    assert q.arrived[i] == m && q.arrived[|Members(q.groups)| + j] == w;
  }

  lemma WaitingDistinct(q: Queue)
    requires q.arrived == Members(q.groups) + q.waiting && DistinctIds(q.arrived)
    ensures DistinctIds(q.waiting)
  {
    var n := |Members(q.groups)|;
    forall i, j | 0 <= i < j < |q.waiting| ensures q.waiting[i].id != q.waiting[j].id {
      assert q.arrived[n + i] == q.waiting[i] && q.arrived[n + j] == q.waiting[j];
    }
  }

  /** A commit under way is not disturbed by arrivals at the back or by threads that wake. */
  lemma CommitStays(q: Queue, q': Queue)
    requires CommitOk(q) && q.waiting <= q'.waiting && q'.tmp == q.tmp && q'.lastSequence == q.lastSequence
    requires forall id :: id in q'.threads && q'.threads[id].Committing? ==>
               id in q.threads && q.threads[id] == q'.threads[id]
    requires forall id :: id in q.threads && q.threads[id].Committing? ==>
               id in q'.threads && q.threads[id] == q'.threads[id]
    ensures CommitOk(q')
  {
    hide UsesTmp, Combined;
  }

  lemma GroupsStay(q: Queue, q': Queue)
    requires GroupsOk(q) && q'.groups == q.groups
    requires forall g, m :: g in q.groups && m in g.members && Told(q, m.id, g.ok) ==> Told(q', m.id, g.ok)
    ensures GroupsOk(q')
  {
    hide Told, Written;
  }

  lemma ArrivedIds(arrived: seq<Waiter>, w: Waiter, ids: set<nat>)
    requires DistinctIds(arrived) && ThreadsArrived(ids, arrived) && w.id !in ids
    ensures DistinctIds(arrived + [w]) && ThreadsArrived(ids + {w.id}, arrived + [w])
  {
    forall id ensures id in ids + {w.id} <==> exists v :: v in arrived + [w] && v.id == id {
      if id == w.id {
        assert w in arrived + [w];
      } else if id in ids {
        var v :| v in arrived && v.id == id;
        assert v in arrived + [w];
      }
    }
    forall i | 0 <= i < |arrived| ensures arrived[i].id != w.id {
      assert arrived[i] in arrived;
    }
  }

  lemma ArriveKeeps(q: Queue, w: Waiter)
    requires Inv(q) && Allowed(q, Arrive(w))
    ensures Inv(Act(q, Arrive(w)))
  {
    hide Consecutive, Members, CommitOk, GroupsOk, DistinctIds, Requests, ThreadsArrived;
    var q' := Act(q, Arrive(w));
    ArrivedIds(q.arrived, w, q.threads.Keys);
    assert q'.threads.Keys == q.threads.Keys + {w.id};
    CommitStays(q, q');
    GroupsStay(q, q');
  }

  lemma WakeKeeps(q: Queue, id: nat)
    requires Inv(q) && Allowed(q, Wake(id))
    ensures Inv(Act(q, Wake(id)))
  {
    hide Consecutive, Members, CommitOk, GroupsOk, DistinctIds, ThreadsArrived;
    var q' := Act(q, Wake(id));
    assert q'.threads.Keys == q.threads.Keys;
    forall g, m | g in q.groups && m in g.members && Told(q, m.id, g.ok) ensures Told(q', m.id, g.ok) {
      forall w | w in q.waiting ensures m.id != w.id {
        GroupNotWaiting(q, g, m, w);
      }
    }
    GroupsStay(q, q');
    CommitStays(q, q');
  }

  lemma BuildCommits(q: Queue, q': Queue, id: nat, n: nat)
    requires CommitOk(q) && OneLeader(q) && q.waiting != [] && q.waiting[0].id == id && IsGroup(Requests(q.waiting), n)
    requires id in q.threads && q.threads[id].Preparing?
    requires var ms := q.waiting[..n];
             && q'.waiting == q.waiting && q'.lastSequence == q.lastSequence
             && q'.threads == q.threads[id := Committing(ms, q.lastSequence)]
             && q'.tmp == if UsesTmp(ms) then q.tmp + Combined(Requests(ms)) else q.tmp
    ensures CommitOk(q')
  {
    hide UsesTmp, Combined;
    assert forall k :: k in q.threads ==> !q.threads[k].Committing?;
    GroupSyncsTogether(Requests(q.waiting), n);
    assert [] + Combined(Requests(q.waiting[..n])) == Combined(Requests(q.waiting[..n]));
    forall m | m in q.waiting[..n] && !q.waiting[0].request.sync ensures !m.request.sync {
      var i :| 0 <= i < n && q.waiting[i] == m;
    }
    assert q'.threads[id].Committing?;
  }

  lemma BuildKeeps(q: Queue, id: nat, n: nat)
    requires Inv(q) && Allowed(q, Build(id, n))
    ensures Inv(Act(q, Build(id, n)))
  {
    hide Consecutive, Members, CommitOk, GroupsOk, IsGroup, UsesTmp, Combined, DistinctIds, ThreadsArrived;
    var q' := Act(q, Build(id, n));
    assert q'.threads.Keys == q.threads.Keys;
    BuildCommits(q, q', id, n);
    GroupsStay(q, q');
  }

  /** Popping a group from the front of a consistent queue. */
  lemma PopKeeps(q: Queue, p: Queue, id: nat, n: nat, ops: seq<W.Op>, ok: bool, synced: bool)
    requires Inv(q) && 0 < n <= |q.waiting| && q.waiting[0].id == id
    requires p == q.(tmp := [], lastSequence := q.lastSequence + |ops|)
    requires forall m :: m in q.waiting[..n] && m.request.sync && m.request.ops.Some? && ok ==> synced
    requires Written(Group(q.waiting[..n], q.lastSequence + 1, ops, ok, synced))
    ensures Inv(Popped(p, id, n, q.lastSequence + 1, ops, ok, synced))
  {
    hide WaitingOk, OneLeader, GroupsOk, DistinctIds, CommitOk, Written, ThreadsArrived, Members, Consecutive, Told;
    var q' := Popped(p, id, n, q.lastSequence + 1, ops, ok, synced);
    var g := Group(q.waiting[..n], q.lastSequence + 1, ops, ok, synced);
    WaitingDistinct(q);
    PopMembers(q, n, g);
    PopTells(q, q', id, n, ok);
    PopEndsCommit(q, q', id);
    PopGroups(q, q', id, g);
    PopDone(q, q', id, n, ok);
  }

  /** A group of the first n waiters takes its place after the others. */
  lemma PopMembers(q: Queue, n: nat, g: Group)
    requires n <= |q.waiting| && g.members == q.waiting[..n]
    requires g.first == q.lastSequence + 1 && Consecutive(q.groups, q.lastSequence)
    ensures Members(q.groups) + q.waiting == Members(q.groups + [g]) + q.waiting[n..]
    ensures Consecutive(q.groups + [g], q.lastSequence + |g.ops|)
  {
    hide Members;
    MembersAppend(q.groups, g);
    assert q.waiting[..n] + q.waiting[n..] == q.waiting;
    assert (q.groups + [g])[..|q.groups|] == q.groups;
  }

  lemma PopDone(q: Queue, q': Queue, id: nat, n: nat, ok: bool)
    requires WaitingOk(q) && 0 < n <= |q.waiting| && q.waiting[0].id == id
    requires q'.threads == q.threads[id := Returned(ok)]
    requires q'.done == q.done + map w | w in q.waiting[..n] && w.id != id :: w.id := ok
    requires q.done.Keys <= q.threads.Keys
    ensures q'.done.Keys <= q'.threads.Keys == q.threads.Keys
  {
    assert forall w :: w in q.waiting[..n] ==> w in q.waiting;
    assert q.waiting[0] in q.waiting;
  }

  lemma PopEndsCommit(q: Queue, q': Queue, id: nat)
    requires OneLeader(q) && q.waiting != [] && q.waiting[0].id == id && q'.tmp == []
    requires id in q'.threads && q'.threads[id].Returned? && q'.threads == q.threads[id := q'.threads[id]]
    ensures CommitOk(q')
  {
    hide UsesTmp, Combined;
    assert forall k :: k in q'.threads ==> !q'.threads[k].Committing?;
  }

  lemma PopGroups(q: Queue, q': Queue, id: nat, g': Group)
    requires GroupsOk(q) && q.arrived == Members(q.groups) + q.waiting && DistinctIds(q.arrived)
    requires q.waiting != [] && q.waiting[0].id == id && g'.members <= q.waiting && q'.groups == q.groups + [g']
    requires q'.threads == q.threads[id := Returned(g'.ok)]
    requires q'.done == q.done + map w | w in g'.members && w.id != id :: w.id := g'.ok
    requires Written(g') && forall m :: m in g'.members ==> Told(q', m.id, g'.ok)
    requires forall m :: m in g'.members && m.request.sync && m.request.ops.Some? && g'.ok ==> g'.synced
    ensures GroupsOk(q')
  {
    hide DistinctIds, Members, Written, Told;
    forall g, m | g in q'.groups && m in g.members
      ensures Told(q', m.id, g.ok) && (m.request.sync && m.request.ops.Some? && g.ok ==> g.synced)
    {
      if g in q.groups {
        StillTold(q, q', id, g', g, m);
      } else {
        assert g == g';
      }
    }
  }

  /** What an earlier group's members were told does not change. */
  lemma StillTold(q: Queue, q': Queue, id: nat, g': Group, g: Group, m: Waiter)
    requires q.arrived == Members(q.groups) + q.waiting && DistinctIds(q.arrived)
    requires q.waiting != [] && q.waiting[0].id == id && g'.members <= q.waiting
    requires q'.threads == q.threads[id := Returned(g'.ok)]
    requires q'.done == q.done + map w | w in g'.members && w.id != id :: w.id := g'.ok
    requires g in q.groups && m in g.members && Told(q, m.id, g.ok)
    ensures Told(q', m.id, g.ok)
  {
    hide DistinctIds, Members;
    forall w | w in q.waiting ensures m.id != w.id {
      GroupNotWaiting(q, g, m, w);
    }
    assert q.waiting[0] in q.waiting;
    assert forall w :: w in g'.members ==> w in q.waiting;
  }

  lemma PopTells(q: Queue, q': Queue, id: nat, n: nat, ok: bool)
    requires DistinctIds(q.waiting) && WaitingOk(q) && OneLeader(q) && 0 < n <= |q.waiting| && q.waiting[0].id == id
    requires q'.waiting == q.waiting[n..] && q'.threads == q.threads[id := Returned(ok)]
    requires q'.done == q.done + map w | w in q.waiting[..n] && w.id != id :: w.id := ok
    ensures forall m :: m in q.waiting[..n] ==> Told(q', m.id, ok)
    ensures WaitingOk(q') && OneLeader(q')
  {
    assert q.waiting[0] in q.waiting;
    forall m | m in q.waiting[..n] ensures Told(q', m.id, ok) {
      assert m in q.waiting;
      if m.id != id {
        assert m.id in q'.done;
      }
    }
    PopLeaves(q, q', id, n, ok);
  }

  lemma PopLeaves(q: Queue, q': Queue, id: nat, n: nat, ok: bool)
    requires DistinctIds(q.waiting) && WaitingOk(q) && 0 < n <= |q.waiting| && q.waiting[0].id == id
    requires q'.waiting == q.waiting[n..] && q'.threads == q.threads[id := Returned(ok)]
    requires q'.done == q.done + map w | w in q.waiting[..n] && w.id != id :: w.id := ok
    ensures WaitingOk(q')
  {
    forall w | w in q'.waiting ensures w.id in q'.threads && !q'.threads[w.id].Returned? && w.id !in q'.done {
      var j :| n <= j < |q.waiting| && q.waiting[j] == w;
      assert w in q.waiting;
      forall m | m in q.waiting[..n] ensures m.id != w.id {
        var i :| 0 <= i < n && q.waiting[i] == m;
      }
    }
  }

  lemma EventKeeps(q: Queue, e: Event)
    requires Inv(q) && Allowed(q, e)
    ensures Inv(Act(q, e))
  {
    hide Consecutive, Members, UsesTmp, Combined, GroupsOk, WaitingOk, DistinctIds, IsGroup, Popped;
    match e
    case Arrive(w) => ArriveKeeps(q, w);
    case Wake(id) => WakeKeeps(q, id);
    case Build(id, n) => BuildKeeps(q, id, n);
    case Refuse(id) => PopKeeps(q, q, id, 1, [], false, false);
    case PassNull(id) =>
      assert q.waiting[..1] == [q.waiting[0]];
      NullWrites(q.waiting[0]);
      PopKeeps(q, q, id, 1, [], true, false);
    case Commit(id, logOk, syncOk, insertOk) => CommitKeeps(q, id, logOk, syncOk, insertOk);
  }

  lemma NullWrites(w: Waiter)
    requires w.request.ops.None?
    ensures Combined(Requests([w])) == []
  {
    assert Requests([w]) == [w.request] && [w.request][..0] == [];
  }

  lemma CommitKeeps(q: Queue, id: nat, logOk: bool, syncOk: bool, insertOk: bool)
    requires Inv(q) && Allowed(q, Commit(id, logOk, syncOk, insertOk))
    ensures Inv(Act(q, Commit(id, logOk, syncOk, insertOk)))
  {
    hide Consecutive, Members, UsesTmp, Combined, GroupsOk, WaitingOk, DistinctIds, Popped;
    var ms := q.threads[id].members;
    var sync := q.waiting[0].request.sync;
    var ops := Combined(Requests(ms));
    assert q.waiting[..|ms|] == ms;
    PopKeeps(q, q.(tmp := [], lastSequence := q.lastSequence + |ops|), id, |ms|, ops,
             logOk && (sync ==> syncOk) && insertOk, sync && logOk && syncOk);
  }

  ghost predicate IsRun(qs: seq<Queue>, events: seq<Event>) {
    && |qs| == |events| + 1 && qs[0] == Initial()
    && forall i {:trigger events[i]} :: 0 <= i < |events| ==>
         Allowed(qs[i], events[i]) && qs[i + 1] == Act(qs[i], events[i])
  }

  lemma {:induction false} RunKeeps(qs: seq<Queue>, events: seq<Event>, i: nat)
    requires IsRun(qs, events) && i < |qs|
    ensures Inv(qs[i])
  {
    hide Inv, Allowed, Act;
    if i == 0 {
      InitialInv();
    } else {
      RunKeeps(qs, events, i - 1);
      assert events[i - 1] == events[i - 1];
      EventKeeps(qs[i - 1], events[i - 1]);
    }
  }

  lemma InitialInv()
    ensures Inv(Initial())
  {
  }

  predicate Leads(q: Queue, id: nat) {
    id in q.threads && (q.threads[id].Preparing? || q.threads[id].Committing?)
  }

  /** At any point of any interleaving there is one leader at most, every batch that arrived is in
      exactly one popped group or still queued, in order of arrival, and the groups' sequence ranges
      are consecutive, whatever became of each. */
  lemma EachBatchOnce(qs: seq<Queue>, events: seq<Event>, i: nat)
    requires IsRun(qs, events) && i < |qs|
    ensures forall a, b :: Leads(qs[i], a) && Leads(qs[i], b) ==> a == b
    ensures qs[i].arrived == Members(qs[i].groups) + qs[i].waiting && DistinctIds(qs[i].arrived)
    ensures Consecutive(qs[i].groups, qs[i].lastSequence)
    ensures forall g :: g in qs[i].groups ==> Written(g)
  {
    hide Allowed, Act, Written, Consecutive;
    RunKeeps(qs, events, i);
  }

  /** The temporary batch is empty whenever a group is built, as the source asserts. */
  lemma TmpEmptyWhenBuilding(qs: seq<Queue>, events: seq<Event>, i: nat)
    requires IsRun(qs, events) && i < |events| && events[i].Build?
    ensures qs[i].tmp == []
  {
    hide Act, Consecutive, GroupsOk, WaitingOk, DistinctIds, IsGroup;
    RunKeeps(qs, events, i);
    assert events[i] == events[i];
    assert forall id :: id in qs[i].threads ==> !qs[i].threads[id].Committing?;
  }

  /** Whatever Write returns is the status of the one group the batch was in; and a writer that asked
      for a sync is told of success only if the log was synced. */
  lemma StatusIsTheGroups(qs: seq<Queue>, events: seq<Event>, i: nat, w: Waiter) returns (g: Group)
    requires IsRun(qs, events) && i < |qs| && w in qs[i].arrived
    requires w.id in qs[i].threads && qs[i].threads[w.id].Returned?
    ensures g in qs[i].groups && w in g.members && qs[i].threads[w.id] == Returned(g.ok)
    ensures w.request.sync && w.request.ops.Some? && g.ok ==> g.synced
  {
    hide Allowed, Act, Written, Consecutive, CommitOk, DistinctIds;
    RunKeeps(qs, events, i);
    assert w !in qs[i].waiting;
    g := GroupOf(qs[i].groups, w);
    assert Told(qs[i], w.id, g.ok);
  }

  lemma {:induction false} GroupOf(groups: seq<Group>, w: Waiter) returns (g: Group)
    requires w in Members(groups)
    ensures g in groups && w in g.members
  {
    var init, last := groups[..|groups| - 1], groups[|groups| - 1];
    if w in last.members {
      g := last;
    } else {
      g := GroupOf(init, w);
    }
  }
}
