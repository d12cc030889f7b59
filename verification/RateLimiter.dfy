/** Nuke's rate limiter: a token bucket in front of a queue of pending work. */
module RateLimiter {
  import opened L = LinkedList

  /** How many of some times lie in a window, ends included. */
  function CountIn(times: seq<real>, a: real, b: real): nat {
    if times == [] then 0
    else CountIn(times[..|times| - 1], a, b) + if a <= times[|times| - 1] <= b then 1 else 0
  }

  ghost predicate Ascending(times: seq<real>) {
    forall i, j :: 0 <= i <= j < |times| ==> times[i] <= times[j]
  }

  /** The tokens a span of time is worth. */
  function Tokens(rate: real, span: real): real {
    rate * span
  }

  lemma TokensAdd(rate: real, x: real, y: real)
    ensures Tokens(rate, x + y) == Tokens(rate, x) + Tokens(rate, y) && Tokens(rate, 0.0) == 0.0
  {
  }

  lemma TokensGrow(rate: real, x: real, y: real)
    requires rate >= 0.0 && x <= y
    ensures Tokens(rate, x) <= Tokens(rate, y)
  {
  }

  /** From any run to any later one, there were no more runs than tokens. */
  ghost predicate Paced(times: seq<real>, rate: real, burst: real) {
    forall i, j :: 0 <= i <= j < |times| ==> (j - i + 1) as real <= burst + Tokens(rate, times[j] - times[i])
  }

  /** What is in the bucket, with what was run from any past run on, has been paid for since then. */
  ghost predicate Saved(times: seq<real>, rate: real, burst: real, bucket: real, now: real) {
    forall i :: 0 <= i < |times| ==> bucket + (|times| - i) as real <= burst + Tokens(rate, now - times[i])
  }

  /** The times inside a window are consecutive: count them from the first one on. */
  lemma {:induction false} WindowIsRange(times: seq<real>, a: real, b: real) returns (i: nat, j: nat)
    requires Ascending(times)
    ensures i <= j <= |times| && CountIn(times, a, b) == j - i
    ensures i < j ==> a <= times[i] && times[j - 1] <= b
    ensures forall k :: j <= k < |times| ==> times[k] > b || i == j
    ensures i == j ==> forall k :: 0 <= k < |times| ==> times[k] < a || times[k] > b
  {
    if times == [] {
      return 0, 0;
    }
    var n := |times| - 1;
    i, j := WindowIsRange(times[..n], a, b);
    if a <= times[n] <= b {
      if i == j {
        i, j := n, n + 1;
      } else {
        assert forall k :: 0 <= k < n ==> times[..n][k] == times[k];
        LastIsLargest(times);
        assert j == n;
        j := n + 1;
      }
    }
  }

  lemma LastIsLargest(times: seq<real>)
    requires Ascending(times) && times != []
    ensures forall k :: 0 <= k < |times| ==> times[k] <= times[|times| - 1]
  {
  }

  /** In any window the runs are bounded by the burst plus what the rate adds over its length. */
  lemma WindowBound(times: seq<real>, rate: real, burst: real, a: real, b: real)
    requires Ascending(times) && Paced(times, rate, burst) && rate >= 0.0 && burst >= 0.0 && a <= b
    ensures CountIn(times, a, b) as real <= burst + Tokens(rate, b - a)
  {
    hide Tokens, CountIn;
    var i, j := WindowIsRange(times, a, b);
    TokensAdd(rate, 0.0, 0.0);
    if i < j {
      TokensGrow(rate, times[j - 1] - times[i], b - a);
      assert (j - 1 - i + 1) as real <= burst + Tokens(rate, times[j - 1] - times[i]);
    } else {
      TokensGrow(rate, 0.0, b - a);
    }
  }

  class TokenBucket {
    const rate: real
    const burst: real
    var bucket: real
    var timestamp: real
    /** When each work ran that was not cancelled. */
    ghost var runs: seq<real>

    constructor (rate: real, burst: real, now: real)
      requires rate >= 0.0 && burst >= 0.0
      ensures Valid() && runs == [] && this.rate == rate && this.burst == burst && bucket == burst && timestamp == now
    {
      this.rate, this.burst, bucket, timestamp, runs := rate, burst, burst, now, [];
    }

    /** What is in the bucket is paid for by the time since any past run. */
    ghost predicate Valid()
      reads this
    {
      && rate >= 0.0 && 0.0 <= bucket <= burst
      && Ascending(runs) && Paced(runs, rate, burst)
      && (forall i :: 0 <= i < |runs| ==> runs[i] <= timestamp)
      && Saved(runs, rate, burst, bucket, timestamp)
    }

    /** What the bucket holds once refilled. */
    function Refilled(now: real): real
      reads this
    {
      var full := bucket + Tokens(rate, now - timestamp);
      if full > burst then burst else full
    }

    method Refill(now: real)
      requires Valid() && now >= timestamp
      modifies this`bucket, this`timestamp
      ensures Valid() && timestamp == now && bucket == old(Refilled(now))
    {
      hide Tokens;
      ghost var was, b := timestamp, bucket;
      TokensGrow(rate, 0.0, now - was);
      TokensAdd(rate, 0.0, 0.0);
      bucket := bucket + Tokens(rate, if now - timestamp > 0.0 then now - timestamp else 0.0);
      timestamp := now;
      if bucket > burst {
        bucket := burst;
      }
      forall i | 0 <= i < |runs| ensures bucket + (|runs| - i) as real <= burst + Tokens(rate, now - runs[i]) {
        TokensAdd(rate, was - runs[i], now - was);
        assert was - runs[i] + (now - was) == now - runs[i];
      }
    }

    /** True if the work was called; `live` is what the work returns, false if it was cancelled. */
    method Execute(live: bool, now: real) returns (called: bool)
      requires Valid() && now >= timestamp
      modifies this
      ensures Valid() && timestamp == now && called == (old(Refilled(now)) >= 1.0)
      ensures runs == old(runs) + if called && live then [now] else []
      ensures bucket == old(Refilled(now)) - if called && live then 1.0 else 0.0
    {
      hide Tokens;
      Refill(now);
      if bucket < 1.0 {
        return false;
      }
      if live {
        RunPaced(runs, rate, burst, bucket, now);
        bucket := bucket - 1.0;
        runs := runs + [now];
      }
      called := true;
    }

    static lemma RunPaced(runs: seq<real>, rate: real, burst: real, bucket: real, now: real)
      requires Paced(runs, rate, burst) && Ascending(runs) && 1.0 <= bucket <= burst
      requires Saved(runs, rate, burst, bucket, now) && forall i :: 0 <= i < |runs| ==> runs[i] <= now
      ensures Paced(runs + [now], rate, burst) && Ascending(runs + [now])
      ensures Saved(runs + [now], rate, burst, bucket - 1.0, now)
    {
      hide Tokens;
      var n, times := |runs|, runs + [now];
      TokensAdd(rate, 0.0, 0.0);
      forall i | 0 <= i < |times|
        ensures bucket - 1.0 + (|times| - i) as real <= burst + Tokens(rate, now - times[i])
      {
        assert (|times| - i) as real == (n - i) as real + 1.0;
        assert i < n ==> times[i] == runs[i];
      }
    }

    /** In any window of the clock, no more works run than the burst and the rate allow. */
    lemma RunsInWindow(a: real, b: real)
      requires Valid() && a <= b
      ensures CountIn(runs, a, b) as real <= burst + Tokens(rate, b - a)
    {
      WindowBound(runs, rate, burst, a, b);
    }
  }

  class RateLimiter {
    const bucket: TokenBucket
    const pending: LinkedList<nat>
    var isExecutingPendingTasks: bool
    /** Closures handed to the dispatch queue that have not run. */
    var queued: nat
    /** Every work in order of submission, and those called so far in the order they were called. */
    ghost var submitted: seq<nat>
    ghost var called: seq<nat>

    constructor (rate: real, burst: real, now: real)
      requires rate >= 0.0 && burst >= 0.0
      ensures Valid() && fresh(bucket) && fresh(pending) && submitted == [] && bucket.rate == rate
      ensures bucket.burst == burst
    {
      bucket := new TokenBucket(rate, burst, now);
      pending := new LinkedList<nat>();
      isExecutingPendingTasks, queued, submitted, called := false, 0, [], [];
    }

    static ghost function Works(ns: seq<Node<nat>>): seq<nat> {
      seq(|ns|, i requires 0 <= i < |ns| => ns[i].value)
    }

    /** Works are called in the order they came, none is lost, and none waits without a closure queued
        to call it. */
    ghost predicate Valid()
      reads this, bucket, pending, pending.nodes
    {
      && bucket.Valid() && pending.Valid()
      && submitted == called + Works(pending.nodes)
      && queued == (if isExecutingPendingTasks then 1 else 0)
      && (pending.nodes != [] ==> isExecutingPendingTasks)
    }

    method Execute(work: nat, live: bool, now: real)
      requires Valid() && now >= bucket.timestamp
      modifies this, bucket, pending, pending.nodes
      ensures Valid() && submitted == old(submitted) + [work]
      ensures var runsNow := old(pending.nodes) == [] && old(bucket.Refilled(now)) >= 1.0;
        && called == old(called) + (if runsNow then [work] else [])
        && bucket.runs == old(bucket.runs) + if runsNow && live then [now] else []
      ensures old(bucket.timestamp) <= bucket.timestamp <= now
    {
      submitted := submitted + [work];
      if pending.IsEmpty() {
        var done := bucket.Execute(live, now);
        if done {
          called := called + [work];
          return;
        }
      }
      ghost var ns := pending.nodes;
      var node := pending.Append(work);
      assert Works(ns + [node]) == Works(ns) + [work];
      SetNeedsExecutePendingTasks();
    }

    method SetNeedsExecutePendingTasks()
      modifies this`isExecutingPendingTasks, this`queued
      ensures isExecutingPendingTasks && queued == old(queued) + if old(isExecutingPendingTasks) then 0 else 1
    {
      if isExecutingPendingTasks {
        return;
      }
      isExecutingPendingTasks := true;
      queued := queued + 1;
    }

    /** The queued closure: call pending works while there are tokens. `live` says which works are still
        wanted, and `clock` what the clock reads on each attempt. */
    method ExecutePendingTasks(live: nat -> bool, clock: nat -> real)
      requires Valid() && queued > 0
      requires clock(0) >= bucket.timestamp && forall n: nat :: clock(n) <= clock(n + 1)
      modifies this, bucket, pending, pending.nodes
      ensures Valid() && submitted == old(submitted)
      ensures called == submitted[..|called|] && |called| >= |old(called)|
      ensures pending.nodes == [] || bucket.bucket < 1.0
    {
      hide Paced, Ascending, Saved, Tokens;
      queued := queued - 1;
      var n := 0;
      var calling := true;
      while calling && pending.first != null
        invariant bucket.Valid() && pending.Valid() && submitted == old(submitted) == called + Works(pending.nodes)
        invariant queued == 0
        invariant n <= |old(pending.nodes)| && pending.nodes == old(pending.nodes)[n..]
        invariant (if calling then bucket.timestamp <= clock(n) else bucket.bucket < 1.0) && |called| >= |old(called)|
        decreases calling, |pending.nodes|
      {
        calling := CallFirst(live(pending.first.value), clock(n));
        assert clock(n) <= clock(n + 1);
        n := if calling then n + 1 else n;
      }
      isExecutingPendingTasks := false;
      if !pending.IsEmpty() {
        SetNeedsExecutePendingTasks();
      }
    }

    /** Tries the work that has waited longest. */
    method CallFirst(live: bool, now: real) returns (done: bool)
      requires bucket.Valid() && pending.Valid() && pending.first != null && now >= bucket.timestamp
      requires submitted == called + Works(pending.nodes)
      modifies this`called, bucket, pending, pending.nodes
      ensures bucket.Valid() && pending.Valid() && bucket.timestamp == now
      ensures submitted == called + Works(pending.nodes)
      ensures |old(pending.nodes)| > 0 && pending.nodes == if done then old(pending.nodes)[1..] else old(pending.nodes)
      ensures called == old(called) + if done then [old(pending.nodes)[0].value] else []
      ensures !done ==> bucket.bucket < 1.0
    {
      hide Paced, Ascending, Saved, Tokens;
      ghost var ns := pending.nodes;
      done := bucket.Execute(live, now);
      if done {
        var work := TakeFirst();
        called := called + [work];
        assert Works(ns) == [work] + Works(ns[1..]);
      }
    }

    method TakeFirst() returns (work: nat)
      requires pending.Valid() && pending.first != null
      modifies pending, pending.nodes
      ensures pending.Valid() && |old(pending.nodes)| > 0 && work == old(pending.nodes)[0].value
      ensures pending.nodes == old(pending.nodes)[1..]
    {
      var node := pending.first;
      ghost var ns := pending.nodes;
      pending.Remove(node, 0);
      assert ns[..0] + ns[1..] == ns[1..];
      work := node.value;
    }
  }
}
