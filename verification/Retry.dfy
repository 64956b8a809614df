/** The retry loops of ServeDNS. The inner one has no counter: it ends because every cached
    connection found closed has left the pool. */
module Retry {
  import opened Options
  import opened TransportTypes
  import opened ConnPool
  import opened PoolSystem
  import opened Int32

  // ---------------------------------------------------------------- lending is bounded by pooling

  predicate YieldsInto(cfg: Config, s: State, step: Step, t: nat) {
    && step.ReceiveYield? && step.i < |s.clients| && s.clients[step.i].Yielding? && s.clients[step.i].conn < |s.kinds|
    && TransportTypeFromConn(cfg.host.tls, s.kinds[s.clients[step.i].conn]) == Some(t)
  }

  predicate LendsFrom(cfg: Config, s: State, step: Step, t: nat) {
    && step.AcceptDial? && step.i < |s.clients| && s.clients[step.i].Asking?
    && t < TYPE_TOTAL_COUNT && StringToTransportType(s.clients[step.i].network) == t
    && Take(s.buckets[t], s.used, cfg.expire, s.now).reply.Some?
  }

  /** How many connections a run receives into a bucket. */
  function Yields(cfg: Config, s: State, steps: seq<Step>, t: nat): nat
    requires Legal(cfg, s, steps)
    decreases |steps|
  {
    if steps == [] then 0
    else (if YieldsInto(cfg, s, steps[0], t) then 1 else 0) + Yields(cfg, Apply(cfg, s, steps[0]), steps[1..], t)
  }

  /** How many connections a run lends from a bucket. */
  function Lends(cfg: Config, s: State, steps: seq<Step>, t: nat): nat
    requires Legal(cfg, s, steps)
    decreases |steps|
  {
    if steps == [] then 0
    else (if LendsFrom(cfg, s, steps[0], t) then 1 else 0) + Lends(cfg, Apply(cfg, s, steps[0]), steps[1..], t)
  }

  lemma LendStep(cfg: Config, s: State, step: Step, t: nat)
    requires t < TYPE_TOTAL_COUNT && Enabled(cfg, s, step)
    ensures (if LendsFrom(cfg, s, step, t) then 1 else 0) + |Apply(cfg, s, step).buckets[t]|
         <= |s.buckets[t]| + (if YieldsInto(cfg, s, step, t) then 1 else 0)
  {
    if step.Tick? || step.Stop? {
      SweepParts(s.buckets, step.Stop?, s.used, cfg.expire, s.now, t);
      var split := Sweep(s.buckets[t], step.Stop?, s.used, cfg.expire, s.now);
      assert |split.doomed + split.kept| == |s.buckets[t]|;
    }
  }

  /** In every run, what is lent from a bucket and what is left in it was there at the start or was
      yielded into it. */
  lemma {:induction false} LendsBounded(cfg: Config, s: State, steps: seq<Step>, t: nat)
    requires t < TYPE_TOTAL_COUNT && Legal(cfg, s, steps)
    ensures Lends(cfg, s, steps, t) + |Run(cfg, s, steps).buckets[t]| <= |s.buckets[t]| + Yields(cfg, s, steps, t)
    decreases |steps|
  {
    if steps != [] {
      LendStep(cfg, s, steps[0], t);
      LendsBounded(cfg, Apply(cfg, s, steps[0]), steps[1..], t);
    }
  }

  // ---------------------------------------------------------------- cached connections found closed

  /** The step ends an Exchange of client i with errCachedConnClosed, on a connection of bucket t. */
  predicate CachedConnClosed(s: State, step: Step, i: nat, t: nat) {
    && step == Fail(i, true) && i < |s.clients| && s.clients[i].Holding? && s.clients[i].cached
    && StringToTransportType(s.clients[i].network) == t
  }

  function CachedFails(cfg: Config, s: State, steps: seq<Step>, i: nat, t: nat): nat
    requires Legal(cfg, s, steps)
    decreases |steps|
  {
    if steps == [] then 0
    else (if CachedConnClosed(s, steps[0], i, t) then 1 else 0)
         + CachedFails(cfg, Apply(cfg, s, steps[0]), steps[1..], i, t)
  }

  /** Client i has a cached connection of bucket t, or is being answered with one. */
  predicate HasCached(s: State, i: nat, t: nat) {
    && i < |s.clients|
    && (s.clients[i].Holding? || s.clients[i].Awaiting?) && StringToTransportType(s.clients[i].network) == t
    && (s.clients[i].Holding? ==> s.clients[i].cached)
    && (s.clients[i].Awaiting? ==> s.manager.Replying? && s.manager.reply.Some?)
  }

  function One(b: bool): nat {
    if b then 1 else 0
  }

  lemma CachedStep(cfg: Config, s: State, step: Step, i: nat, t: nat)
    requires Paired(s) && Enabled(cfg, s, step)
    ensures One(CachedConnClosed(s, step, i, t)) + One(HasCached(Apply(cfg, s, step), i, t))
         <= One(HasCached(s, i, t)) + One(LendsFrom(cfg, s, step, t))
  {
  }

  /** Every cached connection that a client finds closed was lent to it from the bucket. */
  lemma {:induction false} FailsAreLent(cfg: Config, s: State, steps: seq<Step>, i: nat, t: nat)
    requires ValidConfig(cfg) && Inv(cfg, s) && Legal(cfg, s, steps)
    ensures CachedFails(cfg, s, steps, i, t) <= One(HasCached(s, i, t)) + Lends(cfg, s, steps, t)
    decreases |steps|
  {
    if steps != [] {
      CachedStep(cfg, s, steps[0], i, t);
      InvStep(cfg, s, steps[0]);
      FailsAreLent(cfg, Apply(cfg, s, steps[0]), steps[1..], i, t);
    }
  }

  /** In every run, whatever the other clients do, the cached connections that one client finds closed
      are no more than the bucket held and received, and one more only if the client had one at the
      start. */
  lemma CachedFailsBounded(cfg: Config, s: State, steps: seq<Step>, i: nat, t: nat)
    requires ValidConfig(cfg) && Reachable(cfg, s) && Legal(cfg, s, steps) && t < TYPE_TOTAL_COUNT
    ensures CachedFails(cfg, s, steps, i, t) + |Run(cfg, s, steps).buckets[t]|
         <= |s.buckets[t]| + Yields(cfg, s, steps, t) + One(HasCached(s, i, t))
  {
    ReachableInv(cfg, s);
    FailsAreLent(cfg, s, steps, i, t);
    LendsBounded(cfg, s, steps, t);
  }

  // ---------------------------------------------------------------- the inner loop

  /** The step ends an Exchange of client i, in any way. */
  predicate Ends(step: Step, i: nat) {
    step == Connect(i, false) || step == Fail(i, true) || step == Fail(i, false)
    || step == ReceiveYield(i) || step == TimeOut(i)
  }

  /** A part of a run in which client i calls Exchange for proto once and gets its result, with all
      that the others do before and meanwhile. */
  ghost predicate OneCall(cfg: Config, s: State, steps: seq<Step>, i: nat, proto: string) {
    && Legal(cfg, s, steps)
    && i < |s.clients| && s.clients[i].Idle?
    && steps != [] && Ends(steps[|steps| - 1], i)
    && (forall k :: 0 <= k < |steps| - 1 ==> !Ends(steps[k], i))
    && (forall k :: 0 <= k < |steps| && steps[k].Begin? && steps[k].i == i ==> steps[k].requestProto == proto)
  }

  /** That call returns errCachedConnClosed. */
  predicate CallMetClosed(cfg: Config, s: State, steps: seq<Step>, i: nat)
    requires Legal(cfg, s, steps)
    decreases |steps|
  {
    if steps == [] then false
    else if |steps| == 1 then steps[0] == Fail(i, true) && s.clients[i].Holding? && s.clients[i].cached
    else CallMetClosed(cfg, Apply(cfg, s, steps[0]), steps[1..], i)
  }

  /** The state in which the last of the steps is taken. */
  function BeforeLast(cfg: Config, s: State, steps: seq<Step>): State
    requires Legal(cfg, s, steps) && steps != []
    decreases |steps|
  {
    if |steps| == 1 then s else BeforeLast(cfg, Apply(cfg, s, steps[0]), steps[1..])
  }

  /** errCachedConnClosed is returned exactly for an end of file on a connection that came from the pool;
      an end of file on a fresh one, and any other error, ends the loop. */
  lemma {:induction false} MetClosedExactly(cfg: Config, s: State, steps: seq<Step>, i: nat)
    requires Legal(cfg, s, steps) && steps != []
    ensures CallMetClosed(cfg, s, steps, i)
            <==> var b := BeforeLast(cfg, s, steps);
                 steps[|steps| - 1] == Fail(i, true) && i < |b.clients| && b.clients[i].Holding? && b.clients[i].cached
    decreases |steps|
  {
    if |steps| > 1 {
      MetClosedExactly(cfg, Apply(cfg, s, steps[0]), steps[1..], i);
    }
  }

  /** Client i is idle or in an Exchange on this network. */
  ghost predicate OnNetwork(s: State, i: nat, network: string) {
    i < |s.clients| && (s.clients[i].Asking? || s.clients[i].Awaiting? || s.clients[i].MustDial? || s.clients[i].Holding? ==>
                          s.clients[i].network == network)
  }

  /** A call that returns errCachedConnClosed found a connection of its own bucket closed. */
  lemma {:induction false} ClosedCallCounts(cfg: Config, s: State, steps: seq<Step>, i: nat, proto: string)
    requires Legal(cfg, s, steps) && OnNetwork(s, i, NetworkFor(cfg.host, proto))
    requires forall k :: 0 <= k < |steps| && steps[k].Begin? && steps[k].i == i ==> steps[k].requestProto == proto
    requires CallMetClosed(cfg, s, steps, i)
    ensures CachedFails(cfg, s, steps, i, StringToTransportType(NetworkFor(cfg.host, proto))) >= 1
    decreases |steps|
  {
    if |steps| > 1 {
      var s' := Apply(cfg, s, steps[0]);
      assert OnNetwork(s', i, NetworkFor(cfg.host, proto));
      ClosedCallCounts(cfg, s', steps[1..], i, proto);
    }
  }

  /** So such a call leaves the bucket smaller, but for what was yielded into it. */
  lemma ClosedCallShrinks(cfg: Config, s: State, steps: seq<Step>, i: nat, proto: string)
    requires ValidConfig(cfg) && Reachable(cfg, s) && OneCall(cfg, s, steps, i, proto)
    requires CallMetClosed(cfg, s, steps, i)
    ensures var t := StringToTransportType(NetworkFor(cfg.host, proto));
            |Run(cfg, s, steps).buckets[t]| + 1 <= |s.buckets[t]| + Yields(cfg, s, steps, t)
  {
    var t := StringToTransportType(NetworkFor(cfg.host, proto));
    ClosedCallCounts(cfg, s, steps, i, proto);
    CachedFailsBounded(cfg, s, steps, i, t);
  }

  /** The calls of one loop as consecutive parts of one run: call k goes from states(k) through
      parts(k) to states(k + 1). */
  datatype Loop = Loop(cfg: Config, i: nat, proto: string, states: nat -> State, parts: nat -> seq<Step>)

  /** The first n calls have been made, and all of them returned errCachedConnClosed. */
  ghost predicate Retried(l: Loop, n: nat) {
    forall k: nat :: k < n ==> IsCall(l, k) && CallMetClosed(l.cfg, l.states(k), l.parts(k), l.i)
  }

  ghost predicate IsCall(l: Loop, k: nat) {
    && OneCall(l.cfg, l.states(k), l.parts(k), l.i, l.proto)
    && l.states(k + 1) == Run(l.cfg, l.states(k), l.parts(k))
  }

  /** A call is made whenever all calls before it returned errCachedConnClosed. */
  ghost predicate InnerLoop(l: Loop) {
    && ValidConfig(l.cfg) && Reachable(l.cfg, l.states(0))
    && forall n: nat :: Retried(l, n) ==> IsCall(l, n)
  }

  function BucketOf(l: Loop): TransportType {
    StringToTransportType(NetworkFor(l.cfg.host, l.proto))
  }

  /** What is yielded into the bucket of the loop during its first n calls. */
  ghost function Received(l: Loop, n: nat): nat
    requires forall k: nat :: k < n ==> IsCall(l, k)
  {
    if n == 0 then 0
    else assert IsCall(l, n - 1); Received(l, n - 1) + Yields(l.cfg, l.states(n - 1), l.parts(n - 1), BucketOf(l))
  }

  lemma {:induction false} ReachableRun(cfg: Config, s: State, steps: seq<Step>)
    requires Reachable(cfg, s) && Legal(cfg, s, steps)
    ensures Reachable(cfg, Run(cfg, s, steps))
    decreases |steps|
  {
    if steps != [] {
      ReachableStep(cfg, s, steps[0]);
      ReachableRun(cfg, Apply(cfg, s, steps[0]), steps[1..]);
    }
  }

  /** The inner loop of ServeDNS. It ends, if the yields into its bucket do, after at most one call
      more than the bucket held at the start and received on the way. Nothing is assumed about the
      buckets: the calls are parts of a run of clients, manager and closers. */
  method ExchangeUntilUsable(l: Loop, ghost most: nat) returns (calls: nat)
    requires InnerLoop(l)
    requires forall n: nat :: Retried(l, n) ==> Received(l, n) <= most
    ensures calls >= 1 && Retried(l, calls - 1) && IsCall(l, calls - 1)
    ensures !CallMetClosed(l.cfg, l.states(calls - 1), l.parts(calls - 1), l.i)
    ensures calls <= |l.states(0).buckets[BucketOf(l)]| + Received(l, calls - 1) + 1
  {
    calls := 0;
    while true
      invariant Retried(l, calls) && Reachable(l.cfg, l.states(calls))
      invariant calls + |l.states(calls).buckets[BucketOf(l)]| <= |l.states(0).buckets[BucketOf(l)]| + Received(l, calls)
      decreases |l.states(calls).buckets[BucketOf(l)]| + most - Received(l, calls)
    {
      assert IsCall(l, calls);
      calls := calls + 1;
      if !CallMetClosed(l.cfg, l.states(calls - 1), l.parts(calls - 1), l.i) {
        return;
      }
      assert Retried(l, calls);
      ClosedCallShrinks(l.cfg, l.states(calls - 1), l.parts(calls - 1), l.i, l.proto);
      ReachableRun(l.cfg, l.states(calls - 1), l.parts(calls - 1));
    }
  }

  // ---------------------------------------------------------------- the outer loop

  datatype Exchanged = Failed | Answered(matches: bool)

  /** What one round of the outer loop meets. */
  datatype Round = Round(now: Time, host: Option<nat>, exchanged: Exchanged)

  datatype Result = NoHealthy | LastError | FormatError | Relayed | Panic

  /** In round k the 32-bit counter of rounds does not exceed the limit. */
  predicate Allowed(maxRetry: nat, k: nat) {
    Wrap32(k + 1) <= maxRetry
  }

  /** One more round is taken: in time, a host, retries left, and a failed exchange. */
  predicate Continues(deadline: Time, maxRetry: nat, rounds: nat -> Round, k: nat) {
    rounds(k).now < deadline && rounds(k).host.Some? && Allowed(maxRetry, k) && rounds(k).exchanged.Failed?
  }

  /** One of the first maxRetry + 1 rounds is the last, so that maxRetry hosts at most are tried. */
  ghost predicate Limited(deadline: Time, maxRetry: nat, rounds: nat -> Round) {
    exists k: nat :: k <= maxRetry && !Continues(deadline, maxRetry, rounds, k)
  }

  /** The limit holds of every request exactly when it is not the largest 32-bit number, which the
      counter wraps around without exceeding. */
  lemma LimitedExactly(maxRetry: nat)
    requires maxRetry <= MAX_INT32
    ensures (forall deadline, rounds :: Limited(deadline, maxRetry, rounds)) <==> maxRetry < MAX_INT32
  {
    if maxRetry < MAX_INT32 {
      forall deadline, rounds
        ensures Limited(deadline, maxRetry, rounds)
      {
        assert !Continues(deadline, maxRetry, rounds, maxRetry);
      }
    } else {
      var failing: nat -> Round := (k: nat) => Round(0, Some(0), Failed);
      assert forall k: nat :: Continues(1, maxRetry, failing, k);
      assert !Limited(1, maxRetry, failing);
    }
  }

  /** The counter exceeds the limit when that many hosts have failed, but never the largest limit. */
  lemma CounterExceeds(n: nat, maxRetry: nat)
    requires maxRetry <= MAX_INT32 && (maxRetry < MAX_INT32 ==> n <= maxRetry)
    ensures Wrap32(Wrap32(n) + 1) == Wrap32(n + 1)
    ensures Wrap32(n + 1) > maxRetry <==> n == maxRetry && maxRetry < MAX_INT32
  {
    Wrap32Add(n, 1);
  }

  /** Round k is in time and has a host. */
  predicate Tries(deadline: Time, rounds: nat -> Round, k: nat) {
    rounds(k).now < deadline && rounds(k).host.Some?
  }

  /** The first k rounds all try a host that fails. */
  ghost predicate AllFail(deadline: Time, rounds: nat -> Round, k: nat) {
    forall j: nat :: j < k ==> Tries(deadline, rounds, j) && rounds(j).exchanged.Failed?
  }

  /** One request tries the hosts of its rounds in order until one answers, time is up, there is no
      host, or maxRetry hosts have failed, where the largest 32-bit number is no limit. It reports the
      failed ones to the health accounting if that is on. The panic on a missing error is reached when
      and only when time is up before the first round. late is some round at which time is up. */
  method ServeDNS(deadline: Time, maxRetry: nat, maxFails: nat, rounds: nat -> Round, ghost late: nat)
    returns (result: Result, tried: seq<nat>, reported: seq<nat>)
    requires maxRetry <= MAX_INT32 && (maxRetry == MAX_INT32 ==> rounds(late).now >= deadline)
    ensures maxRetry < MAX_INT32 ==> |tried| <= maxRetry
    ensures forall k :: 0 <= k < |tried| ==> rounds(k).host == Some(tried[k])
    ensures var n := |tried| - (if result.FormatError? || result.Relayed? then 1 else 0);
            && 0 <= n && AllFail(deadline, rounds, n)
            && reported == (if maxFails != 0 then tried[..n] else [])
            && (result.Panic? <==> n == 0 && rounds(n).now >= deadline)
            && (result.LastError? <==> n > 0 && rounds(n).now >= deadline)
            && (result.NoHealthy? <==> rounds(n).now < deadline
                                       && (rounds(n).host.None? || (n == maxRetry && maxRetry < MAX_INT32)))
            && (result.Relayed? ==> Tries(deadline, rounds, n) && rounds(n).exchanged == Answered(true))
            && (result.FormatError? ==> Tries(deadline, rounds, n) && rounds(n).exchanged == Answered(false))
    ensures forall k: nat | k < maxRetry && AllFail(deadline, rounds, k) && Tries(deadline, rounds, k) ::
              rounds(k).exchanged.Answered? ==>
                |tried| == k + 1 && result == if rounds(k).exchanged.matches then Relayed else FormatError
  {
    tried, reported := [], [];
    var tryCount := 0;
    var failed := false;
    while rounds(|tried|).now < deadline
      invariant tryCount == Wrap32(|tried|)
      invariant maxRetry < MAX_INT32 ==> |tried| <= maxRetry
      invariant maxRetry == MAX_INT32 ==> |tried| <= late
      invariant failed == (|tried| > 0)
      invariant AllFail(deadline, rounds, |tried|)
      invariant forall k :: 0 <= k < |tried| ==> rounds(k).host == Some(tried[k])
      invariant reported == if maxFails != 0 then tried else []
      decreases (if maxRetry < MAX_INT32 then maxRetry else late) - |tried|
    {
      var round := rounds(|tried|);
      CounterExceeds(|tried|, maxRetry);
      tryCount := Wrap32(tryCount + 1);
      if round.host.None? || tryCount > maxRetry {
        return NoHealthy, tried, reported;
      }
      tried := tried + [round.host.value];
      if round.exchanged.Failed? {
        failed := true;
        if maxFails != 0 {
          reported := reported + [round.host.value];
        }
        continue;
      }
      if !round.exchanged.matches {
        return FormatError, tried, reported;
      }
      return Relayed, tried, reported;
    }
    result := if failed then LastError else Panic;
  }
}
