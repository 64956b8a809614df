/** What the fields of a state mean in terms of the run that led to it. */
module PoolHistory {
  import opened Options
  import opened Bags
  import opened TransportTypes
  import opened ConnPool
  import opened PoolSystem
  import Retry

  // ---------------------------------------------------------------- stamps and ticks

  /** Yield stamps the connection. */
  predicate Stamps(s: State, step: Step, c: Conn) {
    step.Stamp? && step.i < |s.clients| && s.clients[step.i].Holding? && s.clients[step.i].conn == c
  }

  /** The time at which a run last stamped a connection, or before. */
  function LastStamp(cfg: Config, s: State, steps: seq<Step>, c: Conn, before: Time): Time
    requires Legal(cfg, s, steps)
    decreases |steps|
  {
    if steps == [] then before
    else LastStamp(cfg, Apply(cfg, s, steps[0]), steps[1..], c, if Stamps(s, steps[0], c) then s.now else before)
  }

  lemma UsedStep(cfg: Config, s: State, step: Step, c: Conn)
    requires Inv(cfg, s) && Enabled(cfg, s, step)
    ensures Used(Apply(cfg, s, step).used, c) == if Stamps(s, step, c) then s.now else Used(s.used, c)
  {
    if step.Stamp? {
      assert ClientTyped(cfg.host, s.kinds, s.clients[step.i]);
    }
  }

  /** The used time of a connection is that of its last stamp: nothing else sets it. */
  lemma {:induction false} UsedIsLastStamp(cfg: Config, s: State, steps: seq<Step>, c: Conn)
    requires ValidConfig(cfg) && Inv(cfg, s) && Legal(cfg, s, steps)
    ensures Used(Run(cfg, s, steps).used, c) == LastStamp(cfg, s, steps, c, Used(s.used, c))
    decreases |steps|
  {
    if steps != [] {
      UsedStep(cfg, s, steps[0], c);
      InvStep(cfg, s, steps[0]);
      UsedIsLastStamp(cfg, Apply(cfg, s, steps[0]), steps[1..], c);
    }
  }

  /** The time of the last tick of a run, or before. */
  function LastTick(cfg: Config, s: State, steps: seq<Step>, before: Time): Time
    requires Legal(cfg, s, steps)
    decreases |steps|
  {
    if steps == [] then before
    else LastTick(cfg, Apply(cfg, s, steps[0]), steps[1..], if steps[0].Tick? then s.now else before)
  }

  lemma {:induction false} SweptAtLastTick(cfg: Config, s: State, steps: seq<Step>)
    requires Legal(cfg, s, steps)
    ensures Run(cfg, s, steps).lastSweep == LastTick(cfg, s, steps, s.lastSweep)
    decreases |steps|
  {
    if steps != [] {
      SweptAtLastTick(cfg, Apply(cfg, s, steps[0]), steps[1..]);
    }
  }

  /** In every run, what is pooled was stamped less than expire + maxDelay before the last tick. */
  lemma PooledSinceTick(cfg: Config, start: State, steps: seq<Step>, t: nat, c: Conn)
    requires ValidConfig(cfg) && Init(start) && Legal(cfg, start, steps)
    requires t < TYPE_TOTAL_COUNT && c in Run(cfg, start, steps).buckets[t]
    ensures LastTick(cfg, start, steps, start.now) - LastStamp(cfg, start, steps, c, 0) < cfg.expire + cfg.maxDelay
  {
    InitInv(cfg, start);
    UsedIsLastStamp(cfg, start, steps, c);
    SweptAtLastTick(cfg, start, steps);
    BucketsNearSorted(cfg, Run(cfg, start, steps), t);
  }

  // ---------------------------------------------------------------- cached connections

  /** The connections that a run has received into a bucket, and those before. */
  function EverPooled(cfg: Config, s: State, steps: seq<Step>, before: set<Conn>): set<Conn>
    requires Legal(cfg, s, steps)
    decreases |steps|
  {
    if steps == [] then before
    else EverPooled(cfg, Apply(cfg, s, steps[0]), steps[1..], before + PooledBy(s, steps[0]))
  }

  function PooledBy(s: State, step: Step): set<Conn> {
    if step.ReceiveYield? && step.i < |s.clients| && s.clients[step.i].Yielding? then {s.clients[step.i].conn} else {}
  }

  ghost predicate CachedOk(s: State, ever: set<Conn>) {
    && (forall c :: c in ever ==> c < |s.kinds|)
    && (forall t, c :: 0 <= t < TYPE_TOTAL_COUNT && c in s.buckets[t] ==> c in ever)
    && (s.manager.Replying? && s.manager.reply.Some? ==> s.manager.reply.value in ever)
    && (forall i :: 0 <= i < |s.clients| && s.clients[i].Holding? ==> (s.clients[i].cached <==> s.clients[i].conn in ever))
  }

  /** Two clients never hold the same connection. */
  lemma HeldByOne(s: State, i: nat, j: nat)
    requires Owned(s) && i < |s.clients| && j < |s.clients| && i != j
    requires (s.clients[i].Holding? || s.clients[i].Yielding?) && (s.clients[j].Holding? || s.clients[j].Yielding?)
    ensures s.clients[i].conn != s.clients[j].conn
  {
    var held, c := AllHeld(s.clients), s.clients[i].conn;
    assert Count(s, c) <= 1;
    if s.clients[j].conn == c {
      assert held[i][0] == c && held[j][0] == c;
      BagUnique(held, c, i, 0, j, 0);
    }
  }

  lemma BucketsEver(cfg: Config, s: State, step: Step, ever: set<Conn>, t: nat, c: Conn)
    requires Inv(cfg, s) && Enabled(cfg, s, step) && CachedOk(s, ever)
    requires t < TYPE_TOTAL_COUNT && c in Apply(cfg, s, step).buckets[t]
    ensures c in ever + PooledBy(s, step)
  {
    if step.Tick? || step.Stop? {
      SweepParts(s.buckets, step.Stop?, s.used, cfg.expire, s.now, t);
    }
  }

  lemma ClientsEver(cfg: Config, s: State, step: Step, ever: set<Conn>, i: nat)
    requires Inv(cfg, s) && Enabled(cfg, s, step) && CachedOk(s, ever)
    requires i < |s.clients| && Apply(cfg, s, step).clients[i].Holding?
    ensures var client := Apply(cfg, s, step).clients[i]; client.cached <==> client.conn in ever + PooledBy(s, step)
  {
    if step.ReceiveYield? {
      assert step.i != i;
      HeldByOne(s, step.i, i);
    }
  }

  lemma CachedStep(cfg: Config, s: State, step: Step, ever: set<Conn>)
    requires Inv(cfg, s) && Enabled(cfg, s, step) && CachedOk(s, ever)
    ensures CachedOk(Apply(cfg, s, step), ever + PooledBy(s, step))
  {
    var s', more := Apply(cfg, s, step), ever + PooledBy(s, step);
    forall t, c | 0 <= t < TYPE_TOTAL_COUNT && c in s'.buckets[t]
      ensures c in more
    {
      BucketsEver(cfg, s, step, ever, t, c);
    }
    forall i | 0 <= i < |s'.clients| && s'.clients[i].Holding?
      ensures s'.clients[i].cached <==> s'.clients[i].conn in more
    {
      ClientsEver(cfg, s, step, ever, i);
    }
    if step.ReceiveYield? {
      assert ClientTyped(cfg.host, s.kinds, s.clients[step.i]);
    }
  }

  lemma {:induction false} CachedRun(cfg: Config, s: State, steps: seq<Step>, ever: set<Conn>)
    requires ValidConfig(cfg) && Inv(cfg, s) && Legal(cfg, s, steps) && CachedOk(s, ever)
    ensures CachedOk(Run(cfg, s, steps), EverPooled(cfg, s, steps, ever))
    decreases |steps|
  {
    if steps != [] {
      CachedStep(cfg, s, steps[0], ever);
      InvStep(cfg, s, steps[0]);
      CachedRun(cfg, Apply(cfg, s, steps[0]), steps[1..], ever + PooledBy(s, steps[0]));
    }
  }

  /** In every run, a client takes its connection for a cached one exactly when the connection has been
      pooled before: this is what decides whether an end of file is retried. */
  lemma CachedMeansPooled(cfg: Config, start: State, steps: seq<Step>, i: nat)
    requires ValidConfig(cfg) && Init(start) && Legal(cfg, start, steps)
    requires i < |Run(cfg, start, steps).clients| && Run(cfg, start, steps).clients[i].Holding?
    ensures var client := Run(cfg, start, steps).clients[i];
            client.cached <==> client.conn in EverPooled(cfg, start, steps, {})
  {
    InitInv(cfg, start);
    CachedRun(cfg, start, steps, {});
  }

  // ---------------------------------------------------------------- how connections end

  function Number(steps: seq<Step>, of: Step -> bool): nat {
    if steps == [] then 0 else (if of(steps[0]) then 1 else 0) + Number(steps[1..], of)
  }

  /** In every run there are as many dropped connections as yields that timed out, and as many closed
      ones as failed exchanges and closings by closers. */
  lemma {:induction false} EndsAreCounted(cfg: Config, s: State, steps: seq<Step>)
    requires Legal(cfg, s, steps)
    ensures |Run(cfg, s, steps).dropped| == |s.dropped| + Number(steps, (step: Step) => step.TimeOut?)
    ensures |Run(cfg, s, steps).closed|
         == |s.closed| + Number(steps, (step: Step) => step.Fail?) + Number(steps, (step: Step) => step.CloseNext?)
    decreases |steps|
  {
    if steps != [] {
      EndsAreCounted(cfg, Apply(cfg, s, steps[0]), steps[1..]);
    }
  }

  // ---------------------------------------------------------------- requests

  /** What a request is to be answered over: the protocol of the host, or its own for a plain dns host. */
  function KindWanted(host: Host, requestProto: string): ConnKind {
    match host.proto
    case "udp" => UdpConn
    case "tcp" => TcpConn
    case "tls" => TlsConn
    case _ => if requestProto == "tcp" then TcpConn else UdpConn
  }

  lemma NetworkIsWanted(host: Host, requestProto: string)
    requires BuiltHost(host) && RequestProto(requestProto)
    ensures DialedKind(NetworkFor(host, requestProto)) == Some(KindWanted(host, requestProto))
  {
  }

  lemma {:induction false} NetworkKept(cfg: Config, s: State, steps: seq<Step>, i: nat, network: string)
    requires Legal(cfg, s, steps) && Retry.OnNetwork(s, i, network)
    requires forall k :: 0 <= k < |steps| ==> !(steps[k].Begin? && steps[k].i == i)
    ensures Retry.OnNetwork(Run(cfg, s, steps), i, network)
    decreases |steps|
  {
    if steps != [] {
      NetworkKept(cfg, Apply(cfg, s, steps[0]), steps[1..], i, network);
    }
  }

  /** In every run, whatever connection a client holds after it began an exchange for a request is of the
      kind that the host and the request want. */
  lemma RequestGetsItsKind(cfg: Config, s: State, i: nat, requestProto: string, steps: seq<Step>)
    requires ValidConfig(cfg) && Reachable(cfg, s) && Enabled(cfg, s, Begin(i, requestProto))
    requires Legal(cfg, Apply(cfg, s, Begin(i, requestProto)), steps)
    requires forall k :: 0 <= k < |steps| ==> !(steps[k].Begin? && steps[k].i == i)
    ensures var end := Run(cfg, Apply(cfg, s, Begin(i, requestProto)), steps);
            i < |end.clients| && (end.clients[i].Holding? ==>
              end.clients[i].conn < |end.kinds| && end.kinds[end.clients[i].conn] == KindWanted(cfg.host, requestProto))
  {
    var begun, network := Apply(cfg, s, Begin(i, requestProto)), NetworkFor(cfg.host, requestProto);
    ReachableStep(cfg, s, Begin(i, requestProto));
    Retry.ReachableRun(cfg, begun, steps);
    NetworkKept(cfg, begun, steps, i, network);
    NetworkIsWanted(cfg.host, requestProto);
    var end := Run(cfg, begun, steps);
    if end.clients[i].Holding? {
      LentMatchesRequest(cfg, end, i);
    }
  }

  // ---------------------------------------------------------------- exchanges and stop

  /** A client becomes idle exactly by a step that ends its exchange: a dial that fails, an error, a
      yield that is received, or one that times out. */
  lemma IdleExactly(cfg: Config, s: State, step: Step, i: nat)
    requires ValidConfig(cfg) && Inv(cfg, s) && Enabled(cfg, s, step) && i < |s.clients|
    ensures !s.clients[i].Idle? && Apply(cfg, s, step).clients[i].Idle? <==> Retry.Ends(step, i)
  {
    if step.ReceiveYield? {
      assert ClientTyped(cfg.host, s.kinds, s.clients[step.i]);
    }
  }

  /** Nothing blocks but what the code blocks on. An exchange goes on as soon as the manager is ready for
      it; one that has a connection can fail in either way or succeed; and a yield that is not received
      can be given up after 25 ms. */
  lemma ClientGoesOn(cfg: Config, s: State, i: nat)
    requires ValidConfig(cfg) && Reachable(cfg, s) && i < |s.clients|
    ensures match s.clients[i]
            case Idle => Enabled(cfg, s, Begin(i, "udp")) && Enabled(cfg, s, Begin(i, "tcp"))
            case Asking(_) => s.manager.Ready? ==> Enabled(cfg, s, AcceptDial(i))
            case Awaiting(_) => Enabled(cfg, s, Reply(i))
            case MustDial(_) => Enabled(cfg, s, Connect(i, true)) && Enabled(cfg, s, Connect(i, false))
            case Holding(_, _, _) => Enabled(cfg, s, Fail(i, true)) && Enabled(cfg, s, Fail(i, false)) && Enabled(cfg, s, Stamp(i))
            case Yielding(c) =>
              && (s.manager.Ready? && s.now <= Used(s.used, c) + cfg.maxDelay ==> Enabled(cfg, s, ReceiveYield(i)))
              && (s.now >= Used(s.used, c) + 25_000_000 ==> Enabled(cfg, s, TimeOut(i)))
  {
    ReachableInv(cfg, s);
    assert ClientTyped(cfg.host, s.kinds, s.clients[i]);
    if s.clients[i].MustDial? {
      BucketChoiceAgrees(cfg.host, s.clients[i].network);
    }
  }

  /** The manager, while it waits, takes ticks and stop, and a closer goes on until its window is empty. */
  lemma ManagerAndClosersGoOn(cfg: Config, s: State, k: nat)
    requires ValidConfig(cfg) && Reachable(cfg, s)
    ensures s.manager.Ready? ==> Enabled(cfg, s, Tick) && Enabled(cfg, s, Stop)
    ensures s.manager.Ready? || s.manager.Stopped? || (s.manager.Replying? && Enabled(cfg, s, Reply(s.manager.asker)))
    ensures k < |s.closers| && s.closers[k] != [] ==> Enabled(cfg, s, CloseNext(k))
  {
    NoCrosstalk(cfg, s);
  }

  /** A yield is given up no earlier than 25 ms after its stamp. */
  lemma TimesOutLate(cfg: Config, start: State, steps: seq<Step>, i: nat)
    requires ValidConfig(cfg) && Init(start) && Legal(cfg, start, steps)
    requires Enabled(cfg, Run(cfg, start, steps), TimeOut(i))
    ensures var s := Run(cfg, start, steps);
            s.now - LastStamp(cfg, start, steps, s.clients[i].conn, 0) >= 25_000_000
  {
    InitInv(cfg, start);
    UsedIsLastStamp(cfg, start, steps, Run(cfg, start, steps).clients[i].conn);
  }

  lemma {:induction false} StaysStopped(cfg: Config, s: State, steps: seq<Step>)
    requires Legal(cfg, s, steps) && s.manager.Stopped?
    ensures Run(cfg, s, steps).manager.Stopped? && Run(cfg, s, steps).buckets == s.buckets
    decreases |steps|
  {
    if steps != [] {
      StaysStopped(cfg, Apply(cfg, s, steps[0]), steps[1..]);
    }
  }

  /** Once the manager has received stop nothing is pooled any more, however the run goes on. */
  lemma StopIsFinal(cfg: Config, s: State, steps: seq<Step>, t: nat)
    requires ValidConfig(cfg) && Reachable(cfg, s) && Enabled(cfg, s, Stop) && t < TYPE_TOTAL_COUNT
    requires Legal(cfg, Apply(cfg, s, Stop), steps)
    ensures Run(cfg, Apply(cfg, s, Stop), steps).buckets[t] == []
  {
    ReachableStep(cfg, s, Stop);
    StopDrains(cfg, Apply(cfg, s, Stop), t);
    StaysStopped(cfg, Apply(cfg, s, Stop), steps);
  }
}
