/** Interleaved steps of one connection manager, any number of clients running Exchange and any
    number of closeConns goroutines, over an abstract clock. */
module PoolSystem {
  import opened Options
  import opened Bags
  import opened TransportTypes
  import opened ConnPool

  /** 25ms in nanoseconds. */
  const YIELD_TIMEOUT: Time := 25_000_000

  /** maxDelay bounds the time between the stamp in Yield and its receipt by the manager. */
  datatype Config = Config(host: Host, expire: Time, maxDelay: Time)

  ghost predicate ValidConfig(cfg: Config) {
    BuiltHost(cfg.host) && cfg.expire > 0 && cfg.maxDelay >= 0
  }

  /** Where one goroutine is in Exchange. */
  datatype Client =
    | Idle
    | Asking(network: string)                              // blocked on sending to dial
    | Awaiting(network: string)                            // blocked on receiving from ret
    | MustDial(network: string)                            // received nil
    | Holding(network: string, conn: Conn, cached: bool)
    | Yielding(conn: Conn)                                 // stamped, blocked on sending to yield

  /** Where the manager is; asker is history only and guards nothing. */
  datatype Manager =
    | Ready
    | Replying(asker: nat, reply: Option<Conn>)            // blocked on sending to ret
    | Stopped                                              // returned, ret is closed
    | Panicked

  datatype State = State(
    now: Time,
    lastSweep: Time,
    kinds: seq<ConnKind>,        // of every connection ever dialled
    used: seq<Time>,             // its last-used stamp
    buckets: Buckets,
    clients: seq<Client>,
    manager: Manager,
    closers: seq<seq<Conn>>,     // what each closeConns has still to close
    closed: seq<Conn>,
    dropped: seq<Conn>)          // given up by a yield that timed out, never closed

  datatype Step =
    | Pass(elapsed: nat)
    | Begin(i: nat, requestProto: string)
    | AcceptDial(i: nat)
    | Reply(i: nat)
    | ReplyClosed(i: nat)
    | Connect(i: nat, ok: bool)
    | Fail(i: nat, eof: bool)                              // an error, io.EOF if eof
    | Stamp(i: nat)
    | ReceiveYield(i: nat)
    | TimeOut(i: nat)
    | Tick
    | Stop
    | CloseNext(k: nat)

  ghost predicate Init(s: State) {
    && s.buckets == [[], [], []]
    && s.kinds == [] && s.used == []
    && (forall i :: 0 <= i < |s.clients| ==> s.clients[i] == Idle)
    && s.manager == Ready
    && s.closers == [] && s.closed == [] && s.dropped == []
    && s.lastSweep == s.now
  }

  predicate Enabled(cfg: Config, s: State, step: Step) {
    match step
    case Pass(_) => true
    case Begin(i, proto) => i < |s.clients| && s.clients[i].Idle? && RequestProto(proto)
    case AcceptDial(i) => i < |s.clients| && s.clients[i].Asking? && s.manager.Ready?
    case Reply(i) => i < |s.clients| && s.clients[i].Awaiting? && s.manager.Replying?
    case ReplyClosed(i) => i < |s.clients| && s.clients[i].Awaiting? && s.manager.Stopped?
    case Connect(i, ok) => i < |s.clients| && s.clients[i].MustDial? && (ok ==> DialedKind(s.clients[i].network).Some?)
    case Fail(i, _) => i < |s.clients| && s.clients[i].Holding?
    case Stamp(i) => i < |s.clients| && s.clients[i].Holding?
    case ReceiveYield(i) =>
      i < |s.clients| && s.clients[i].Yielding? && s.manager.Ready? && s.clients[i].conn < |s.kinds|
      && s.now <= Used(s.used, s.clients[i].conn) + cfg.maxDelay
    case TimeOut(i) =>
      i < |s.clients| && s.clients[i].Yielding? && s.now >= Used(s.used, s.clients[i].conn) + YIELD_TIMEOUT
    case Tick => s.manager.Ready?
    case Stop => s.manager.Ready?
    case CloseNext(k) => k < |s.closers| && s.closers[k] != []
  }

  function Apply(cfg: Config, s: State, step: Step): State
    requires Enabled(cfg, s, step)
  {
    match step
    case Pass(elapsed) => s.(now := s.now + elapsed)
    case Begin(i, proto) => s.(clients := s.clients[i := Asking(NetworkFor(cfg.host, proto))])
    case AcceptDial(i) =>
      var network := s.clients[i].network;
      var h := HandleDial(s.buckets, network, s.used, cfg.expire, s.now);
      s.(clients := s.clients[i := Awaiting(network)], buckets := h.buckets,
         closers := s.closers + h.closers, manager := Replying(i, h.reply))
    case Reply(i) =>
      var network := s.clients[i].network;
      s.(manager := Ready,
         clients := s.clients[i := if s.manager.reply.Some? then Holding(network, s.manager.reply.value, true)
                                   else MustDial(network)])
    case ReplyClosed(i) => s.(clients := s.clients[i := MustDial(s.clients[i].network)])
    case Connect(i, ok) =>
      var network := s.clients[i].network;
      if ok then
        s.(clients := s.clients[i := Holding(network, |s.kinds|, false)],
           kinds := s.kinds + [DialedKind(network).value], used := s.used + [0])
      else s.(clients := s.clients[i := Idle])
    case Fail(i, _) => s.(clients := s.clients[i := Idle], closed := s.closed + [s.clients[i].conn])
    case Stamp(i) =>
      var c := s.clients[i].conn;
      s.(clients := s.clients[i := Yielding(c)], used := if c < |s.used| then s.used[c := s.now] else s.used)
    case ReceiveYield(i) =>
      var c := s.clients[i].conn;
      var b := HandleYield(s.buckets, cfg.host.tls, s.kinds[c], c);
      if b.None? then s.(manager := Panicked)
      else s.(buckets := b.value, clients := s.clients[i := Idle])
    case TimeOut(i) => s.(clients := s.clients[i := Idle], dropped := s.dropped + [s.clients[i].conn])
    case Tick =>
      var h := HandleSweep(s.buckets, false, s.used, cfg.expire, s.now);
      s.(buckets := h.buckets, closers := s.closers + h.closers, lastSweep := s.now)
    case Stop =>
      var h := HandleSweep(s.buckets, true, s.used, cfg.expire, s.now);
      s.(buckets := h.buckets, closers := s.closers + h.closers, manager := Stopped)
    case CloseNext(k) =>
      s.(closers := s.closers[k := s.closers[k][1..]], closed := s.closed + [s.closers[k][0]])
  }

  /** The steps can be taken one after the other from s. */
  predicate Legal(cfg: Config, s: State, steps: seq<Step>)
    decreases |steps|
  {
    steps == [] || (Enabled(cfg, s, steps[0]) && Legal(cfg, Apply(cfg, s, steps[0]), steps[1..]))
  }

  function Run(cfg: Config, s: State, steps: seq<Step>): State
    requires Legal(cfg, s, steps)
    decreases |steps|
  {
    if steps == [] then s else Run(cfg, Apply(cfg, s, steps[0]), steps[1..])
  }

  // ---------------------------------------------------------------- ownership

  function Held(client: Client): seq<Conn> {
    if client.Holding? || client.Yielding? then [client.conn] else []
  }

  function AllHeld(clients: seq<Client>): (r: seq<seq<Conn>>)
    ensures |r| == |clients| && forall i :: 0 <= i < |clients| ==> r[i] == Held(clients[i])
  {
    seq(|clients|, i requires 0 <= i < |clients| => Held(clients[i]))
  }

  predicate Holds(client: Client, c: Conn) {
    (client.Holding? || client.Yielding?) && client.conn == c
  }

  predicate Offers(manager: Manager, c: Conn) {
    manager.Replying? && manager.reply == Some(c)
  }

  /** How many times the system accounts for a connection. */
  ghost function Count(s: State, c: Conn): nat {
    Bag(s.buckets)[c] + Bag(AllHeld(s.clients))[c] + (if Offers(s.manager, c) then 1 else 0) + Bag(s.closers)[c]
    + multiset(s.closed)[c] + multiset(s.dropped)[c]
  }

  lemma HeldUpdate(clients: seq<Client>, i: nat, client: Client, c: Conn)
    requires i < |clients|
    ensures Bag(AllHeld(clients[i := client]))[c] + (if Holds(clients[i], c) then 1 else 0)
         == Bag(AllHeld(clients))[c] + (if Holds(client, c) then 1 else 0)
  {
    var before, after := AllHeld(clients), AllHeld(clients[i := client]);
    assert after == before[i := Held(client)];
    BagUpdateCount(before, i, Held(client), c);
    HeldCount(clients[i], c);
    HeldCount(client, c);
  }

  lemma HeldCount(client: Client, c: Conn)
    ensures multiset(Held(client))[c] == if Holds(client, c) then 1 else 0
  {
  }

  lemma DialCount(s: State, network: string, expire: Time, c: Conn)
    ensures var h := HandleDial(s.buckets, network, s.used, expire, s.now);
            Bag(s.buckets)[c] + Bag(s.closers)[c]
            == Bag(h.buckets)[c] + Bag(s.closers + h.closers)[c] + (if h.reply == Some(c) then 1 else 0)
  {
    var h := HandleDial(s.buckets, network, s.used, expire, s.now);
    DialConserves(s.buckets, network, s.used, expire, s.now);
    BagConcat(s.closers, h.closers);
  }

  lemma SweepCount(s: State, all: bool, expire: Time, c: Conn)
    ensures var h := HandleSweep(s.buckets, all, s.used, expire, s.now);
            Bag(s.buckets)[c] + Bag(s.closers)[c] == Bag(h.buckets)[c] + Bag(s.closers + h.closers)[c]
  {
    var h := HandleSweep(s.buckets, all, s.used, expire, s.now);
    SweepConserves(s.buckets, all, s.used, expire, s.now);
    BagConcat(s.closers, h.closers);
  }

  lemma CloseCount(s: State, k: nat, c: Conn)
    requires k < |s.closers| && s.closers[k] != []
    ensures Bag(s.closers)[c] + multiset(s.closed)[c]
         == Bag(s.closers[k := s.closers[k][1..]])[c] + multiset(s.closed + [s.closers[k][0]])[c]
  {
    var window := s.closers[k];
    BagUpdateCount(s.closers, k, window[1..], c);
    HeadCount(window, c);
    assert multiset(s.closed + [window[0]]) == multiset(s.closed) + multiset([window[0]]);
  }

  lemma HeadCount(window: seq<Conn>, c: Conn)
    requires window != []
    ensures multiset(window)[c] == multiset([window[0]])[c] + multiset(window[1..])[c]
  {
    assert window == [window[0]] + window[1..];
  }

  /** Every step accounts for each connection as often as before, and once more for the one it
      dials. */
  lemma StepConserves(cfg: Config, s: State, step: Step, c: Conn)
    requires Enabled(cfg, s, step)
    ensures Count(Apply(cfg, s, step), c)
         == Count(s, c) + (if step.Connect? && step.ok && c == |s.kinds| then 1 else 0)
  {
    match step {
      case Pass(_) =>
      case CloseNext(k) => CloseCount(s, k, c);
      case Tick => SweepCount(s, false, cfg.expire, c);
      case Stop => SweepCount(s, true, cfg.expire, c);
      case AcceptDial(_) => ManagerConserves(cfg, s, step, c);
      case Reply(_) => ManagerConserves(cfg, s, step, c);
      case ReceiveYield(_) => ManagerConserves(cfg, s, step, c);
      case _ => ClientConserves(cfg, s, step, c);
    }
  }

  /** What a step does to the one client it moves, to the reply and to the two logs. */
  ghost function Around(s: State, i: nat, c: Conn): nat
    requires i < |s.clients|
  {
    (if Holds(s.clients[i], c) then 1 else 0) + (if Offers(s.manager, c) then 1 else 0)
    + multiset(s.closed)[c] + multiset(s.dropped)[c]
  }

  lemma MoveCount(s: State, s': State, i: nat, c: Conn)
    requires i < |s.clients| == |s'.clients| && s'.clients == s.clients[i := s'.clients[i]]
    requires s'.closers == s.closers
    ensures Count(s', c) - Bag(s'.buckets)[c] == Count(s, c) - Bag(s.buckets)[c] + Around(s', i, c) - Around(s, i, c)
  {
    HeldUpdate(s.clients, i, s'.clients[i], c);
  }

  lemma AppendCount(log: seq<Conn>, x: Conn, c: Conn)
    ensures multiset(log + [x])[c] == multiset(log)[c] + (if x == c then 1 else 0)
  {
  }

  lemma ManagerConserves(cfg: Config, s: State, step: Step, c: Conn)
    requires step.AcceptDial? || step.Reply? || step.ReceiveYield?
    requires Enabled(cfg, s, step)
    ensures Count(Apply(cfg, s, step), c) == Count(s, c)
  {
    var s', i := Apply(cfg, s, step), step.i;
    match step
    case AcceptDial(_) => AcceptConserves(cfg, s, i, c);
    case Reply(_) => MoveCount(s, s', i, c);
    case ReceiveYield(_) => YieldStepConserves(cfg, s, i, c);
  }

  lemma AcceptConserves(cfg: Config, s: State, i: nat, c: Conn)
    requires Enabled(cfg, s, AcceptDial(i))
    ensures Count(Apply(cfg, s, AcceptDial(i)), c) == Count(s, c)
  {
    DialCount(s, s.clients[i].network, cfg.expire, c);
    HeldUpdate(s.clients, i, Awaiting(s.clients[i].network), c);
  }

  lemma YieldStepConserves(cfg: Config, s: State, i: nat, c: Conn)
    requires Enabled(cfg, s, ReceiveYield(i))
    ensures Count(Apply(cfg, s, ReceiveYield(i)), c) == Count(s, c)
  {
    var held := s.clients[i].conn;
    var b := HandleYield(s.buckets, cfg.host.tls, s.kinds[held], held);
    if b.Some? {
      YieldConserves(s.buckets, cfg.host.tls, s.kinds[held], held);
      MoveCount(s, Apply(cfg, s, ReceiveYield(i)), i, c);
    }
  }

  lemma ClientConserves(cfg: Config, s: State, step: Step, c: Conn)
    requires step.Begin? || step.ReplyClosed? || step.Connect? || step.Fail? || step.Stamp? || step.TimeOut?
    requires Enabled(cfg, s, step)
    ensures Count(Apply(cfg, s, step), c)
         == Count(s, c) + (if step.Connect? && step.ok && c == |s.kinds| then 1 else 0)
  {
    MoveCount(s, Apply(cfg, s, step), step.i, c);
    AroundClient(cfg, s, step, c);
  }

  lemma AroundClient(cfg: Config, s: State, step: Step, c: Conn)
    requires step.Begin? || step.ReplyClosed? || step.Connect? || step.Fail? || step.Stamp? || step.TimeOut?
    requires Enabled(cfg, s, step)
    ensures Around(Apply(cfg, s, step), step.i, c)
         == Around(s, step.i, c) + (if step.Connect? && step.ok && c == |s.kinds| then 1 else 0)
  {
    if step.Fail? {
      AroundFail(cfg, s, step, c);
    } else if step.TimeOut? {
      AroundTimeOut(cfg, s, step.i, c);
    }
  }

  lemma AroundFail(cfg: Config, s: State, step: Step, c: Conn)
    requires step.Fail? && Enabled(cfg, s, step)
    ensures Around(Apply(cfg, s, step), step.i, c) == Around(s, step.i, c)
  {
    AppendCount(s.closed, s.clients[step.i].conn, c);
  }

  lemma AroundTimeOut(cfg: Config, s: State, i: nat, c: Conn)
    requires Enabled(cfg, s, TimeOut(i))
    ensures Around(Apply(cfg, s, TimeOut(i)), i, c) == Around(s, i, c)
  {
    AppendCount(s.dropped, s.clients[i].conn, c);
  }

  // ---------------------------------------------------------------- the invariant

  /** Each connection ever dialled is accounted for once, and nothing else is. */
  ghost predicate Owned(s: State) {
    && |s.used| == |s.kinds|
    && forall c: Conn :: Count(s, c) == if c < |s.kinds| then 1 else 0
  }

  ghost predicate ClientTyped(host: Host, kinds: seq<ConnKind>, client: Client) {
    && (client.Asking? || client.Awaiting? || client.MustDial? || client.Holding? ==> NetworkOf(host, client.network))
    && (client.Holding? ==> client.conn < |kinds| && DialedKind(client.network) == Some(kinds[client.conn]))
    && (client.Yielding? ==> client.conn < |kinds| && TransportTypeFromConn(host.tls, kinds[client.conn]).Some?)
  }

  ghost predicate BucketTyped(host: Host, kinds: seq<ConnKind>, bucket: seq<Conn>, t: nat) {
    forall c :: c in bucket ==> c < |kinds| && TransportTypeFromConn(host.tls, kinds[c]) == Some(t)
  }

  /** Every bucket, every client and the reply hold connections of the right kind. */
  ghost predicate Typed(cfg: Config, s: State) {
    && (forall t :: 0 <= t < TYPE_TOTAL_COUNT ==> BucketTyped(cfg.host, s.kinds, s.buckets[t], t))
    && (forall i :: 0 <= i < |s.clients| ==> ClientTyped(cfg.host, s.kinds, s.clients[i]))
    && (s.manager.Replying? ==> s.manager.asker < |s.clients| && s.clients[s.manager.asker].Awaiting?)
    && (s.manager.Replying? && s.manager.reply.Some? ==>
          s.manager.reply.value < |s.kinds|
          && TransportTypeFromConn(cfg.host.tls, s.kinds[s.manager.reply.value])
             == Some(StringToTransportType(s.clients[s.manager.asker].network)))
  }

  /** A client waits for an answer exactly while the manager is answering that very client. */
  ghost predicate Paired(s: State) {
    && !s.manager.Panicked?
    && forall i :: 0 <= i < |s.clients| ==> (s.clients[i].Awaiting? <==> s.manager.Replying? && s.manager.asker == i)
  }

  ghost predicate BucketTimed(cfg: Config, s: State, bucket: seq<Conn>) {
    && NearSorted(bucket, s.used, cfg.maxDelay)
    && forall c :: c in bucket ==>
         Used(s.used, c) <= s.now && s.lastSweep - Used(s.used, c) < cfg.expire + cfg.maxDelay
  }

  ghost predicate Timed(cfg: Config, s: State) {
    && s.lastSweep <= s.now
    && (forall t :: 0 <= t < TYPE_TOTAL_COUNT ==> BucketTimed(cfg, s, s.buckets[t]))
    && (forall i :: 0 <= i < |s.clients| && s.clients[i].Yielding? ==> Used(s.used, s.clients[i].conn) <= s.now)
  }

  ghost predicate Drained(s: State) {
    s.manager.Stopped? ==> s.buckets == [[], [], []]
  }

  ghost predicate Inv(cfg: Config, s: State) {
    Owned(s) && Typed(cfg, s) && Paired(s) && Timed(cfg, s) && Drained(s)
  }

  // ---------------------------------------------------------------- consequences of ownership

  /** A connection a client holds is in no bucket. */
  lemma HeldNotPooled(s: State, i: nat, t: nat)
    requires Owned(s) && i < |s.clients| && t < TYPE_TOTAL_COUNT
    requires s.clients[i].Holding? || s.clients[i].Yielding?
    ensures s.clients[i].conn !in s.buckets[t]
  {
    var c := s.clients[i].conn;
    BagMember(AllHeld(s.clients), i);
    assert c in multiset(AllHeld(s.clients)[i]);
    BagMember(s.buckets, t);
    assert Count(s, c) <= 1;
    assert multiset(s.buckets[t])[c] <= Bag(s.buckets)[c] == 0;
  }

  // ---------------------------------------------------------------- preservation

  lemma OwnedStep(cfg: Config, s: State, step: Step)
    requires Owned(s) && Enabled(cfg, s, step)
    ensures Owned(Apply(cfg, s, step))
  {
    var s' := Apply(cfg, s, step);
    forall c: Conn
      ensures Count(s', c) == if c < |s'.kinds| then 1 else 0
    {
      StepConserves(cfg, s, step, c);
    }
  }

  lemma SweepParts(buckets: Buckets, all: bool, used: seq<Time>, expire: Time, now: Time, t: nat)
    requires t < TYPE_TOTAL_COUNT
    ensures HandleSweep(buckets, all, used, expire, now).buckets[t] == Sweep(buckets[t], all, used, expire, now).kept
  {
  }

  lemma TypedStep(cfg: Config, s: State, step: Step)
    requires ValidConfig(cfg) && Inv(cfg, s) && Enabled(cfg, s, step)
    ensures Typed(cfg, Apply(cfg, s, step))
  {
    var s' := Apply(cfg, s, step);
    BucketsTyped(cfg, s, step);
    ClientsTyped(cfg, s, step);
  }

  lemma BucketsTyped(cfg: Config, s: State, step: Step)
    requires ValidConfig(cfg) && Inv(cfg, s) && Enabled(cfg, s, step)
    ensures forall t :: 0 <= t < TYPE_TOTAL_COUNT ==>
              BucketTyped(cfg.host, Apply(cfg, s, step).kinds, Apply(cfg, s, step).buckets[t], t)
  {
    var s' := Apply(cfg, s, step);
    forall t | 0 <= t < TYPE_TOTAL_COUNT
      ensures BucketTyped(cfg.host, s'.kinds, s'.buckets[t], t)
    {
      assert BucketTyped(cfg.host, s.kinds, s.buckets[t], t);
      if step.Tick? || step.Stop? {
        SweepParts(s.buckets, step.Stop?, s.used, cfg.expire, s.now, t);
        assert forall c :: c in s'.buckets[t] ==> c in s.buckets[t];
      } else if step.AcceptDial? {
        assert forall c :: c in s'.buckets[t] ==> c in s.buckets[t];
      }
    }
  }

  lemma ClientsTyped(cfg: Config, s: State, step: Step)
    requires ValidConfig(cfg) && Inv(cfg, s) && Enabled(cfg, s, step)
    ensures var s' := Apply(cfg, s, step);
            forall i :: 0 <= i < |s'.clients| ==> ClientTyped(cfg.host, s'.kinds, s'.clients[i])
  {
    var s' := Apply(cfg, s, step);
    forall i | 0 <= i < |s'.clients|
      ensures ClientTyped(cfg.host, s'.kinds, s'.clients[i])
    {
      assert ClientTyped(cfg.host, s.kinds, s.clients[i]);
      var client := s.clients[i];
      if client.Asking? || client.Awaiting? || client.MustDial? || client.Holding? {
        BucketChoiceAgrees(cfg.host, client.network);
      }
    }
  }

  lemma PairedStep(cfg: Config, s: State, step: Step)
    requires ValidConfig(cfg) && Inv(cfg, s) && Enabled(cfg, s, step)
    ensures Paired(Apply(cfg, s, step))
  {
    if step.ReceiveYield? {
      assert ClientTyped(cfg.host, s.kinds, s.clients[step.i]);
    }
  }

  lemma SameStamps(cfg: Config, s: State, s': State, bucket: seq<Conn>)
    requires BucketTimed(cfg, s, bucket)
    requires s'.now >= s.now && s'.lastSweep == s.lastSweep
    requires forall c :: c in bucket ==> Used(s'.used, c) == Used(s.used, c)
    ensures BucketTimed(cfg, s', bucket)
  {
    forall i, j | 0 <= i < j < |bucket|
      ensures Used(s'.used, bucket[i]) <= Used(s'.used, bucket[j]) + cfg.maxDelay
    {
      assert bucket[i] in bucket && bucket[j] in bucket;
    }
  }

  /** No step but a stamp changes the time of a connection, and a stamp goes to a connection that
      its holder alone has, so what is pooled keeps its time. */
  lemma PooledKeepStamps(cfg: Config, s: State, step: Step, t: nat, c: Conn)
    requires Inv(cfg, s) && Enabled(cfg, s, step)
    requires t < TYPE_TOTAL_COUNT && c in s.buckets[t]
    ensures Used(Apply(cfg, s, step).used, c) == Used(s.used, c)
  {
    assert BucketTyped(cfg.host, s.kinds, s.buckets[t], t);
    if step.Stamp? {
      HeldNotPooled(s, step.i, t);
    }
  }

  lemma AcceptTimed(cfg: Config, s: State, i: nat, t: nat)
    requires ValidConfig(cfg) && Inv(cfg, s) && Enabled(cfg, s, AcceptDial(i)) && t < TYPE_TOTAL_COUNT
    ensures BucketTimed(cfg, Apply(cfg, s, AcceptDial(i)), Apply(cfg, s, AcceptDial(i)).buckets[t])
  {
    var s' := Apply(cfg, s, AcceptDial(i));
    var bucket := s.buckets[t];
    assert BucketTimed(cfg, s, bucket);
    SameStamps(cfg, s, s', bucket);
    if t == StringToTransportType(s.clients[i].network) {
      var taken := Take(bucket, s.used, cfg.expire, s.now);
      if taken.reply.Some? {
        NearSortedPart(taken.split.kept, [taken.reply.value], s.used, cfg.maxDelay);
      }
    }
  }

  lemma SweepTimed(cfg: Config, s: State, step: Step, t: nat)
    requires ValidConfig(cfg) && Inv(cfg, s) && Enabled(cfg, s, step) && t < TYPE_TOTAL_COUNT
    requires step.Tick? || step.Stop?
    ensures BucketTimed(cfg, Apply(cfg, s, step), Apply(cfg, s, step).buckets[t])
  {
    var s' := Apply(cfg, s, step);
    var bucket, split := s.buckets[t], Sweep(s.buckets[t], step.Stop?, s.used, cfg.expire, s.now);
    assert BucketTimed(cfg, s, bucket);
    SweepParts(s.buckets, step.Stop?, s.used, cfg.expire, s.now, t);
    NearSortedPart(split.doomed, split.kept, s.used, cfg.maxDelay);
    if step.Tick? {
      SweepBounds(bucket, s.used, cfg.expire, s.now, cfg.maxDelay);
    }
    assert forall c :: c in split.kept ==> c in bucket;
  }

  lemma YieldTimed(cfg: Config, s: State, i: nat, t: nat)
    requires ValidConfig(cfg) && Inv(cfg, s) && Enabled(cfg, s, ReceiveYield(i)) && t < TYPE_TOTAL_COUNT
    ensures BucketTimed(cfg, Apply(cfg, s, ReceiveYield(i)), Apply(cfg, s, ReceiveYield(i)).buckets[t])
  {
    var s', c := Apply(cfg, s, ReceiveYield(i)), s.clients[i].conn;
    var bucket := s.buckets[t];
    assert BucketTimed(cfg, s, bucket);
    SameStamps(cfg, s, s', bucket);
    if TransportTypeFromConn(cfg.host.tls, s.kinds[c]) == Some(t) {
      YieldKeepsNearSorted(bucket, s.used, c, cfg.maxDelay);
    }
  }

  lemma BucketsTimed(cfg: Config, s: State, step: Step, t: nat)
    requires ValidConfig(cfg) && Inv(cfg, s) && Enabled(cfg, s, step) && t < TYPE_TOTAL_COUNT
    ensures BucketTimed(cfg, Apply(cfg, s, step), Apply(cfg, s, step).buckets[t])
  {
    if step.AcceptDial? {
      AcceptTimed(cfg, s, step.i, t);
    } else if step.Tick? || step.Stop? {
      SweepTimed(cfg, s, step, t);
    } else if step.ReceiveYield? {
      YieldTimed(cfg, s, step.i, t);
    } else {
      assert BucketTimed(cfg, s, s.buckets[t]);
      forall c | c in s.buckets[t]
        ensures Used(Apply(cfg, s, step).used, c) == Used(s.used, c)
      {
        PooledKeepStamps(cfg, s, step, t, c);
      }
      SameStamps(cfg, s, Apply(cfg, s, step), s.buckets[t]);
    }
  }

  lemma TimedStep(cfg: Config, s: State, step: Step)
    requires ValidConfig(cfg) && Inv(cfg, s) && Enabled(cfg, s, step)
    ensures Timed(cfg, Apply(cfg, s, step))
  {
    var s' := Apply(cfg, s, step);
    forall t | 0 <= t < TYPE_TOTAL_COUNT
      ensures BucketTimed(cfg, s', s'.buckets[t])
    {
      BucketsTimed(cfg, s, step, t);
    }
    forall i | 0 <= i < |s'.clients| && s'.clients[i].Yielding?
      ensures Used(s'.used, s'.clients[i].conn) <= s'.now
    {
      assert ClientTyped(cfg.host, s.kinds, s.clients[i]);
    }
  }

  lemma DrainedStep(cfg: Config, s: State, step: Step)
    requires Inv(cfg, s) && Enabled(cfg, s, step)
    ensures Drained(Apply(cfg, s, step))
  {
    var s' := Apply(cfg, s, step);
    if step.Stop? {
      forall t | 0 <= t < TYPE_TOTAL_COUNT
        ensures s'.buckets[t] == []
      {
        SweepParts(s.buckets, true, s.used, cfg.expire, s.now, t);
      }
      assert s'.buckets == [[], [], []];
    }
  }

  lemma InvStep(cfg: Config, s: State, step: Step)
    requires ValidConfig(cfg) && Inv(cfg, s) && Enabled(cfg, s, step)
    ensures Inv(cfg, Apply(cfg, s, step))
  {
    OwnedStep(cfg, s, step);
    TypedStep(cfg, s, step);
    PairedStep(cfg, s, step);
    TimedStep(cfg, s, step);
    DrainedStep(cfg, s, step);
  }

  lemma InitInv(cfg: Config, s: State)
    requires ValidConfig(cfg) && Init(s)
    ensures Inv(cfg, s)
  {
    BagEmpty(AllHeld(s.clients));
    BagEmpty(s.buckets);
  }

  lemma {:induction false} RunInv(cfg: Config, s: State, steps: seq<Step>)
    requires ValidConfig(cfg) && Inv(cfg, s) && Legal(cfg, s, steps)
    ensures Inv(cfg, Run(cfg, s, steps))
    decreases |steps|
  {
    if steps != [] {
      InvStep(cfg, s, steps[0]);
      RunInv(cfg, Apply(cfg, s, steps[0]), steps[1..]);
    }
  }

  /** s is reached by some interleaving of the system. */
  ghost predicate Reachable(cfg: Config, s: State) {
    exists start, steps :: Init(start) && Legal(cfg, start, steps) && s == Run(cfg, start, steps)
  }

  lemma ReachableInv(cfg: Config, s: State)
    requires ValidConfig(cfg) && Reachable(cfg, s)
    ensures Inv(cfg, s)
  {
    var start, steps :| Init(start) && Legal(cfg, start, steps) && s == Run(cfg, start, steps);
    InitInv(cfg, start);
    RunInv(cfg, start, steps);
  }

  // ---------------------------------------------------------------- theorems about every run

  /** Where a connection can be. */
  datatype Place =
    | Pooled(bucket: nat, position: nat)
    | WithClient(client: nat)
    | OnRet
    | WithCloser(closer: nat, position: nat)
    | ClosedAs(nth: nat)
    | DroppedAs(nth: nat)

  ghost predicate IsAt(s: State, c: Conn, p: Place) {
    match p
    case Pooled(t, k) => t < TYPE_TOTAL_COUNT && k < |s.buckets[t]| && s.buckets[t][k] == c
    case WithClient(i) => i < |s.clients| && Holds(s.clients[i], c)
    case OnRet => Offers(s.manager, c)
    case WithCloser(i, k) => i < |s.closers| && k < |s.closers[i]| && s.closers[i][k] == c
    case ClosedAs(n) => n < |s.closed| && s.closed[n] == c
    case DroppedAs(n) => n < |s.dropped| && s.dropped[n] == c
  }

  /** The whole state as one row of cells. */
  function Cells(s: State): seq<seq<Conn>> {
    s.buckets + AllHeld(s.clients) + s.closers
    + [if s.manager.Replying? then Lent(s.manager.reply) else [], s.closed, s.dropped]
  }

  function CellOf(s: State, p: Place): (nat, nat) {
    match p
    case Pooled(t, k) => (t, k)
    case WithClient(i) => (TYPE_TOTAL_COUNT + i, 0)
    case WithCloser(i, k) => (TYPE_TOTAL_COUNT + |s.clients| + i, k)
    case OnRet => (TYPE_TOTAL_COUNT + |s.clients| + |s.closers|, 0)
    case ClosedAs(n) => (TYPE_TOTAL_COUNT + |s.clients| + |s.closers| + 1, n)
    case DroppedAs(n) => (TYPE_TOTAL_COUNT + |s.clients| + |s.closers| + 2, n)
  }

  lemma CellsCount(s: State, c: Conn)
    ensures Bag(Cells(s))[c] == Count(s, c)
  {
    var offered := if s.manager.Replying? then Lent(s.manager.reply) else [];
    RowCount(s.buckets, AllHeld(s.clients), s.closers, [offered, s.closed, s.dropped], c);
    LastCount(offered, s.closed, s.dropped, c);
    OfferCount(s.manager, c);
  }

  lemma OfferCount(manager: Manager, c: Conn)
    ensures multiset(if manager.Replying? then Lent(manager.reply) else [])[c] == if Offers(manager, c) then 1 else 0
  {
  }

  lemma RowCount(x: seq<seq<Conn>>, y: seq<seq<Conn>>, z: seq<seq<Conn>>, w: seq<seq<Conn>>, c: Conn)
    ensures Bag(x + y + z + w)[c] == Bag(x)[c] + Bag(y)[c] + Bag(z)[c] + Bag(w)[c]
  {
    BagConcat(x, y);
    BagConcat(x + y, z);
    BagConcat(x + y + z, w);
  }

  lemma LastCount(x: seq<Conn>, y: seq<Conn>, z: seq<Conn>, c: Conn)
    ensures Bag([x, y, z])[c] == multiset(x)[c] + multiset(y)[c] + multiset(z)[c]
  {
    BagConcat([x], [y, z]);
    BagConcat([y], [z]);
    assert [x] + [y, z] == [x, y, z] && [y] + [z] == [y, z];
    BagSingle(x);
    BagSingle(y);
    BagSingle(z);
  }

  lemma AtCell(s: State, c: Conn, p: Place)
    requires IsAt(s, c, p)
    ensures var (i, k) := CellOf(s, p); i < |Cells(s)| && k < |Cells(s)[i]| && Cells(s)[i][k] == c
  {
  }

  lemma CellAt(s: State, c: Conn, i: nat, k: nat) returns (p: Place)
    requires i < |Cells(s)| && k < |Cells(s)[i]| && Cells(s)[i][k] == c
    ensures IsAt(s, c, p)
  {
    var afterClients := TYPE_TOTAL_COUNT + |s.clients|;
    var afterClosers := afterClients + |s.closers|;
    if i < TYPE_TOTAL_COUNT {
      p := Pooled(i, k);
    } else if i < afterClients {
      p := WithClient(i - TYPE_TOTAL_COUNT);
    } else if i < afterClosers {
      p := WithCloser(i - afterClients, k);
    } else if i == afterClosers {
      p := OnRet;
    } else if i == afterClosers + 1 {
      p := ClosedAs(k);
    } else {
      p := DroppedAs(k);
    }
  }

  /** In every reachable state each connection ever dialled is in exactly one place: one position of
      one bucket, one client, the ret channel, one position of one closer, or once in the log of
      closed or of dropped connections. */
  lemma ExactlyOnePlace(cfg: Config, s: State, c: Conn)
    requires ValidConfig(cfg) && Reachable(cfg, s) && c < |s.kinds|
    ensures exists p :: IsAt(s, c, p)
    ensures forall p, q :: IsAt(s, c, p) && IsAt(s, c, q) ==> p == q
  {
    ReachableInv(cfg, s);
    CellsCount(s, c);
    assert Count(s, c) == 1;
    var i, k := BagFind(Cells(s), c);
    var found := CellAt(s, c, i, k);
    forall p, q | IsAt(s, c, p) && IsAt(s, c, q)
      ensures p == q
    {
      AtCell(s, c, p);
      AtCell(s, c, q);
      var at, also := CellOf(s, p), CellOf(s, q);
      BagUnique(Cells(s), c, at.0, at.1, also.0, also.1);
    }
  }

  /** Given to a closer, closed or dropped. */
  ghost predicate Retired(s: State, c: Conn) {
    Bag(s.closers)[c] + multiset(s.closed)[c] + multiset(s.dropped)[c] >= 1
  }

  lemma RetiredStep(cfg: Config, s: State, step: Step, c: Conn)
    requires Retired(s, c) && Enabled(cfg, s, step)
    ensures Retired(Apply(cfg, s, step), c)
  {
    match step {
      case CloseNext(k) => CloseCount(s, k, c);
      case AcceptDial(i) =>
        BagConcat(s.closers, HandleDial(s.buckets, s.clients[i].network, s.used, cfg.expire, s.now).closers);
      case Tick => BagConcat(s.closers, HandleSweep(s.buckets, false, s.used, cfg.expire, s.now).closers);
      case Stop => BagConcat(s.closers, HandleSweep(s.buckets, true, s.used, cfg.expire, s.now).closers);
      case Fail(i, _) => AppendCount(s.closed, s.clients[i].conn, c);
      case TimeOut(i) => AppendCount(s.dropped, s.clients[i].conn, c);
      case _ =>
    }
  }

  lemma {:induction false} RetiredRun(cfg: Config, s: State, steps: seq<Step>, c: Conn)
    requires Retired(s, c) && Legal(cfg, s, steps)
    ensures Retired(Run(cfg, s, steps), c)
    decreases |steps|
  {
    if steps != [] {
      RetiredStep(cfg, s, steps[0], c);
      RetiredRun(cfg, Apply(cfg, s, steps[0]), steps[1..], c);
    }
  }

  /** A connection once given to a closer, closed or dropped is never pooled, offered or held again,
      however the run goes on. */
  lemma RetiredForGood(cfg: Config, s: State, steps: seq<Step>, c: Conn)
    requires ValidConfig(cfg) && Reachable(cfg, s) && Legal(cfg, s, steps) && Retired(s, c)
    ensures var s' := Run(cfg, s, steps);
            && (forall t :: 0 <= t < TYPE_TOTAL_COUNT ==> c !in s'.buckets[t])
            && !Offers(s'.manager, c)
            && (forall i :: 0 <= i < |s'.clients| ==> !Holds(s'.clients[i], c))
  {
    var s' := Run(cfg, s, steps);
    ReachableInv(cfg, s);
    RunInv(cfg, s, steps);
    RetiredRun(cfg, s, steps, c);
    assert Count(s', c) <= 1;
    forall t | 0 <= t < TYPE_TOTAL_COUNT
      ensures c !in s'.buckets[t]
    {
      BagMember(s'.buckets, t);
      assert multiset(s'.buckets[t])[c] == 0;
    }
    forall i | 0 <= i < |s'.clients|
      ensures !Holds(s'.clients[i], c)
    {
      BagMember(AllHeld(s'.clients), i);
      HeldCount(s'.clients[i], c);
    }
  }

  /** The dial rendezvous has no crosstalk. At most one accepted dial is unanswered and it is the
      one the manager is answering; the answer can only be taken by the client that asked; nobody is
      waiting once ret is closed; and the bucket choice never panics. */
  lemma NoCrosstalk(cfg: Config, s: State)
    requires ValidConfig(cfg) && Reachable(cfg, s)
    ensures forall i, j | 0 <= i < |s.clients| && 0 <= j < |s.clients| ::
              s.clients[i].Awaiting? && s.clients[j].Awaiting? ==> i == j
    ensures forall i: nat :: Enabled(cfg, s, Reply(i)) ==> i == s.manager.asker
    ensures s.manager.Replying? ==> Enabled(cfg, s, Reply(s.manager.asker))
    ensures forall i: nat :: !Enabled(cfg, s, ReplyClosed(i))
    ensures !s.manager.Panicked?
  {
    ReachableInv(cfg, s);
  }

  /** Whatever a client is lent, pooled or fresh, is of the network it asked for. */
  lemma LentMatchesRequest(cfg: Config, s: State, i: nat)
    requires ValidConfig(cfg) && Reachable(cfg, s) && i < |s.clients| && s.clients[i].Holding?
    ensures s.clients[i].conn < |s.kinds| && DialedKind(s.clients[i].network) == Some(s.kinds[s.clients[i].conn])
  {
    ReachableInv(cfg, s);
    assert ClientTyped(cfg.host, s.kinds, s.clients[i]);
  }

  /** Nothing is pooled after stop. */
  lemma StopDrains(cfg: Config, s: State, t: nat)
    requires ValidConfig(cfg) && Reachable(cfg, s) && s.manager.Stopped? && t < TYPE_TOTAL_COUNT
    ensures s.buckets[t] == []
  {
    ReachableInv(cfg, s);
  }

  /** In every reachable state the buckets are sorted up to maxDelay, and what is pooled was younger
      than expire + maxDelay at the last tick. With no delay the buckets are sorted. */
  lemma BucketsNearSorted(cfg: Config, s: State, t: nat)
    requires ValidConfig(cfg) && Reachable(cfg, s) && t < TYPE_TOTAL_COUNT
    ensures NearSorted(s.buckets[t], s.used, cfg.maxDelay)
    ensures forall c :: c in s.buckets[t] ==> s.lastSweep - Used(s.used, c) < cfg.expire + cfg.maxDelay
  {
    ReachableInv(cfg, s);
    assert BucketTimed(cfg, s, s.buckets[t]);
  }

  /** A tick keeps only connections younger than expire + maxDelay, and what a tick or a dial hands
      to a closer is at least expire - maxDelay old. */
  lemma ExpiryIsTimely(cfg: Config, s: State, step: Step)
    requires ValidConfig(cfg) && Reachable(cfg, s) && Enabled(cfg, s, step)
    requires step.Tick? || step.AcceptDial?
    ensures var s' := Apply(cfg, s, step);
            && (step.Tick? ==> forall t, c :: 0 <= t < TYPE_TOTAL_COUNT && c in s'.buckets[t] ==>
                  s.now - Used(s.used, c) < cfg.expire + cfg.maxDelay)
            && |s.closers| <= |s'.closers|
            && (forall k, c :: |s.closers| <= k < |s'.closers| && c in s'.closers[k] ==>
                  s.now - Used(s.used, c) >= cfg.expire - cfg.maxDelay)
  {
    var s' := Apply(cfg, s, step);
    ReachableInv(cfg, s);
    if step.Tick? {
      TickIsTimely(cfg, s);
    } else {
      var bucket := s.buckets[StringToTransportType(s.clients[step.i].network)];
      assert BucketTimed(cfg, s, bucket);
      TakeBounds(bucket, s.used, cfg.expire, s.now, cfg.maxDelay);
    }
  }

  lemma TickIsTimely(cfg: Config, s: State)
    requires ValidConfig(cfg) && Inv(cfg, s)
    ensures var h := HandleSweep(s.buckets, false, s.used, cfg.expire, s.now);
            && (forall t, c :: 0 <= t < TYPE_TOTAL_COUNT && c in h.buckets[t] ==>
                  s.now - Used(s.used, c) < cfg.expire + cfg.maxDelay)
            && (forall k, c :: 0 <= k < |h.closers| && c in h.closers[k] ==>
                  s.now - Used(s.used, c) >= cfg.expire - cfg.maxDelay)
  {
    var h := HandleSweep(s.buckets, false, s.used, cfg.expire, s.now);
    forall t, c | 0 <= t < TYPE_TOTAL_COUNT && c in h.buckets[t]
      ensures s.now - Used(s.used, c) < cfg.expire + cfg.maxDelay
    {
      SweepParts(s.buckets, false, s.used, cfg.expire, s.now, t);
      assert BucketTimed(cfg, s, s.buckets[t]);
      SweepBounds(s.buckets[t], s.used, cfg.expire, s.now, cfg.maxDelay);
    }
    forall k, c | 0 <= k < |h.closers| && c in h.closers[k]
      ensures s.now - Used(s.used, c) >= cfg.expire - cfg.maxDelay
    {
      var t := LaunchedFrom(s.buckets, TYPE_TOTAL_COUNT, false, s.used, cfg.expire, s.now, k);
      assert BucketTimed(cfg, s, s.buckets[t]);
      SweepBounds(s.buckets[t], s.used, cfg.expire, s.now, cfg.maxDelay);
    }
  }

  /** Pooled in some bucket, and of the kind that the network dials. */
  ghost predicate Fits(s: State, network: string, c: Conn) {
    exists t :: 0 <= t < TYPE_TOTAL_COUNT && c in s.buckets[t] && c < |s.kinds| && DialedKind(network) == Some(s.kinds[c])
  }

  /** What fits a request is what is in the bucket that the request looks into. */
  lemma FitsIsBucket(cfg: Config, s: State, i: nat, c: Conn)
    requires ValidConfig(cfg) && Inv(cfg, s) && i < |s.clients| && s.clients[i].Asking?
    ensures Fits(s, s.clients[i].network, c) <==> c in s.buckets[StringToTransportType(s.clients[i].network)]
  {
    var network := s.clients[i].network;
    assert ClientTyped(cfg.host, s.kinds, s.clients[i]);
    BucketChoiceAgrees(cfg.host, network);
    if Fits(s, network, c) {
      var t :| 0 <= t < TYPE_TOTAL_COUNT && c in s.buckets[t] && c < |s.kinds| && DialedKind(network) == Some(s.kinds[c]);
      assert BucketTyped(cfg.host, s.kinds, s.buckets[t], t);
    }
    var u := StringToTransportType(network);
    assert BucketTyped(cfg.host, s.kinds, s.buckets[u], u);
  }

  /** In every run a dial is lent a connection that fits it, younger than expire, and, up to maxDelay,
      the youngest of all that fit; and it is lent none only if all that fit are at least
      expire - maxDelay old. Without delay it is lent one exactly when one that fits is younger than
      expire, although the manager looks at a single connection. */
  lemma DialLendsYoungest(cfg: Config, s: State, i: nat)
    requires ValidConfig(cfg) && Reachable(cfg, s) && Enabled(cfg, s, AcceptDial(i))
    ensures var network, reply := s.clients[i].network, Apply(cfg, s, AcceptDial(i)).manager.reply;
            && (reply.Some? ==>
                  && Fits(s, network, reply.value) && s.now - Used(s.used, reply.value) < cfg.expire
                  && forall c :: Fits(s, network, c) ==> Used(s.used, c) <= Used(s.used, reply.value) + cfg.maxDelay)
            && (reply.None? ==> forall c :: Fits(s, network, c) ==> s.now - Used(s.used, c) >= cfg.expire - cfg.maxDelay)
            && (cfg.maxDelay == 0 ==>
                  (reply.Some? <==> exists c :: Fits(s, network, c) && s.now - Used(s.used, c) < cfg.expire))
  {
    ReachableInv(cfg, s);
    var network := s.clients[i].network;
    var bucket := s.buckets[StringToTransportType(network)];
    assert BucketTimed(cfg, s, bucket);
    TakeBounds(bucket, s.used, cfg.expire, s.now, cfg.maxDelay);
    forall c
      ensures Fits(s, network, c) <==> c in bucket
    {
      FitsIsBucket(cfg, s, i, c);
    }
    var taken := Take(bucket, s.used, cfg.expire, s.now);
    if taken.reply.Some? {
      LastIsYoungest(bucket, s.used, cfg.maxDelay);
    }
  }

  lemma LastIsYoungest(bucket: seq<Conn>, used: seq<Time>, d: Time)
    requires NearSorted(bucket, used, d) && d >= 0 && bucket != []
    ensures forall c :: c in bucket ==> Used(used, c) <= Used(used, bucket[|bucket| - 1]) + d
  {
    forall c | c in bucket
      ensures Used(used, c) <= Used(used, bucket[|bucket| - 1]) + d
    {
      var k :| 0 <= k < |bucket| && bucket[k] == c;
    }
  }

  // ---------------------------------------------------------------- buckets are not always sorted

  lemma {:induction false} RunAppend(cfg: Config, s: State, steps: seq<Step>, step: Step)
    requires Legal(cfg, s, steps) && Enabled(cfg, Run(cfg, s, steps), step)
    ensures Legal(cfg, s, steps + [step])
    ensures Run(cfg, s, steps + [step]) == Apply(cfg, Run(cfg, s, steps), step)
    decreases |steps|
  {
    if steps == [] {
      assert [step][1..] == [];
    } else {
      assert (steps + [step])[1..] == steps[1..] + [step];
      RunAppend(cfg, Apply(cfg, s, steps[0]), steps[1..], step);
    }
  }

  lemma ReachableStep(cfg: Config, s: State, step: Step)
    requires Reachable(cfg, s) && Enabled(cfg, s, step)
    ensures Reachable(cfg, Apply(cfg, s, step))
  {
    var start, steps :| Init(start) && Legal(cfg, start, steps) && s == Run(cfg, start, steps);
    RunAppend(cfg, start, steps, step);
  }

  /** The network and the bucket of a udp request. */
  function UdpNetwork(cfg: Config): string {
    NetworkFor(cfg.host, "udp")
  }

  function UdpBucket(cfg: Config): nat {
    StringToTransportType(UdpNetwork(cfg))
  }

  /** A client asks an empty pool. */
  lemma NothingLent(cfg: Config, s: State, i: nat) returns (s': State)
    requires Reachable(cfg, s)
    requires i < |s.clients| && s.clients[i].Idle? && s.buckets == [[], [], []] && s.manager.Ready?
    ensures Reachable(cfg, s') && s' == s.(clients := s.clients[i := MustDial(UdpNetwork(cfg))])
  {
    ReachableStep(cfg, s, Begin(i, "udp"));
    var a := Apply(cfg, s, Begin(i, "udp"));
    ReachableStep(cfg, a, AcceptDial(i));
    var b := Apply(cfg, a, AcceptDial(i));
    assert b.buckets == s.buckets;
    ReachableStep(cfg, b, Reply(i));
    s' := Apply(cfg, b, Reply(i));
    assert s'.clients == s.clients[i := MustDial(UdpNetwork(cfg))];
  }

  lemma OneFreshConnection(cfg: Config, s: State, i: nat) returns (s': State)
    requires ValidConfig(cfg) && Reachable(cfg, s)
    requires i < |s.clients| && s.clients[i].Idle? && s.buckets == [[], [], []] && s.manager.Ready?
    ensures Reachable(cfg, s') && DialedKind(UdpNetwork(cfg)).Some?
    ensures s' == s.(clients := s.clients[i := Holding(UdpNetwork(cfg), |s.kinds|, false)],
                     kinds := s.kinds + [DialedKind(UdpNetwork(cfg)).value], used := s.used + [0])
  {
    BucketChoiceAgrees(cfg.host, UdpNetwork(cfg));
    var a := NothingLent(cfg, s, i);
    ReachableStep(cfg, a, Connect(i, true));
    s' := Apply(cfg, a, Connect(i, true));
    assert s'.clients == s.clients[i := Holding(UdpNetwork(cfg), |s.kinds|, false)];
  }

  lemma TwoFreshConnections(cfg: Config) returns (s: State)
    requires ValidConfig(cfg)
    ensures Reachable(cfg, s) && DialedKind(UdpNetwork(cfg)).Some?
    ensures var network, kind := UdpNetwork(cfg), DialedKind(UdpNetwork(cfg)).value;
            s == State(0, 0, [kind, kind], [0, 0], [[], [], []],
                       [Holding(network, 0, false), Holding(network, 1, false)], Ready, [], [], [])
  {
    s := State(0, 0, [], [], [[], [], []], [Idle, Idle], Ready, [], [], []);
    assert Legal(cfg, s, []) && Run(cfg, s, []) == s;
    s := OneFreshConnection(cfg, s, 0);
    s := OneFreshConnection(cfg, s, 1);
  }

  /** Client 0 has stamped its connection before client 1, and both are about to be received. */
  lemma TwoYielding(cfg: Config) returns (s: State)
    requires ValidConfig(cfg)
    ensures Reachable(cfg, s) && DialedKind(UdpNetwork(cfg)).Some?
    ensures var kind := DialedKind(UdpNetwork(cfg)).value;
            s == State(1, 0, [kind, kind], [0, 1], [[], [], []], [Yielding(0), Yielding(1)], Ready, [], [], [])
  {
    s := TwoFreshConnections(cfg);
    ReachableStep(cfg, s, Stamp(0));
    s := Apply(cfg, s, Stamp(0));
    ReachableStep(cfg, s, Pass(1));
    s := Apply(cfg, s, Pass(1));
    ReachableStep(cfg, s, Stamp(1));
    s := Apply(cfg, s, Stamp(1));
    assert s.used == [0, 1] && s.clients == [Yielding(0), Yielding(1)];
  }

  /** The connection stamped first is received second, and has just expired. */
  lemma ReceivedOutOfOrder(cfg: Config) returns (s: State)
    requires ValidConfig(cfg) && cfg.maxDelay > 0
    ensures Reachable(cfg, s) && s.manager.Ready? && s.now == cfg.expire && s.used == [0, 1]
    ensures s.buckets[UdpBucket(cfg)] == [1, 0]
  {
    s := TwoYielding(cfg);
    BucketChoiceAgrees(cfg.host, UdpNetwork(cfg));
    ReachableStep(cfg, s, ReceiveYield(1));
    s := Apply(cfg, s, ReceiveYield(1));
    ReachableStep(cfg, s, ReceiveYield(0));
    s := Apply(cfg, s, ReceiveYield(0));
    ReachableStep(cfg, s, Pass(cfg.expire - 1));
    s := Apply(cfg, s, Pass(cfg.expire - 1));
  }

  ghost predicate AlwaysSorted(cfg: Config) {
    forall s, t :: Reachable(cfg, s) && 0 <= t < TYPE_TOTAL_COUNT ==> NearSorted(s.buckets[t], s.used, 0)
  }

  /** After a tick nothing is pooled that has expired. */
  ghost predicate TicksExpireAll(cfg: Config) {
    forall s, t, c | Reachable(cfg, s) && Enabled(cfg, s, Tick) && 0 <= t < TYPE_TOTAL_COUNT
                     && c in Apply(cfg, s, Tick).buckets[t] :: s.now - Used(s.used, c) < cfg.expire
  }

  /** With any delay there is a run in which a bucket is not sorted and a tick keeps a connection
      that has expired. */
  lemma SortednessFails(cfg: Config) returns (s: State, c: Conn)
    requires ValidConfig(cfg) && cfg.maxDelay > 0
    ensures Reachable(cfg, s) && Enabled(cfg, s, Tick)
    ensures !NearSorted(s.buckets[UdpBucket(cfg)], s.used, 0)
    ensures c in Apply(cfg, s, Tick).buckets[UdpBucket(cfg)] && s.now - Used(s.used, c) >= cfg.expire
  {
    s := ReceivedOutOfOrder(cfg);
    c := 0;
    var bucket := s.buckets[UdpBucket(cfg)];
    assert Used(s.used, bucket[0]) == 1 && Used(s.used, bucket[1]) == 0;
    SweepParts(s.buckets, false, s.used, cfg.expire, s.now, UdpBucket(cfg));
    assert Good(bucket, s.used, s.now - cfg.expire, 0);
  }

  /** The comment that buckets are sorted by last use, and with it the intention that a tick removes
      all that has expired, holds of all runs exactly when a yield is received at the time of its
      stamp: for every other configuration a yield stamped first can be received second. */
  lemma SortedExactlyWithoutDelay(cfg: Config)
    requires ValidConfig(cfg)
    ensures AlwaysSorted(cfg) <==> cfg.maxDelay == 0
    ensures TicksExpireAll(cfg) <==> cfg.maxDelay == 0
  {
    if cfg.maxDelay > 0 {
      var s, c := SortednessFails(cfg);
    } else {
      forall s, t | Reachable(cfg, s) && 0 <= t < TYPE_TOTAL_COUNT
        ensures NearSorted(s.buckets[t], s.used, 0)
      {
        BucketsNearSorted(cfg, s, t);
      }
      forall s, t, c | Reachable(cfg, s) && Enabled(cfg, s, Tick) && 0 <= t < TYPE_TOTAL_COUNT
                       && c in Apply(cfg, s, Tick).buckets[t]
        ensures s.now - Used(s.used, c) < cfg.expire
      {
        ExpiryIsTimely(cfg, s, Tick);
      }
    }
  }
}
