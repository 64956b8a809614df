/** Every interleaving, seen from the manager, is a sequence of events that the select loop serves.
    This ties what is proved of all runs to the manager that works on slices of shared arrays. */
module PoolRefinement {
  import opened Options
  import opened TransportTypes
  import opened ConnPool
  import opened PoolSystem
  import M = ConnManager

  /** The event a step delivers to the manager, if any. */
  function EventOf(s: State, step: Step): seq<M.Event> {
    match step
    case AcceptDial(i) =>
      if i < |s.clients| && s.clients[i].Asking? then [M.DialEvent(s.clients[i].network, s.used, s.now)] else []
    case ReceiveYield(i) =>
      if i < |s.clients| && s.clients[i].Yielding? && s.clients[i].conn < |s.kinds|
      then [M.YieldEvent(s.clients[i].conn, s.kinds[s.clients[i].conn])] else []
    case Tick => [M.TickEvent(s.used, s.now)]
    case Stop => [M.StopEvent(s.used, s.now)]
    case _ => []
  }

  function EventsOf(cfg: Config, s: State, steps: seq<Step>): seq<M.Event>
    requires Legal(cfg, s, steps)
    decreases |steps|
  {
    if steps == [] then [] else EventOf(s, steps[0]) + EventsOf(cfg, Apply(cfg, s, steps[0]), steps[1..])
  }

  ghost predicate IsSuffix(a: seq<Conn>, b: seq<Conn>) {
    |a| <= |b| && a == b[|b| - |a|..]
  }

  /** The history has the buckets of the state, and each closer still has a final part of the window
      it was handed to close. */
  ghost predicate Matches(h: M.History, s: State) {
    && h.buckets == s.buckets
    && |h.closers| == |s.closers|
    && (forall k :: 0 <= k < |s.closers| ==> IsSuffix(s.closers[k], h.closers[k]))
    && (h.outcome.Running? <==> s.manager.Ready? || s.manager.Replying?)
  }

  lemma MatchesMore(h: M.History, s: State, more: seq<seq<Conn>>)
    requires Matches(h, s)
    ensures forall k :: 0 <= k < |s.closers + more| ==> IsSuffix((s.closers + more)[k], (h.closers + more)[k])
  {
  }

  lemma ServeOne(h: M.History, expire: Time, tls: bool, e: M.Event, rest: seq<M.Event>)
    requires h.outcome.Running?
    ensures M.ServeAll(h, expire, tls, [e] + rest) == M.ServeAll(M.Serve(h, expire, tls, e), expire, tls, rest)
  {
    assert ([e] + rest)[1..] == rest;
  }

  function Advance(h: M.History, cfg: Config, s: State, step: Step): M.History {
    var e := EventOf(s, step);
    if e == [] then h else M.Serve(h, cfg.expire, cfg.host.tls, e[0])
  }

  lemma MatchesStep(h: M.History, cfg: Config, s: State, step: Step)
    requires Matches(h, s) && Enabled(cfg, s, step)
    ensures Matches(Advance(h, cfg, s, step), Apply(cfg, s, step))
  {
    var h', s' := Advance(h, cfg, s, step), Apply(cfg, s, step);
    match step {
      case AcceptDial(i) =>
        MatchesMore(h, s, HandleDial(s.buckets, s.clients[i].network, s.used, cfg.expire, s.now).closers);
      case Tick =>
        MatchesMore(h, s, HandleSweep(s.buckets, false, s.used, cfg.expire, s.now).closers);
      case Stop =>
        MatchesMore(h, s, HandleSweep(s.buckets, true, s.used, cfg.expire, s.now).closers);
      case CloseNext(k) =>
        var a, b := s.closers[k], h.closers[k];
        assert a[1..] == b[|b| - |a| + 1..];
      case _ =>
    }
  }

  lemma {:induction false} MatchesRun(h: M.History, cfg: Config, s: State, steps: seq<Step>)
    requires Matches(h, s) && Legal(cfg, s, steps)
    ensures Matches(M.ServeAll(h, cfg.expire, cfg.host.tls, EventsOf(cfg, s, steps)), Run(cfg, s, steps))
    decreases |steps|
  {
    if steps != [] {
      var step, s' := steps[0], Apply(cfg, s, steps[0]);
      MatchesStep(h, cfg, s, step);
      MatchesRun(Advance(h, cfg, s, step), cfg, s', steps[1..]);
      AdvanceServes(h, cfg, s, step, EventsOf(cfg, s', steps[1..]));
    }
  }

  /** What a step puts on ret, if it accepts a dial. */
  function ReplyOf(cfg: Config, s: State, step: Step): seq<Option<Conn>>
    requires Enabled(cfg, s, step)
  {
    var s' := Apply(cfg, s, step);
    if step.AcceptDial? && s'.manager.Replying? then [s'.manager.reply] else []
  }

  /** The answers of a run, in order. */
  function RepliesOf(cfg: Config, s: State, steps: seq<Step>): seq<Option<Conn>>
    requires Legal(cfg, s, steps)
    decreases |steps|
  {
    if steps == [] then [] else ReplyOf(cfg, s, steps[0]) + RepliesOf(cfg, Apply(cfg, s, steps[0]), steps[1..])
  }

  lemma RepliesStep(h: M.History, cfg: Config, s: State, step: Step)
    requires Matches(h, s) && Enabled(cfg, s, step)
    ensures Advance(h, cfg, s, step).replies == h.replies + ReplyOf(cfg, s, step)
  {
  }

  lemma {:induction false} RepliesRun(h: M.History, cfg: Config, s: State, steps: seq<Step>)
    requires Matches(h, s) && Legal(cfg, s, steps)
    ensures M.ServeAll(h, cfg.expire, cfg.host.tls, EventsOf(cfg, s, steps)).replies == h.replies + RepliesOf(cfg, s, steps)
    decreases |steps|
  {
    if steps != [] {
      var step, s' := steps[0], Apply(cfg, s, steps[0]);
      var next := Advance(h, cfg, s, step);
      MatchesStep(h, cfg, s, step);
      RepliesStep(h, cfg, s, step);
      RepliesRun(next, cfg, s', steps[1..]);
      AdvanceServes(h, cfg, s, step, EventsOf(cfg, s', steps[1..]));
      Regroup(h.replies, ReplyOf(cfg, s, step), RepliesOf(cfg, s', steps[1..]));
    } else {
      assert h.replies + [] == h.replies;
    }
  }

  lemma Regroup(a: seq<Option<Conn>>, b: seq<Option<Conn>>, c: seq<Option<Conn>>)
    ensures (a + b) + c == a + (b + c)
  {
  }

  lemma AdvanceServes(h: M.History, cfg: Config, s: State, step: Step, rest: seq<M.Event>)
    requires Matches(h, s) && Enabled(cfg, s, step)
    ensures M.ServeAll(h, cfg.expire, cfg.host.tls, EventOf(s, step) + rest)
         == M.ServeAll(Advance(h, cfg, s, step), cfg.expire, cfg.host.tls, rest)
  {
    var e := EventOf(s, step);
    if e == [] {
      assert e + rest == rest;
    } else {
      assert e == [e[0]];
      ServeOne(h, cfg.expire, cfg.host.tls, e[0], rest);
    }
  }

  /** For every run there is one sequence of events such that a manager that serves it ends with the
      buckets of the run, having handed out the windows that the run's closers are working through
      and answered the dials of the run with what the run put on ret, in order; and it never panics.
      The select loop on slices computes exactly this history. */
  lemma RunIsServed(cfg: Config, start: State, steps: seq<Step>)
    requires ValidConfig(cfg) && Init(start) && Legal(cfg, start, steps)
    ensures var h := M.ServeAll(M.Empty, cfg.expire, cfg.host.tls, EventsOf(cfg, start, steps));
            && Matches(h, Run(cfg, start, steps))
            && h.replies == RepliesOf(cfg, start, steps)
            && (h.outcome.Running? || Run(cfg, start, steps).manager.Stopped?)
  {
    MatchesRun(M.Empty, cfg, start, steps);
    RepliesRun(M.Empty, cfg, start, steps);
    InitInv(cfg, start);
    RunInv(cfg, start, steps);
  }
}
