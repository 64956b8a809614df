/** Updates of the dial average that overlap. An update loads the average and adds to it in two atomic
    steps, and any number of others may add in between. */
module DialRace {
  import opened DialTime

  /** An update between its load and its add; lag counts the adds of others since the load. */
  datatype Flight = Flight(loaded: int, x: int, lag: nat)

  datatype State = State(avg: int, flights: seq<Flight>)

  datatype Step = Load(x: int) | Add(i: nat)

  /** What a run keeps to: how far an update may lag behind, and how many may be in flight. */
  datatype Bounds = Bounds(lag: nat, flights: nat)

  predicate Enabled(b: Bounds, s: State, step: Step) {
    match step
    case Load(_) => |s.flights| < b.flights
    case Add(i) => i < |s.flights| && s.flights[i].lag <= b.lag
  }

  function Later(flights: seq<Flight>): (r: seq<Flight>)
    ensures |r| == |flights|
    ensures forall i :: 0 <= i < |flights| ==> r[i] == flights[i].(lag := flights[i].lag + 1)
  {
    seq(|flights|, i requires 0 <= i < |flights| => flights[i].(lag := flights[i].lag + 1))
  }

  function Apply(b: Bounds, s: State, step: Step): State
    requires Enabled(b, s, step)
  {
    match step
    case Load(x) => State(s.avg, s.flights + [Flight(s.avg, x, 0)])
    case Add(i) =>
      State(s.avg + Quo(s.flights[i].x - s.flights[i].loaded, WEIGHT), Later(s.flights[..i] + s.flights[i + 1..]))
  }

  predicate Legal(b: Bounds, s: State, steps: seq<Step>)
    decreases |steps|
  {
    steps == [] || (Enabled(b, s, steps[0]) && Legal(b, Apply(b, s, steps[0]), steps[1..]))
  }

  function Run(b: Bounds, s: State, steps: seq<Step>): State
    requires Legal(b, s, steps)
    decreases |steps|
  {
    if steps == [] then s else Run(b, Apply(b, s, steps[0]), steps[1..])
  }

  predicate Observes(steps: seq<Step>, lo: int, hi: int) {
    forall k :: 0 <= k < |steps| && steps[k].Load? ==> lo <= steps[k].x <= hi
  }

  /** In every run within the bounds the average stays in the hull of its start and of what is observed. */
  ghost predicate AlwaysInHull(b: Bounds) {
    forall avg, steps, lo, hi | lo <= avg <= hi && Observes(steps, lo, hi) && Legal(b, State(avg, []), steps) ::
      lo <= Run(b, State(avg, []), steps).avg <= hi
  }

  // ---------------------------------------------------------------- one add in between

  /** prev is the average before the last add. No add has more than halved the distance to either end
      of the hull; what has not lagged has loaded the average, and what lags by one the one before. */
  ghost predicate Inv(s: State, prev: int, lo: int, hi: int) {
    && lo <= s.avg <= hi && lo <= prev <= hi
    && hi - prev <= 2 * (hi - s.avg) && prev - lo <= 2 * (s.avg - lo)
    && forall i :: 0 <= i < |s.flights| ==> FlightOk(s.flights[i], s.avg, prev, lo, hi)
  }

  predicate FlightOk(f: Flight, avg: int, prev: int, lo: int, hi: int) {
    lo <= f.x <= hi && (f.lag == 0 ==> f.loaded == avg) && (f.lag == 1 ==> f.loaded == prev)
  }

  lemma AddHalves(avg: int, prev: int, loaded: int, x: int, lo: int, hi: int)
    requires lo <= avg <= hi && lo <= prev <= hi && lo <= x <= hi && (loaded == avg || loaded == prev)
    requires hi - prev <= 2 * (hi - avg) && prev - lo <= 2 * (avg - lo)
    ensures var next := avg + Quo(x - loaded, WEIGHT);
            lo <= next <= hi && hi - avg <= 2 * (hi - next) && avg - lo <= 2 * (next - lo)
  {
  }

  lemma InvStep(b: Bounds, s: State, step: Step, prev: int, lo: int, hi: int)
    requires Inv(s, prev, lo, hi) && Enabled(b, s, step)
    requires if step.Load? then lo <= step.x <= hi else s.flights[step.i].lag <= 1
    ensures Inv(Apply(b, s, step), if step.Add? then s.avg else prev, lo, hi)
  {
    if step.Add? {
      var f := s.flights[step.i];
      assert FlightOk(f, s.avg, prev, lo, hi);
      AddHalves(s.avg, prev, f.loaded, f.x, lo, hi);
      var rest := s.flights[..step.i] + s.flights[step.i + 1..];
      forall k | 0 <= k < |rest|
        ensures FlightOk(Later(rest)[k], Apply(b, s, step).avg, s.avg, lo, hi)
      {
        assert rest[k] == s.flights[if k < step.i then k else k + 1];
        assert FlightOk(rest[k], s.avg, prev, lo, hi);
      }
    }
  }

  /** With one update in flight at a time, none lags. */
  ghost predicate OneByOne(b: Bounds, s: State) {
    b.flights <= 1 && |s.flights| <= 1 && forall i :: 0 <= i < |s.flights| ==> s.flights[i].lag == 0
  }

  lemma {:induction false} RunInHull(b: Bounds, s: State, steps: seq<Step>, prev: int, lo: int, hi: int)
    requires Inv(s, prev, lo, hi) && Legal(b, s, steps) && (b.lag <= 1 || OneByOne(b, s)) && Observes(steps, lo, hi)
    ensures lo <= Run(b, s, steps).avg <= hi
    decreases |steps|
  {
    if steps != [] {
      InvStep(b, s, steps[0], prev, lo, hi);
      RunInHull(b, Apply(b, s, steps[0]), steps[1..], if steps[0].Add? then s.avg else prev, lo, hi);
    }
  }

  // ---------------------------------------------------------------- two adds in between

  const TOP: int := 1024

  /** Reached from average 0 while all observations are TOP. */
  ghost predicate Reached(b: Bounds, s: State) {
    exists steps :: Observes(steps, TOP, TOP) && Legal(b, State(0, []), steps) && s == Run(b, State(0, []), steps)
  }

  lemma {:induction false} RunAppend(b: Bounds, s: State, steps: seq<Step>, step: Step)
    requires Legal(b, s, steps) && Enabled(b, Run(b, s, steps), step)
    ensures Legal(b, s, steps + [step]) && Run(b, s, steps + [step]) == Apply(b, Run(b, s, steps), step)
    decreases |steps|
  {
    if steps == [] {
      assert [step][1..] == [];
    } else {
      assert (steps + [step])[1..] == steps[1..] + [step];
      RunAppend(b, Apply(b, s, steps[0]), steps[1..], step);
    }
  }

  lemma ReachedStep(b: Bounds, s: State, step: Step) returns (s': State)
    requires Reached(b, s) && Enabled(b, s, step) && (step.Load? ==> step.x == TOP)
    ensures s' == Apply(b, s, step) && Reached(b, s')
  {
    var steps :| Observes(steps, TOP, TOP) && Legal(b, State(0, []), steps) && s == Run(b, State(0, []), steps);
    RunAppend(b, State(0, []), steps, step);
    assert Observes(steps + [step], TOP, TOP);
    s' := Apply(b, s, step);
  }

  /** While one update lags, another loads and adds, a third loads, and then the first adds, having
      lagged by two: only two are in flight at any time, and the third lags in its turn. */
  lemma Overtaken(b: Bounds, s: State, loaded: int) returns (s': State)
    requires b.lag >= 2 && b.flights >= 2 && Reached(b, s) && s.flights == [Flight(loaded, TOP, 1)]
    ensures Reached(b, s')
    ensures var between := s.avg + Quo(TOP - s.avg, WEIGHT);
            s' == State(between + Quo(TOP - loaded, WEIGHT), [Flight(between, TOP, 1)])
  {
    s' := LoadThenAdd(b, s, Flight(loaded, TOP, 1), true);
    s' := LoadThenAdd(b, s', Flight(loaded, TOP, 2), false);
  }

  /** An update loads, and then it or the one in flight adds. */
  lemma LoadThenAdd(b: Bounds, s: State, f: Flight, itself: bool) returns (s': State)
    requires b.lag >= 2 && b.flights >= 2 && Reached(b, s) && s.flights == [f] && f.lag <= 2
    ensures Reached(b, s')
    ensures s' == if itself then State(s.avg + Quo(TOP - s.avg, WEIGHT), [f.(lag := f.lag + 1)])
                  else State(s.avg + Quo(f.x - f.loaded, WEIGHT), [Flight(s.avg, TOP, 1)])
  {
    s' := ReachedStep(b, s, Load(TOP));
    var g := Flight(s.avg, TOP, 0);
    assert s'.flights == [f, g];
    assert [f, g][..1] + [f, g][2..] == [f] && [f, g][..0] + [f, g][1..] == [g];
    s' := ReachedStep(b, s', Add(if itself then 1 else 0));
  }

  lemma OneLags(b: Bounds) returns (s: State)
    requires b.lag >= 2 && b.flights >= 2
    ensures Reached(b, s) && s == State(256, [Flight(0, TOP, 1)])
  {
    s := State(0, []);
    assert Legal(b, s, []) && Run(b, s, []) == s && Observes([], TOP, TOP);
    s := ReachedStep(b, s, Load(TOP));
    assert s.flights == [Flight(0, TOP, 0)];
    s := LoadThenAdd(b, s, Flight(0, TOP, 0), true);
  }

  /** Done three times over, this takes the average beyond everything that was observed. */
  lemma LaggingLeavesHull(b: Bounds) returns (s: State)
    requires b.lag >= 2 && b.flights >= 2
    ensures Reached(b, s) && s.avg == 1030 > TOP
  {
    s := OneLags(b);
    s := Overtaken(b, s, 0);
    s := Overtaken(b, s, 448);
    s := Overtaken(b, s, 784);
    assert s == State(1012, [Flight(952, TOP, 1)]);
    s := ReachedStep(b, s, Add(0));
  }

  /** Over all interleavings of updates, the average stays in the hull of its start and of what is
      observed exactly when no update lags by more than one add of others, or when updates follow one
      another. Two updates in flight, one of them lagging by two, are enough to leave it. */
  lemma InHullExactly(b: Bounds)
    ensures AlwaysInHull(b) <==> b.lag <= 1 || b.flights <= 1
  {
    if b.lag <= 1 || b.flights <= 1 {
      forall avg, steps, lo, hi | lo <= avg <= hi && Observes(steps, lo, hi) && Legal(b, State(avg, []), steps)
        ensures lo <= Run(b, State(avg, []), steps).avg <= hi
      {
        RunInHull(b, State(avg, []), steps, avg, lo, hi);
      }
    } else {
      var s := LaggingLeavesHull(b);
      var steps :| Observes(steps, TOP, TOP) && Legal(b, State(0, []), steps) && s == Run(b, State(0, []), steps);
      assert Observes(steps, 0, TOP);
    }
  }

  // ---------------------------------------------------------------- all together

  function Waiting(avg: int, xs: seq<int>, lag: nat): (r: seq<Flight>)
    ensures |r| == |xs| && forall i :: 0 <= i < |xs| ==> r[i] == Flight(avg, xs[i], lag)
  {
    seq(|xs|, i requires 0 <= i < |xs| => Flight(avg, xs[i], lag))
  }

  /** Updates that have all loaded one value add one after the other. */
  lemma {:induction false} AddAll(b: Bounds, avg: int, loaded: int, xs: seq<int>, lag: nat) returns (steps: seq<Step>)
    requires lag + |xs| <= b.lag + 1
    ensures var s := State(avg, Waiting(loaded, xs, lag));
            && Legal(b, s, steps) && Run(b, s, steps) == State(avg + Steps(loaded, xs), [])
            && forall k :: 0 <= k < |steps| ==> steps[k] == Add(0)
    decreases |xs|
  {
    steps := [];
    if xs != [] {
      var s := State(avg, Waiting(loaded, xs, lag));
      var next := avg + Quo(xs[0] - loaded, WEIGHT);
      var rest := AddAll(b, next, loaded, xs[1..], lag + 1);
      steps := [Add(0)] + rest;
      assert Later(s.flights[..0] + s.flights[1..]) == Waiting(loaded, xs[1..], lag + 1);
      assert steps[1..] == rest;
    }
  }

  lemma {:induction false} LoadAll(b: Bounds, avg: int, before: seq<int>, xs: seq<int>) returns (steps: seq<Step>)
    requires |before| + |xs| <= b.flights
    ensures var s := State(avg, Waiting(avg, before, 0));
            Legal(b, s, steps) && Run(b, s, steps) == State(avg, Waiting(avg, before + xs, 0))
    ensures |steps| == |xs| && forall k :: 0 <= k < |xs| ==> steps[k] == Load(xs[k])
    decreases |xs|
  {
    steps := [];
    if xs == [] {
      assert before + xs == before;
    } else {
      var s := State(avg, Waiting(avg, before, 0));
      var rest := LoadAll(b, avg, before + [xs[0]], xs[1..]);
      steps := [Load(xs[0])] + rest;
      assert s.flights + [Flight(avg, xs[0], 0)] == Waiting(avg, before + [xs[0]], 0);
      assert before + [xs[0]] + xs[1..] == before + xs;
      assert steps[1..] == rest;
    }
  }

  lemma {:induction false} RunConcat(b: Bounds, s: State, a: seq<Step>, c: seq<Step>)
    requires Legal(b, s, a) && Legal(b, Run(b, s, a), c)
    ensures Legal(b, s, a + c) && Run(b, s, a + c) == Run(b, Run(b, s, a), c)
    decreases |a|
  {
    if a == [] {
      assert a + c == c;
    } else {
      assert (a + c)[1..] == a[1..] + c;
      RunConcat(b, Apply(b, s, a[0]), a[1..], c);
    }
  }

  /** The updates that all load one value before any of them adds are a special case: the last of k of
      them lags by k - 1. */
  lemma TogetherIsRun(avg: int, xs: seq<int>) returns (b: Bounds, steps: seq<Step>)
    ensures b == Bounds(if xs == [] then 0 else |xs| - 1, |xs|)
    ensures Legal(b, State(avg, []), steps) && Run(b, State(avg, []), steps).avg == AddedTogether(avg, xs)
    ensures forall lo, hi :: InHull(avg, xs, lo, hi) ==> Observes(steps, lo, hi)
  {
    b := Bounds(if xs == [] then 0 else |xs| - 1, |xs|);
    var loads := LoadAll(b, avg, [], xs);
    assert Waiting(avg, [], 0) == [] && [] + xs == xs;
    var adds := AddAll(b, avg, avg, xs, 0);
    RunConcat(b, State(avg, []), loads, adds);
    steps := loads + adds;
  }
}
