/** Reloading a name list from a URL: the goroutine of the initial fetch and the periodic updater
    work on one item under its lock, which holds the names and the hash of the content. */
module UrlReload {
  import opened Options

  type Names = set<string>

  datatype Updater =
    | Idle
    | Fetched(content: string)                    // before the hash of the item is read
    | Building(content: string)                   // the hash differed, the set is being built
    | Built(content: string, names: Names)        // before the lock is taken to store it

  datatype Config = Config(parse: string -> Names, hash: string -> nat)

  /** fetched is the record of all contents that were ever fetched. */
  datatype State = State(names: Names, contentHash: nat, updaters: seq<Updater>, fetched: set<string>)

  datatype Step =
    | Fetch(u: nat, content: Option<string>)
    | Compare(u: nat)
    | Build(u: nat)
    | Store(u: nat)

  /** The item starts with no names and hash zero. */
  ghost predicate Init(s: State) {
    s.names == {} && s.contentHash == 0 && s.fetched == {}
    && forall u :: 0 <= u < |s.updaters| ==> s.updaters[u].Idle?
  }

  predicate Enabled(s: State, step: Step) {
    step.u < |s.updaters|
    && match step
       case Fetch(u, _) => s.updaters[u].Idle?
       case Compare(u) => s.updaters[u].Fetched?
       case Build(u) => s.updaters[u].Building?
       case Store(u) => s.updaters[u].Built?
  }

  function Apply(cfg: Config, s: State, step: Step): State
    requires Enabled(s, step)
  {
    var up := s.updaters[step.u];
    match step
    case Fetch(u, content) =>
      if content.None? then s
      else s.(updaters := s.updaters[u := Fetched(content.value)], fetched := s.fetched + {content.value})
    case Compare(u) =>
      s.(updaters := s.updaters[u := if cfg.hash(up.content) == s.contentHash then Idle else Building(up.content)])
    case Build(u) => s.(updaters := s.updaters[u := Built(up.content, cfg.parse(up.content))])
    case Store(u) => s.(updaters := s.updaters[u := Idle], names := up.names, contentHash := cfg.hash(up.content))
  }

  predicate Legal(cfg: Config, s: State, steps: seq<Step>)
    decreases |steps|
  {
    steps == [] || (Enabled(s, steps[0]) && Legal(cfg, Apply(cfg, s, steps[0]), steps[1..]))
  }

  function Run(cfg: Config, s: State, steps: seq<Step>): State
    requires Legal(cfg, s, steps)
    decreases |steps|
  {
    if steps == [] then s else Run(cfg, Apply(cfg, s, steps[0]), steps[1..])
  }

  /** Names and hash belong together. */
  ghost predicate Consistent(cfg: Config, s: State) {
    (s.names == {} && s.contentHash == 0)
    || exists c :: c in s.fetched && s.names == cfg.parse(c) && s.contentHash == cfg.hash(c)
  }

  ghost predicate UpdaterOk(cfg: Config, s: State, up: Updater) {
    && (!up.Idle? ==> up.content in s.fetched)
    && (up.Built? ==> up.names == cfg.parse(up.content))
  }

  ghost predicate Inv(cfg: Config, s: State) {
    Consistent(cfg, s) && forall u :: 0 <= u < |s.updaters| ==> UpdaterOk(cfg, s, s.updaters[u])
  }

  lemma InvStep(cfg: Config, s: State, step: Step)
    requires Inv(cfg, s) && Enabled(s, step)
    ensures Inv(cfg, Apply(cfg, s, step))
  {
    var s' := Apply(cfg, s, step);
    assert UpdaterOk(cfg, s, s.updaters[step.u]);
    assert s.fetched <= s'.fetched;
    forall u | 0 <= u < |s'.updaters|
      ensures UpdaterOk(cfg, s', s'.updaters[u])
    {
      assert UpdaterOk(cfg, s, s.updaters[u]);
    }
    if step.Store? {
      var c := s.updaters[step.u].content;
      assert c in s'.fetched && s'.names == cfg.parse(c) && s'.contentHash == cfg.hash(c);
    } else if !(s.names == {} && s.contentHash == 0) {
      var c :| c in s.fetched && s.names == cfg.parse(c) && s.contentHash == cfg.hash(c);
      assert c in s'.fetched;
    }
  }

  lemma {:induction false} RunInv(cfg: Config, s: State, steps: seq<Step>)
    requires Inv(cfg, s) && Legal(cfg, s, steps)
    ensures Inv(cfg, Run(cfg, s, steps))
    decreases |steps|
  {
    if steps != [] {
      InvStep(cfg, s, steps[0]);
      RunInv(cfg, Apply(cfg, s, steps[0]), steps[1..]);
    }
  }

  /** Under every interleaving the item holds the initial pair or the names and the hash of one and
      the same fetched content: no reader sees a half-built set or a mixed pair. */
  lemma PairIsConsistent(cfg: Config, start: State, steps: seq<Step>)
    requires Init(start) && Legal(cfg, start, steps)
    ensures Consistent(cfg, Run(cfg, start, steps))
  {
    RunInv(cfg, start, steps);
  }

  // ---------------------------------------------------------------- the hash as a proxy

  /** The step ends a call of updateItemFromUrl that has fetched something, in whatever way. */
  predicate Completes(cfg: Config, s: State, step: Step, u: nat)
    requires Enabled(s, step)
  {
    u < |s.updaters| && !s.updaters[u].Idle?
    && u < |Apply(cfg, s, step).updaters| && Apply(cfg, s, step).updaters[u].Idle?
  }

  /** The update that completes leaves the names of the content it fetched. */
  ghost predicate TakesEffect(cfg: Config, s: State, last: Step, u: nat)
    requires Enabled(s, last) && Completes(cfg, s, last, u)
  {
    Apply(cfg, s, last).names == cfg.parse(s.updaters[u].content)
  }

  /** A call ends by storing what it built or because the hash is that of the item, not otherwise. */
  lemma EndsByStoreOrSkip(cfg: Config, s: State, step: Step, u: nat)
    requires Enabled(s, step) && Completes(cfg, s, step, u)
    ensures step == Store(u) || (step == Compare(u) && s.contentHash == cfg.hash(s.updaters[u].content))
  {
  }

  ghost predicate Reachable(cfg: Config, s: State) {
    exists start, steps :: Init(start) && Legal(cfg, start, steps) && s == Run(cfg, start, steps)
  }

  /** In every run that fetches nothing but these contents, every completed update takes effect. */
  ghost predicate AlwaysTakesEffect(cfg: Config, contents: iset<string>) {
    forall s, last, u | Reachable(cfg, s) && (forall c :: c in s.fetched ==> c in contents)
                        && Enabled(s, last) && Completes(cfg, s, last, u) :: TakesEffect(cfg, s, last, u)
  }

  /** Contents with equal hashes have equal names, and one with the hash of an item never loaded has
      no names. */
  ghost predicate HashTells(cfg: Config, contents: iset<string>) {
    && (forall c :: c in contents && cfg.hash(c) == 0 ==> cfg.parse(c) == {})
    && (forall c, d :: c in contents && d in contents && cfg.hash(c) == cfg.hash(d) ==> cfg.parse(c) == cfg.parse(d))
  }

  lemma UpdateTakesEffect(cfg: Config, contents: iset<string>, s: State, last: Step, u: nat)
    requires Reachable(cfg, s) && (forall c :: c in s.fetched ==> c in contents) && HashTells(cfg, contents)
    requires Enabled(s, last) && Completes(cfg, s, last, u)
    ensures TakesEffect(cfg, s, last, u)
  {
    var start, steps :| Init(start) && Legal(cfg, start, steps) && s == Run(cfg, start, steps);
    RunInv(cfg, start, steps);
    assert UpdaterOk(cfg, s, s.updaters[u]);
    EndsByStoreOrSkip(cfg, s, last, u);
  }

  lemma {:induction false} RunAppend(cfg: Config, s: State, steps: seq<Step>, step: Step)
    requires Legal(cfg, s, steps) && Enabled(Run(cfg, s, steps), step)
    ensures Legal(cfg, s, steps + [step]) && Run(cfg, s, steps + [step]) == Apply(cfg, Run(cfg, s, steps), step)
    decreases |steps|
  {
    if steps == [] {
      assert [step][1..] == [];
    } else {
      assert (steps + [step])[1..] == steps[1..] + [step];
      RunAppend(cfg, Apply(cfg, s, steps[0]), steps[1..], step);
    }
  }

  lemma ReachableStep(cfg: Config, s: State, step: Step) returns (s': State)
    requires Reachable(cfg, s) && Enabled(s, step)
    ensures s' == Apply(cfg, s, step) && Reachable(cfg, s')
  {
    var start, steps :| Init(start) && Legal(cfg, start, steps) && s == Run(cfg, start, steps);
    RunAppend(cfg, start, steps, step);
    s' := Apply(cfg, s, step);
  }

  /** An item whose only updater has fetched its first content. */
  lemma FetchedFirst(cfg: Config, c: string) returns (s: State)
    ensures Reachable(cfg, s) && s == State({}, 0, [Fetched(c)], {c})
  {
    s := State({}, 0, [Idle], {});
    assert Legal(cfg, s, []) && Run(cfg, s, []) == s;
    s := ReachableStep(cfg, s, Fetch(0, Some(c)));
    assert s.updaters == [Fetched(c)] && s.fetched == {c};
  }

  /** And has loaded it. */
  lemma LoadedFirst(cfg: Config, c: string) returns (s: State)
    requires cfg.hash(c) != 0
    ensures Reachable(cfg, s) && s == State(cfg.parse(c), cfg.hash(c), [Idle], {c})
  {
    s := FetchedFirst(cfg, c);
    s := ReachableStep(cfg, s, Compare(0));
    s := ReachableStep(cfg, s, Build(0));
    s := ReachableStep(cfg, s, Store(0));
    assert s.updaters == [Idle];
  }

  /** A content that hashes to zero but has names is never loaded as the first one. */
  lemma ZeroHashSkipped(cfg: Config, c: string) returns (s: State)
    requires cfg.hash(c) == 0 && cfg.parse(c) != {}
    ensures Reachable(cfg, s) && s.fetched == {c} && Enabled(s, Compare(0)) && Completes(cfg, s, Compare(0), 0)
    ensures !TakesEffect(cfg, s, Compare(0), 0)
  {
    s := FetchedFirst(cfg, c);
  }

  /** A content that collides with the one loaded is not loaded. */
  lemma CollisionSkipped(cfg: Config, c: string, d: string) returns (s: State)
    requires cfg.hash(c) == cfg.hash(d) != 0 && cfg.parse(c) != cfg.parse(d)
    ensures Reachable(cfg, s) && s.fetched == {c, d} && Enabled(s, Compare(0)) && Completes(cfg, s, Compare(0), 0)
    ensures !TakesEffect(cfg, s, Compare(0), 0)
  {
    s := LoadedFirst(cfg, c);
    s := ReachableStep(cfg, s, Fetch(0, Some(d)));
  }

  /** Updating takes an equal hash for an unchanged content, and zero for the hash of nothing. That is
      right in every interleaving of fetches of given contents exactly when the hash tells them
      apart as far as their names go, also from nothing. */
  lemma TakesEffectExactly(cfg: Config, contents: iset<string>)
    ensures AlwaysTakesEffect(cfg, contents) <==> HashTells(cfg, contents)
  {
    if HashTells(cfg, contents) {
      forall s, last, u | Reachable(cfg, s) && (forall c :: c in s.fetched ==> c in contents)
                          && Enabled(s, last) && Completes(cfg, s, last, u)
        ensures TakesEffect(cfg, s, last, u)
      {
        UpdateTakesEffect(cfg, contents, s, last, u);
      }
    } else if c :| c in contents && cfg.hash(c) == 0 && cfg.parse(c) != {} {
      var s := ZeroHashSkipped(cfg, c);
    } else {
      var c, d :| c in contents && d in contents && cfg.hash(c) == cfg.hash(d) && cfg.parse(c) != cfg.parse(d);
      var s := CollisionSkipped(cfg, c, d);
    }
  }

  /** A call can always run to its end: in every reachable state an idle updater can fetch any of the
      contents and go on to leave its names. */
  lemma CallRunsToEnd(cfg: Config, contents: iset<string>, s: State, u: nat, c: string) returns (end: State)
    requires Reachable(cfg, s) && (forall d :: d in s.fetched ==> d in contents) && HashTells(cfg, contents)
    requires u < |s.updaters| && s.updaters[u].Idle? && c in contents
    ensures Reachable(cfg, end) && |end.updaters| == |s.updaters| && end.updaters[u].Idle?
    ensures end.names == cfg.parse(c) && end.fetched == s.fetched + {c}
  {
    end := ReachableStep(cfg, s, Fetch(u, Some(c)));
    ghost var before, last := end, Compare(u);
    end := ReachableStep(cfg, end, Compare(u));
    if !end.updaters[u].Idle? {
      end := ReachableStep(cfg, end, Build(u));
      before, last := end, Store(u);
      end := ReachableStep(cfg, end, Store(u));
    }
    UpdateTakesEffect(cfg, contents, before, last, u);
  }

  lemma {:induction false} NothingLoaded(cfg: Config, s: State, steps: seq<Step>)
    requires Legal(cfg, s, steps) && forall c :: c in Run(cfg, s, steps).fetched ==> cfg.hash(c) == 0
    requires s.names == {} && s.contentHash == 0
    requires forall u :: 0 <= u < |s.updaters| ==>
               s.updaters[u].Idle? || (s.updaters[u].Fetched? && s.updaters[u].content in s.fetched)
    ensures Run(cfg, s, steps).names == {}
    decreases |steps|
  {
    if steps != [] {
      FetchedGrows(cfg, s, steps);
      NothingLoaded(cfg, Apply(cfg, s, steps[0]), steps[1..]);
    }
  }

  lemma {:induction false} FetchedGrows(cfg: Config, s: State, steps: seq<Step>)
    requires Legal(cfg, s, steps)
    ensures s.fetched <= Run(cfg, s, steps).fetched
    decreases |steps|
  {
    if steps != [] {
      FetchedGrows(cfg, Apply(cfg, s, steps[0]), steps[1..]);
    }
  }

  /** As long as everything fetched hashes to zero, the hash of an item never loaded, the item stays
      empty however often it is updated. */
  lemma ZeroHashNeverLoads(cfg: Config, start: State, steps: seq<Step>)
    requires Init(start) && Legal(cfg, start, steps)
    requires forall c :: c in Run(cfg, start, steps).fetched ==> cfg.hash(c) == 0
    ensures Run(cfg, start, steps).names == {}
  {
    NothingLoaded(cfg, start, steps);
  }

  /** The initial fetch is attempted until it succeeds, at most three times. */
  method InitialUpdate(succeeds: nat -> bool) returns (attempts: nat, ok: bool)
    ensures 1 <= attempts <= 3
    ensures forall k :: 0 <= k < attempts - 1 ==> !succeeds(k)
    ensures ok == succeeds(attempts - 1) && (!ok ==> attempts == 3)
  {
    var intervals := [500, 1500];
    var i := 0;
    while true
      invariant 0 <= i <= |intervals|
      invariant forall k :: 0 <= k < i ==> !succeeds(k)
      decreases |intervals| - i
    {
      if succeeds(i) {
        return i + 1, true;
      }
      if i == |intervals| {
        return i + 1, false;
      }
      i := i + 1;
    }
  }
}
