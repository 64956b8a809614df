/** Reloading a name list from a file that is edited at any time, by any number of updaters. The
    item remembers the modification time and size that it saw before it read the file. */
module PathReload {
  import opened Options

  type Names = set<string>
  /** Modification time and size. */
  type Stamp = (int, int)

  datatype Version = Version(stamp: Stamp, content: string)

  /** Where one call of updateItemFromPath is. base and seen are positions in the file's history:
      the version at the time of the open, and the one that the stat reported. */
  datatype Updater =
    | Idle
    | Opened(base: nat)
    | Statted(base: nat, seen: nat)
    | Reading(base: nat, seen: nat)
    | Parsed(base: nat, seen: nat, names: Names)

  /** versions holds the file's history, its last element being current; zero is the stamp of an item
      never loaded; source is the version whose stamp the item has, for the record only. */
  datatype State = State(versions: seq<Version>, updaters: seq<Updater>,
                         names: Names, stamp: Stamp, source: Option<nat>)

  datatype Config = Config(parse: string -> Names, zero: Stamp)

  datatype Step =
    | Edit(version: Version)
    | Open(u: nat)
    | Stat(u: nat, seen: nat)
    | Compare(u: nat)
    | Read(u: nat, text: string)
    | Commit(u: nat)

  function Current(s: State): nat
    requires s.versions != []
  {
    |s.versions| - 1
  }

  ghost predicate Init(cfg: Config, s: State) {
    && |s.versions| == 1
    && (forall u :: 0 <= u < |s.updaters| ==> s.updaters[u].Idle?)
    && s.names == {} && s.stamp == cfg.zero && s.source == None
  }

  /** A read yields the content of the version seen if that is still current when the read ends;
      otherwise the file has changed meanwhile and the text can be anything. */
  ghost predicate Enabled(cfg: Config, s: State, step: Step) {
    && s.versions != []
    && match step
       case Edit(v) => true
       case Open(u) => u < |s.updaters| && s.updaters[u].Idle?
       case Stat(u, seen) =>
         u < |s.updaters| && s.updaters[u].Opened? && s.updaters[u].base <= seen <= Current(s)
       case Compare(u) => u < |s.updaters| && s.updaters[u].Statted? && s.updaters[u].seen < |s.versions|
       case Read(u, text) =>
         u < |s.updaters| && s.updaters[u].Reading?
         && (s.updaters[u].seen == Current(s) ==> text == s.versions[Current(s)].content)
       case Commit(u) => u < |s.updaters| && s.updaters[u].Parsed? && s.updaters[u].seen < |s.versions|
  }

  /** The update skips: the item already has the stamp that the stat reported. */
  ghost predicate Skips(cfg: Config, s: State, step: Step)
    requires Enabled(cfg, s, step)
  {
    step.Compare? && s.versions[s.updaters[step.u].seen].stamp == s.stamp
  }

  ghost function Apply(cfg: Config, s: State, step: Step): State
    requires Enabled(cfg, s, step)
  {
    match step
    case Edit(v) => s.(versions := s.versions + [v])
    case Open(u) => s.(updaters := s.updaters[u := Opened(Current(s))])
    case Stat(u, seen) => s.(updaters := s.updaters[u := Statted(s.updaters[u].base, seen)])
    case Compare(u) =>
      var up := s.updaters[u];
      s.(updaters := s.updaters[u := if Skips(cfg, s, step) then Idle else Reading(up.base, up.seen)])
    case Read(u, text) =>
      var up := s.updaters[u];
      s.(updaters := s.updaters[u := Parsed(up.base, up.seen, cfg.parse(text))])
    case Commit(u) =>
      var up := s.updaters[u];
      s.(updaters := s.updaters[u := Idle], names := up.names,
         stamp := s.versions[up.seen].stamp, source := Some(up.seen))
  }

  ghost predicate Legal(cfg: Config, s: State, steps: seq<Step>)
    decreases |steps|
  {
    steps == [] || (Enabled(cfg, s, steps[0]) && Legal(cfg, Apply(cfg, s, steps[0]), steps[1..]))
  }

  ghost function Run(cfg: Config, s: State, steps: seq<Step>): State
    requires Legal(cfg, s, steps)
    decreases |steps|
  {
    if steps == [] then s else Run(cfg, Apply(cfg, s, steps[0]), steps[1..])
  }

  // ---------------------------------------------------------------- the invariant

  ghost predicate UpdaterOk(cfg: Config, s: State, up: Updater)
    requires s.versions != []
  {
    match up
    case Idle => true
    case Opened(base) => base <= Current(s)
    case Statted(base, seen) => base <= seen <= Current(s)
    case Reading(base, seen) => base <= seen <= Current(s)
    case Parsed(base, seen, names) =>
      base <= seen <= Current(s) && (seen == Current(s) ==> names == cfg.parse(s.versions[seen].content))
  }

  /** The item either was never loaded or has the stamp of some version; and if that is the current
      version, it has the names of the current content. */
  ghost predicate Inv(cfg: Config, s: State) {
    && s.versions != []
    && (forall u :: 0 <= u < |s.updaters| ==> UpdaterOk(cfg, s, s.updaters[u]))
    && (s.source.None? ==> s.stamp == cfg.zero)
    && (s.source.Some? ==> s.source.value <= Current(s) && s.stamp == s.versions[s.source.value].stamp)
    && (s.source == Some(Current(s)) ==> s.names == cfg.parse(s.versions[Current(s)].content))
  }

  lemma InvStep(cfg: Config, s: State, step: Step)
    requires Inv(cfg, s) && Enabled(cfg, s, step)
    ensures Inv(cfg, Apply(cfg, s, step))
  {
    var s' := Apply(cfg, s, step);
    forall u | 0 <= u < |s'.updaters|
      ensures UpdaterOk(cfg, s', s'.updaters[u])
    {
      assert UpdaterOk(cfg, s, s.updaters[u]);
    }
  }

  lemma {:induction false} RunInv(cfg: Config, s: State, steps: seq<Step>)
    requires Inv(cfg, s) && Legal(cfg, s, steps)
    ensures Inv(cfg, Run(cfg, s, steps))
    decreases |steps|
  {
    if steps != [] {
      InvStep(cfg, s, steps[0]);
      RunInv(cfg, Apply(cfg, s, steps[0]), steps[1..]);
    }
  }

  // ---------------------------------------------------------------- coherence

  /** The step ends a call of updateItemFromPath, in whatever way. */
  ghost predicate Completes(cfg: Config, s: State, step: Step, u: nat)
    requires Enabled(cfg, s, step)
  {
    u < |s.updaters| && !s.updaters[u].Idle?
    && u < |Apply(cfg, s, step).updaters| && Apply(cfg, s, step).updaters[u].Idle?
  }

  /** The call ends, and the version that it saw in its stat, or that it opened, is still current. */
  ghost predicate CompletesStable(cfg: Config, s: State, step: Step, u: nat)
    requires Enabled(cfg, s, step)
  {
    Completes(cfg, s, step, u)
    && (s.updaters[u].base == Current(s) || (!s.updaters[u].Opened? && s.updaters[u].seen == Current(s)))
  }

  /** A call ends by storing what it parsed or because the stamp is that of the item, not otherwise. */
  lemma EndsByCommitOrSkip(cfg: Config, s: State, step: Step, u: nat)
    requires Enabled(cfg, s, step) && Completes(cfg, s, step, u)
    ensures step == Commit(u)
            || (step == Compare(u) && s.updaters[u].seen < |s.versions| && s.stamp == s.versions[s.updaters[u].seen].stamp)
  {
  }

  ghost predicate Coherent(cfg: Config, s: State)
    requires s.versions != []
  {
    s.names == cfg.parse(s.versions[Current(s)].content)
  }

  /** No earlier version has the stamp of the last one. */
  ghost predicate LastStampNew(versions: seq<Version>) {
    forall i :: 0 <= i < |versions| - 1 ==> versions[i].stamp != versions[|versions| - 1].stamp
  }

  /** After any history of edits and of other updates, however a call ends on a file that has not
      changed since its stat, it leaves the names of the current content and remembers its stamp,
      provided that the current stamp is new. */
  lemma StableUpdateIsCoherent(cfg: Config, s: State, last: Step, u: nat)
    requires Reachable(cfg, s) && Enabled(cfg, s, last) && CompletesStable(cfg, s, last, u)
    requires LastStampNew(s.versions) && s.versions[Current(s)].stamp != cfg.zero
    ensures Apply(cfg, s, last).versions == s.versions
    ensures Coherent(cfg, Apply(cfg, s, last)) && Apply(cfg, s, last).stamp == s.versions[Current(s)].stamp
    ensures Apply(cfg, s, last).names == cfg.parse(s.versions[Current(s)].content)
    ensures Apply(cfg, s, last).source == Some(Current(s))
  {
    ReachableInv(cfg, s);
    assert UpdaterOk(cfg, s, s.updaters[u]);
    EndsByCommitOrSkip(cfg, s, last, u);
  }

  /** A call can always run to its end: from every reachable state, an updater that is idle can open the
      file, and then, whatever edits there have been since, go on to its end; and if the current stamp
      is new, it leaves the names of the current content. */
  lemma CallRunsToEnd(cfg: Config, s: State, u: nat) returns (end: State)
    requires Reachable(cfg, s) && u < |s.updaters| && (s.updaters[u].Idle? || s.updaters[u].Opened?)
    ensures Reachable(cfg, end) && end.versions == s.versions != [] && |end.updaters| == |s.updaters|
    ensures end.updaters[u].Idle? && forall v :: 0 <= v < |s.updaters| && v != u ==> end.updaters[v] == s.updaters[v]
    ensures LastStampNew(s.versions) && s.versions[|s.versions| - 1].stamp != cfg.zero ==> Coherent(cfg, end)
  {
    ReachableInv(cfg, s);
    end := s;
    if s.updaters[u].Idle? {
      end := ReachableStep(cfg, s, Open(u));
    }
    ReachableInv(cfg, end);
    assert UpdaterOk(cfg, end, end.updaters[u]);
    end := ReachableStep(cfg, end, Stat(u, Current(s)));
    end := FromStat(cfg, end, u);
  }

  lemma FromStat(cfg: Config, s: State, u: nat) returns (end: State)
    requires Reachable(cfg, s) && s.versions != []
    requires u < |s.updaters| && s.updaters[u].Statted? && s.updaters[u].seen == Current(s)
    ensures Reachable(cfg, end) && end.versions == s.versions && |end.updaters| == |s.updaters|
    ensures end.updaters[u].Idle? && forall v :: 0 <= v < |s.updaters| && v != u ==> end.updaters[v] == s.updaters[v]
    ensures LastStampNew(s.versions) && s.versions[|s.versions| - 1].stamp != cfg.zero ==> Coherent(cfg, end)
  {
    var now, before, last := Current(s), s, Compare(u);
    end := ReachableStep(cfg, s, Compare(u));
    if !end.updaters[u].Idle? {
      before := ReachableStep(cfg, end, Read(u, s.versions[now].content));
      last := Commit(u);
      end := ReachableStep(cfg, before, Commit(u));
    }
    if LastStampNew(s.versions) && s.versions[now].stamp != cfg.zero {
      StableUpdateIsCoherent(cfg, before, last, u);
    }
  }

  // ---------------------------------------------------------------- stamps that come again

  lemma {:induction false} RunAppend(cfg: Config, s: State, steps: seq<Step>, step: Step)
    requires Legal(cfg, s, steps) && Enabled(cfg, Run(cfg, s, steps), step)
    ensures Legal(cfg, s, steps + [step])
    ensures Run(cfg, s, steps + [step]) == Apply(cfg, Run(cfg, s, steps), step)
    decreases |steps|
  {
    if steps == [] {
      assert [step][1..] == [];
    } else {
      assert (steps + [step])[1..] == steps[1..] + [step];
      RunAppend(cfg, Apply(cfg, s, steps[0]), steps[1..], step);
    }
  }

  ghost predicate Reachable(cfg: Config, s: State) {
    exists start, steps :: Init(cfg, start) && Legal(cfg, start, steps) && s == Run(cfg, start, steps)
  }

  lemma ReachableInv(cfg: Config, s: State)
    requires Reachable(cfg, s)
    ensures Inv(cfg, s)
  {
    var start, steps :| Init(cfg, start) && Legal(cfg, start, steps) && s == Run(cfg, start, steps);
    RunInv(cfg, start, steps);
  }

  lemma ReachableStep(cfg: Config, s: State, step: Step) returns (s': State)
    requires Reachable(cfg, s) && Enabled(cfg, s, step)
    ensures s' == Apply(cfg, s, step) && Reachable(cfg, s')
  {
    var start, steps :| Init(cfg, start) && Legal(cfg, start, steps) && s == Run(cfg, start, steps);
    RunAppend(cfg, start, steps, step);
    s' := Apply(cfg, s, step);
  }

  /** The history goes on to the first n of the versions, and nothing else happens. */
  lemma {:induction false} EditUpTo(cfg: Config, s: State, versions: seq<Version>, n: nat) returns (s': State)
    requires Reachable(cfg, s) && 0 < |s.versions| <= n <= |versions| && s.versions == versions[..|s.versions|]
    ensures Reachable(cfg, s') && s' == s.(versions := versions[..n])
    decreases n - |s.versions|
  {
    if |s.versions| == n {
      s' := s;
    } else {
      var k := |s.versions|;
      s' := ReachableStep(cfg, s, Edit(versions[k]));
      assert versions[..k] + [versions[k]] == versions[..k + 1];
      s' := EditUpTo(cfg, s', versions, n);
    }
  }

  /** An updater that has seen version i and is to read the file, which is edited meanwhile. */
  lemma ReadingOld(cfg: Config, versions: seq<Version>, i: nat) returns (s: State)
    requires i < |versions| && versions[i].stamp != cfg.zero
    ensures Reachable(cfg, s) && s == State(versions, [Reading(i, i)], {}, cfg.zero, None)
  {
    var start := State([versions[0]], [Idle], {}, cfg.zero, None);
    assert Legal(cfg, start, []) && Run(cfg, start, []) == start;
    s := EditUpTo(cfg, start, versions, i + 1);
    s := ReachableStep(cfg, s, Open(0));
    s := ReachableStep(cfg, s, Stat(0, i));
    s := ReachableStep(cfg, s, Compare(0));
    s := EditUpTo(cfg, s, versions, |versions|);
    assert versions[..|versions|] == versions && s.updaters == [Reading(i, i)];
  }

  /** Whenever an earlier version has the stamp of the last one, there is a run in which an update
      completes on the stable file and leaves other names: the text read while the file was edited is
      stored under the stamp that comes again. It can be any text, so the names of the two versions
      may even be equal. */
  lemma SameStampStale(cfg: Config, versions: seq<Version>, i: nat, torn: string) returns (s: State, last: Step)
    requires i < |versions| - 1 && versions[i].stamp == versions[|versions| - 1].stamp != cfg.zero
    requires cfg.parse(torn) != cfg.parse(versions[|versions| - 1].content)
    ensures Reachable(cfg, s) && Enabled(cfg, s, last) && CompletesStable(cfg, s, last, 0)
    ensures s.versions == versions && !Coherent(cfg, Apply(cfg, s, last))
  {
    s := ReadingOld(cfg, versions, i);
    s := ReachableStep(cfg, s, Read(0, torn));
    s := ReachableStep(cfg, s, Commit(0));
    s := ReachableStep(cfg, s, Open(0));
    s := ReachableStep(cfg, s, Stat(0, |versions| - 1));
    last := Compare(0);
  }

  /** Every call that ends on the stable end of this history, in whatever way, leaves the current names. */
  ghost predicate AlwaysCoherent(cfg: Config, versions: seq<Version>) {
    forall s, last, u | Reachable(cfg, s) && s.versions == versions && Enabled(cfg, s, last)
                        && CompletesStable(cfg, s, last, u) :: Coherent(cfg, Apply(cfg, s, last))
  }

  /** Reloading takes equal time and size for an unchanged file. For every history this is right,
      however edits and updates interleave, exactly when no earlier version has the time and size of
      the last one; whether the names of the two are equal does not matter. */
  lemma CoherentExactly(cfg: Config, versions: seq<Version>, x: string, y: string)
    requires versions != [] && versions[|versions| - 1].stamp != cfg.zero
    requires cfg.parse(x) != cfg.parse(y)
    ensures AlwaysCoherent(cfg, versions) <==> LastStampNew(versions)
  {
    if LastStampNew(versions) {
      forall s, last, u | Reachable(cfg, s) && s.versions == versions && Enabled(cfg, s, last)
                          && CompletesStable(cfg, s, last, u)
        ensures Coherent(cfg, Apply(cfg, s, last))
      {
        StableUpdateIsCoherent(cfg, s, last, u);
      }
    } else {
      var i :| 0 <= i < |versions| - 1 && versions[i].stamp == versions[|versions| - 1].stamp;
      var torn := if cfg.parse(x) != cfg.parse(versions[|versions| - 1].content) then x else y;
      var s, last := SameStampStale(cfg, versions, i, torn);
    }
  }

  // ---------------------------------------------------------------- until the next edit

  /** The one updater of a list has loaded the current version. */
  ghost predicate Settled(cfg: Config, s: State) {
    && Inv(cfg, s) && LastStampNew(s.versions) && s.source == Some(Current(s)) && |s.updaters| == 1
    && (s.updaters[0].Idle? || s.updaters[0].base == Current(s))
  }

  lemma {:induction false} StaysSettled(cfg: Config, s: State, steps: seq<Step>)
    requires Settled(cfg, s) && Legal(cfg, s, steps)
    requires forall i :: 0 <= i < |steps| ==> !steps[i].Edit?
    ensures Settled(cfg, Run(cfg, s, steps)) && Run(cfg, s, steps).versions == s.versions
    decreases |steps|
  {
    if steps != [] {
      var s' := Apply(cfg, s, steps[0]);
      InvStep(cfg, s, steps[0]);
      assert UpdaterOk(cfg, s, s.updaters[0]);
      StaysSettled(cfg, s', steps[1..]);
    }
  }

  /** A list has one updater for its paths. Once it has completed an update on a stable file whose
      stamp is new, the names are the current ones until the next edit. */
  lemma SettledUntilEdit(cfg: Config, s: State, last: Step, steps: seq<Step>)
    requires Reachable(cfg, s) && |s.updaters| == 1 && Enabled(cfg, s, last) && CompletesStable(cfg, s, last, 0)
    requires LastStampNew(s.versions) && s.versions[Current(s)].stamp != cfg.zero
    requires Legal(cfg, Apply(cfg, s, last), steps) && forall i :: 0 <= i < |steps| ==> !steps[i].Edit?
    ensures var end := Run(cfg, Apply(cfg, s, last), steps);
            end.versions == s.versions && Coherent(cfg, end)
  {
    StableUpdateIsCoherent(cfg, s, last, 0);
    ReachableInv(cfg, s);
    InvStep(cfg, s, last);
    StaysSettled(cfg, Apply(cfg, s, last), steps);
  }
}
