/** HealthCheck.Select: the health check result, the policy and the spray fallback together. */
module Selection {
  import opened Options
  import opened Mods
  import R = RandomPolicy
  import RR = RoundRobin

  /** Default is a block without a policy directive. */
  datatype Policy = Default | Random | RoundRobin | Sequential | Spray

  predicate AllDown(down: seq<bool>) {
    forall h :: 0 <= h < |down| ==> down[h]
  }

  function FirstUp(down: seq<bool>, from: nat): (host: Option<nat>)
    requires from <= |down|
    ensures host.None? ==> forall h :: from <= h < |down| ==> down[h]
    ensures host.Some? ==> from <= host.value < |down| && !down[host.value]
                           && forall h :: from <= h < host.value ==> down[h]
    decreases |down| - from
  {
    if from == |down| then None else if !down[from] then Some(from) else FirstUp(down, from + 1)
  }

  /** The random draws a selection may use. */
  datatype Draws = Draws(reservoir: seq<nat>, spray: nat)

  predicate Enough(down: seq<bool>, draws: Draws) {
    |R.Ups(down)| <= |draws.reservoir| + 1
  }

  function Sprayed(down: seq<bool>, draws: Draws): (h: nat)
    requires down != []
    ensures h < |down|
  {
    draws.spray % |down|
  }

  /** A policy on its own; robin is the counter after the increment. */
  function ByPolicy(down: seq<bool>, policy: Policy, draws: Draws, robin: nat): Option<nat>
    requires down != [] && Enough(down, draws)
  {
    match policy
    case Default => R.Chosen(down, R.Reduced(draws.reservoir))
    case Random => R.Chosen(down, R.Reduced(draws.reservoir))
    case RoundRobin => RR.Chosen(down, robin % |down|)
    case Sequential => FirstUp(down, 0)
    case Spray => Some(Sprayed(down, draws))
  }

  function Fallback(down: seq<bool>, spray: bool, draws: Draws): Option<nat>
    requires down != []
  {
    if spray then Some(Sprayed(down, draws)) else None
  }

  function Selected(down: seq<bool>, policy: Policy, spray: bool, draws: Draws, robin: nat): Option<nat>
    requires down != [] && Enough(down, draws)
  {
    if |down| == 1 then if down[0] && !spray then None else Some(0)
    else if AllDown(down) then Fallback(down, spray, draws)
    else
      var h := ByPolicy(down, policy, draws, robin);
      if h.Some? then h else Fallback(down, spray, draws)
  }

  method SelectSequential(down: seq<bool>) returns (host: Option<nat>)
    ensures host == FirstUp(down, 0)
  {
    for i := 0 to |down|
      invariant FirstUp(down, i) == FirstUp(down, 0)
    {
      if !down[i] {
        return Some(i);
      }
    }
    return None;
  }

  method Select(down: seq<bool>, policy: Policy, spray: bool, draws: Draws, shared: RR.RoundRobin)
    returns (host: Option<nat>)
    requires 0 < |down| <= RR.MAX_POOL && Enough(down, draws) && shared.robin < RR.WRAP
    modifies shared
    ensures host == Selected(down, policy, spray, draws, shared.robin)
    ensures shared.robin == if policy.RoundRobin? && |down| > 1 && (exists h :: 0 <= h < |down| && !down[h])
                            then (old(shared.robin) + 1) % RR.WRAP else old(shared.robin)
  {
    if |down| == 1 {
      return if down[0] && !spray then None else Some(0);
    }
    var allDown := true;
    var i := 0;
    while i < |down| && allDown
      invariant 0 <= i <= |down|
      invariant allDown ==> forall h :: 0 <= h < i ==> down[h]
      invariant !allDown ==> exists h :: 0 <= h < i && !down[h]
    {
      if !down[i] {
        allDown := false;
      }
      i := i + 1;
    }
    if allDown {
      return Fallback(down, spray, draws);
    }
    match policy {
      case Default => host := R.Select(down, draws.reservoir);
      case Random => host := R.Select(down, draws.reservoir);
      case RoundRobin => host := shared.Select(down);
      case Sequential => host := SelectSequential(down);
      case Spray => host := Some(draws.spray % |down|);
    }
    if host.None? {
      host := Fallback(down, spray, draws);
    }
  }

  /** With any policy but spray, nothing is selected exactly when every host is down and spray is not
      set; otherwise a host of the pool is, and an up one whenever there is one. */
  lemma SelectedIsUp(down: seq<bool>, policy: Policy, spray: bool, draws: Draws, robin: nat)
    requires down != [] && Enough(down, draws) && !policy.Spray?
    ensures var h := Selected(down, policy, spray, draws, robin);
            && (h.None? <==> AllDown(down) && !spray)
            && (h.Some? ==> h.value < |down|)
            && (!AllDown(down) ==> h.Some? && !down[h.value])
  {
    RR.ChosenIsFirstUp(down, robin % |down|);
    R.ChosenIsUp(down, R.Reduced(draws.reservoir));
  }

  // ---------------------------------------------------------------- what each policy selects

  /** Sequential selects the first up host in order. */
  lemma SequentialSelects(down: seq<bool>, spray: bool, draws: Draws, robin: nat) returns (h: nat)
    requires !AllDown(down) && Enough(down, draws)
    ensures Selected(down, Sequential, spray, draws, robin) == Some(h)
    ensures h < |down| && !down[h] && forall e :: 0 <= e < h ==> down[e]
  {
    h := Selected(down, Sequential, spray, draws, robin).value;
  }

  /** Round robin selects the first up host cyclically from the residue of the counter. */
  lemma RoundRobinSelects(down: seq<bool>, spray: bool, draws: Draws, robin: nat) returns (h: nat)
    requires !AllDown(down) && Enough(down, draws)
    ensures Selected(down, RoundRobin, spray, draws, robin) == Some(h) && h < |down| && !down[h]
    ensures var start := robin % |down|;
            forall e :: 0 <= e < |down| && (if start <= h then start <= e < h else start <= e || e < h) ==> down[e]
  {
    RR.ChosenIsFirstUp(down, robin % |down|);
    h := Selected(down, RoundRobin, spray, draws, robin).value;
  }

  /** The vectors of draws for which a host is selected. */
  ghost function Selecting(down: seq<bool>, policy: Policy, spray: bool, x: nat, robin: nat, h: nat): set<seq<nat>>
    requires down != []
  {
    set d | d in R.Draws(|R.Ups(down)|) && Enough(down, Draws(d, x)) && Selected(down, policy, spray, Draws(d, x), robin) == Some(h)
  }

  /** Random, and no policy at all, select each up host for exactly (m - 1)! of the m! vectors of draws,
      m being the number of up hosts, whatever spray and the counter are. */
  lemma RandomSelects(down: seq<bool>, policy: Policy, spray: bool, x: nat, robin: nat, h: nat)
    requires (policy.Default? || policy.Random?) && h < |down| && !down[h]
    ensures |R.Draws(|R.Ups(down)|)| == R.Factorial(|R.Ups(down)|)
    ensures |R.Ups(down)| > 0 && |Selecting(down, policy, spray, x, robin, h)| == R.Factorial(|R.Ups(down)| - 1)
  {
    R.Uniform(down, h);
    forall d
      ensures d in Selecting(down, policy, spray, x, robin, h) <==> d in R.Picking(down, h)
    {
      if d in R.Draws(|R.Ups(down)|) {
        SelectedIsChosen(down, policy, spray, x, robin, d);
      }
    }
    assert Selecting(down, policy, spray, x, robin, h) == R.Picking(down, h);
  }

  lemma SelectedIsChosen(down: seq<bool>, policy: Policy, spray: bool, x: nat, robin: nat, d: seq<nat>)
    requires (policy.Default? || policy.Random?) && !AllDown(down) && d in R.Draws(|R.Ups(down)|)
    ensures Enough(down, Draws(d, x)) && Selected(down, policy, spray, Draws(d, x), robin) == R.Chosen(down, d)
  {
    var m := |R.Ups(down)|;
    R.DrawsMember(m, d);
    R.ReducedInRange(d);
    var up :| 0 <= up < |down| && !down[up];
    R.UpToMember(down, |down|, up);
    assert R.Reduced(d) == d;
    R.ChosenIsUp(down, d);
  }

  /** Spray, as a policy or as the fallback when all hosts are down, selects any host of the pool, the
      one that is drawn. */
  lemma SpraySelects(down: seq<bool>, policy: Policy, spray: bool, reservoir: seq<nat>, robin: nat, h: nat, q: nat)
    requires h < |down| && Enough(down, Draws(reservoir, q * |down| + h))
    requires if AllDown(down) then spray else policy.Spray?
    ensures Selected(down, policy, spray, Draws(reservoir, q * |down| + h), robin) == Some(h)
  {
    DivModUnique(q * |down| + h, |down|, q, h);
  }

  /** Whatever is drawn and wherever the counter stands, the host selected is up. */
  ghost predicate AlwaysUp(down: seq<bool>, policy: Policy, spray: bool)
    requires down != []
  {
    forall draws, robin: nat | Enough(down, draws) ::
      var h := Selected(down, policy, spray, draws, robin);
      h.Some? && h.value < |down| && !down[h.value]
  }

  /** A draw that makes policy spray land on a given host. */
  function DrawFor(down: seq<bool>, h: nat): Draws {
    Draws(seq(|down|, _ => 0), h)
  }

  lemma DrawForEnough(down: seq<bool>, h: nat)
    ensures Enough(down, DrawFor(down, h))
  {
    UpsBounded(down, |down|);
  }

  lemma {:induction false} UpsBounded(down: seq<bool>, n: nat)
    requires n <= |down|
    ensures |R.UpTo(down, n)| <= n
  {
    if n > 0 {
      UpsBounded(down, n - 1);
    }
  }

  /** Policy spray, which is accepted like any other, can select every down host of a pool that has an
      up one. */
  lemma SprayIgnoresHealth(down: seq<bool>, spray: bool, robin: nat, h: nat)
    requires !AllDown(down) && h < |down| && down[h]
    ensures Enough(down, DrawFor(down, h))
    ensures Selected(down, Spray, spray, DrawFor(down, h), robin) == Some(h)
  {
    DrawForEnough(down, h);
  }

  /** In a pool with an up host, a policy selects up hosts only, exactly when it is not spray or no
      host is down. */
  lemma AlwaysUpExactly(down: seq<bool>, policy: Policy, spray: bool)
    requires !AllDown(down)
    ensures AlwaysUp(down, policy, spray) <==> !policy.Spray? || forall h :: 0 <= h < |down| ==> !down[h]
  {
    if !policy.Spray? {
      forall draws, robin: nat | Enough(down, draws)
        ensures var h := Selected(down, policy, spray, draws, robin); h.Some? && h.value < |down| && !down[h.value]
      {
        SelectedIsUp(down, policy, spray, draws, robin);
      }
    } else if h :| 0 <= h < |down| && down[h] {
      SprayIgnoresHealth(down, spray, 0, h);
    }
  }
}
