/** The random policy: reservoir sampling over the hosts that are up, and its uniformity. */
module RandomPolicy {
  import opened Options
  import opened Mods

  /** The positions of the hosts that are up among the first n. */
  function UpTo(down: seq<bool>, n: nat): (ups: seq<nat>)
    requires n <= |down|
  {
    if n == 0 then [] else if down[n - 1] then UpTo(down, n - 1) else UpTo(down, n - 1) + [n - 1]
  }

  /** They are all of them and nothing else. */
  lemma {:induction false} UpToMember(down: seq<bool>, n: nat, h: nat)
    requires n <= |down|
    ensures h in UpTo(down, n) <==> h < n && !down[h]
  {
    if n > 0 {
      UpToMember(down, n - 1, h);
    }
  }

  ghost predicate Increasing(s: seq<nat>) {
    forall i, j :: 0 <= i < j < |s| ==> s[i] < s[j]
  }

  lemma {:induction false} UpToOrdered(down: seq<bool>, n: nat)
    requires n <= |down|
    ensures Increasing(UpTo(down, n))
  {
    if n > 0 {
      UpToOrdered(down, n - 1);
      var before := UpTo(down, n - 1);
      var after := UpTo(down, n);
      assert after == if down[n - 1] then before else before + [n - 1];
      forall i, j | 0 <= i < j < |after|
        ensures after[i] < after[j]
      {
        assert after[i] == before[i] && before[i] in before;
        UpToMember(down, n - 1, before[i]);
      }
    }
  }

  function Ups(down: seq<bool>): seq<nat> {
    UpTo(down, |down|)
  }

  /** Which of m up hosts survives: the last one that drew the highest of its numbers, or the first.
      The k-th up host, k >= 2, draws draws[k - 2] out of 0..k-1. */
  function Survivor(draws: seq<nat>, m: nat): (r: nat)
    requires 0 < m <= |draws| + 1
    ensures r < m
  {
    if m == 1 then 0
    else if draws[m - 2] == m - 1 then m - 1
    else Survivor(draws, m - 1)
  }

  /** What the loop has chosen after n hosts. */
  function ChosenBy(down: seq<bool>, draws: seq<nat>, n: nat): Option<nat>
    requires n <= |down| && |UpTo(down, n)| <= |draws| + 1
  {
    var ups := UpTo(down, n);
    if ups == [] then None else Some(ups[Survivor(draws, |ups|)])
  }

  /** What the loop returns for given draws. */
  function Chosen(down: seq<bool>, draws: seq<nat>): Option<nat>
    requires |Ups(down)| <= |draws| + 1
  {
    ChosenBy(down, draws, |down|)
  }

  /** An up host is returned, and none only if there is none. */
  lemma ChosenIsUp(down: seq<bool>, draws: seq<nat>)
    requires |Ups(down)| <= |draws| + 1
    ensures match Chosen(down, draws)
            case None => forall h :: 0 <= h < |down| ==> down[h]
            case Some(h) => h < |down| && !down[h]
  {
    match Chosen(down, draws)
    case None =>
      forall h | 0 <= h < |down|
        ensures down[h]
      {
        UpToMember(down, |down|, h);
      }
    case Some(h) =>
      assert h in Ups(down);
      UpToMember(down, |down|, h);
  }

  /** The effect of one more up host. */
  lemma ChosenNext(down: seq<bool>, draws: seq<nat>, n: nat)
    requires n < |down| && !down[n] && |UpTo(down, n)| <= |draws|
    ensures |UpTo(down, n + 1)| == |UpTo(down, n)| + 1
    ensures var count := |UpTo(down, n + 1)|;
            ChosenBy(down, draws, n + 1)
            == if count == 1 || draws[count - 2] == count - 1 then Some(n) else ChosenBy(down, draws, n)
  {
    assert UpTo(down, n + 1) == UpTo(down, n) + [n];
  }

  /** rand.Int() % count. */
  function Draw(raw: nat, count: nat): nat
    requires count > 0
  {
    raw % count
  }

  function Reduced(raw: seq<nat>): (draws: seq<nat>)
    ensures |draws| == |raw| && forall i :: 0 <= i < |raw| ==> draws[i] == Draw(raw[i], i + 2)
  {
    seq(|raw|, i requires 0 <= i < |raw| => Draw(raw[i], i + 2))
  }

  /** The loop: count the up hosts and replace the choice when the draw says so. */
  method Select(down: seq<bool>, raw: seq<nat>) returns (host: Option<nat>)
    requires |Ups(down)| <= |raw| + 1
    ensures host == Chosen(down, Reduced(raw))
  {
    ghost var draws := Reduced(raw);
    host := None;
    var count: nat := 0;
    for n := 0 to |down|
      invariant count == |UpTo(down, n)| <= |draws| + 1
      invariant host == ChosenBy(down, draws, n)
    {
      UpToGrows(down, n + 1, |down|);
      if down[n] {
        continue;
      }
      ChosenNext(down, draws, n);
      count := count + 1;
      if count == 1 {
        host := Some(n);
      } else {
        var r := Draw(raw[count - 2], count);
        assert r == draws[count - 2];
        if r == count - 1 {
          host := Some(n);
        }
      }
    }
  }

  lemma {:induction false} UpToGrows(down: seq<bool>, n: nat, m: nat)
    requires n <= m <= |down|
    ensures |UpTo(down, n)| <= |UpTo(down, m)|
    decreases m
  {
    if n < m {
      UpToGrows(down, n, m - 1);
    }
  }

  // ---------------------------------------------------------------- counting draws

  function Factorial(n: nat): (r: nat)
    ensures r > 0
  {
    if n == 0 then 1 else n * Factorial(n - 1)
  }

  ghost function Append(vectors: set<seq<nat>>, x: nat): set<seq<nat>> {
    set d | d in vectors :: d + [x]
  }

  /** Every vector extended by every number below n. */
  ghost function Extend(vectors: set<seq<nat>>, n: nat): set<seq<nat>> {
    if n == 0 then {} else Extend(vectors, n - 1) + Append(vectors, n - 1)
  }

  /** All the draws that can be made over m up hosts. */
  ghost function Draws(m: nat): set<seq<nat>> {
    if m <= 1 then {[]} else Extend(Draws(m - 1), m)
  }

  lemma AppendMember(vectors: set<seq<nat>>, x: nat, v: seq<nat>)
    ensures v in Append(vectors, x) <==> v != [] && v[..|v| - 1] in vectors && v[|v| - 1] == x
  {
    if v in Append(vectors, x) {
      var d :| d in vectors && v == d + [x];
      assert v[..|v| - 1] == d;
    }
    if v != [] && v[..|v| - 1] in vectors && v[|v| - 1] == x {
      assert v == v[..|v| - 1] + [x];
    }
  }

  lemma {:induction false} ExtendMember(vectors: set<seq<nat>>, n: nat, v: seq<nat>)
    ensures v in Extend(vectors, n) <==> v != [] && v[..|v| - 1] in vectors && v[|v| - 1] < n
  {
    if n > 0 {
      ExtendMember(vectors, n - 1, v);
      AppendMember(vectors, n - 1, v);
    }
  }

  /** One draw for every up host but the first, each within its range. */
  predicate Fits(draws: seq<nat>, m: nat) {
    |draws| == (if m <= 1 then 0 else m - 1) && forall i :: 0 <= i < |draws| ==> draws[i] < i + 2
  }

  lemma FitsStep(v: seq<nat>, m: nat)
    requires m > 1
    ensures Fits(v, m) <==> v != [] && Fits(v[..|v| - 1], m - 1) && v[|v| - 1] < m
  {
    if v != [] && Fits(v[..|v| - 1], m - 1) && v[|v| - 1] < m {
      forall i | 0 <= i < |v|
        ensures v[i] < i + 2
      {
        assert i < |v| - 1 ==> v[i] == v[..|v| - 1][i];
      }
    }
  }

  /** The draws over m hosts are exactly the vectors that fit. */
  lemma {:induction false} DrawsMember(m: nat, v: seq<nat>)
    ensures v in Draws(m) <==> Fits(v, m)
  {
    if m > 1 {
      ExtendMember(Draws(m - 1), m, v);
      FitsStep(v, m);
      if v != [] {
        DrawsMember(m - 1, v[..|v| - 1]);
      }
    }
  }

  lemma AppendSplit(rest: set<seq<nat>>, d: seq<nat>, x: nat)
    ensures Append(rest + {d}, x) == Append(rest, x) + {d + [x]}
  {
    forall v
      ensures v in Append(rest + {d}, x) <==> v in Append(rest, x) + {d + [x]}
    {
      AppendMember(rest + {d}, x, v);
      AppendMember(rest, x, v);
      if v != [] && v[..|v| - 1] == d && v[|v| - 1] == x {
        assert v == v[..|v| - 1] + [v[|v| - 1]];
      }
      assert (d + [x])[..|d|] == d;
    }
  }

  lemma OneMore(s: set<seq<nat>>, v: seq<nat>)
    requires v !in s
    ensures |s + {v}| == |s| + 1
  {
  }

  lemma TwoParts(a: set<seq<nat>>, b: set<seq<nat>>)
    requires a !! b
    ensures |a + b| == |a| + |b|
  {
  }

  lemma {:induction false} AppendCount(vectors: set<seq<nat>>, x: nat)
    ensures |Append(vectors, x)| == |vectors|
  {
    if vectors != {} {
      var d :| d in vectors;
      var rest := vectors - {d};
      AppendCount(rest, x);
      AppendMember(rest, x, d + [x]);
      assert (d + [x])[..|d|] == d;
      AppendSplit(rest, d, x);
      assert vectors == rest + {d};
      OneMore(rest, d);
      OneMore(Append(rest, x), d + [x]);
    } else {
      assert Append(vectors, x) == {};
    }
  }

  lemma ExtendDisjoint(vectors: set<seq<nat>>, n: nat)
    ensures Extend(vectors, n) !! Append(vectors, n)
  {
    var older, last := Extend(vectors, n), Append(vectors, n);
    forall v | v in last
      ensures v !in older
    {
      ExtendMember(vectors, n, v);
      AppendMember(vectors, n, v);
    }
  }

  lemma MulStep(n: nat, k: nat)
    requires n > 0
    ensures n * k == (n - 1) * k + k
  {
  }

  lemma {:induction false} ExtendCount(vectors: set<seq<nat>>, n: nat)
    ensures |Extend(vectors, n)| == n * |vectors|
  {
    if n > 0 {
      ExtendCount(vectors, n - 1);
      AppendCount(vectors, n - 1);
      ExtendDisjoint(vectors, n - 1);
      TwoParts(Extend(vectors, n - 1), Append(vectors, n - 1));
      MulStep(n, |vectors|);
    }
  }

  /** There are m! vectors of draws over m up hosts. */
  lemma {:induction false} DrawsCount(m: nat)
    ensures |Draws(m)| == Factorial(m)
  {
    if m > 1 {
      DrawsCount(m - 1);
      ExtendCount(Draws(m - 1), m);
    } else {
      assert Factorial(m) == 1;
    }
  }

  /** The draws that make the i-th of m up hosts survive: the last one must draw its highest number,
      any other must survive among the first m - 1 and the last one must not draw its highest. */
  ghost function Favouring(m: nat, i: nat): set<seq<nat>>
    requires i < m
  {
    if m == 1 then {[]}
    else if i == m - 1 then Append(Draws(m - 1), m - 1)
    else Extend(Favouring(m - 1, i), m - 1)
  }

  /** Each of m up hosts is favoured by exactly (m - 1)! vectors. */
  lemma {:induction false} FavouringCount(m: nat, i: nat)
    requires i < m
    ensures |Favouring(m, i)| == Factorial(m - 1)
  {
    if m > 1 {
      if i == m - 1 {
        AppendCount(Draws(m - 1), m - 1);
        DrawsCount(m - 1);
      } else {
        FavouringCount(m - 1, i);
        ExtendCount(Favouring(m - 1, i), m - 1);
      }
    }
  }

  /** A draw only matters for the hosts met up to it. */
  lemma {:induction false} SurvivorPrefix(d: seq<nat>, n: nat, m: nat)
    requires 0 < m <= n + 1 <= |d| + 1
    ensures Survivor(d[..n], m) == Survivor(d, m)
  {
    if m > 1 {
      SurvivorPrefix(d, n, m - 1);
    }
  }

  lemma {:induction false} FavouringMember(m: nat, i: nat, v: seq<nat>)
    requires i < m
    ensures v in Favouring(m, i) <==> Fits(v, m) && Survivor(v, m) == i
  {
    if m > 1 {
      FitsStep(v, m);
      if v != [] {
        var d := v[..|v| - 1];
        if |v| == m - 1 {
          SurvivorPrefix(v, |v| - 1, m - 1);
        }
        if i == m - 1 {
          DrawsMember(m - 1, d);
        } else {
          FavouringMember(m - 1, i, d);
        }
      }
      if i == m - 1 {
        AppendMember(Draws(m - 1), m - 1, v);
      } else {
        ExtendMember(Favouring(m - 1, i), m - 1, v);
      }
    }
  }

  /** The draws for which the loop returns host h. */
  ghost function Picking(down: seq<bool>, h: nat): set<seq<nat>> {
    set d | d in Draws(|Ups(down)|) && |Ups(down)| <= |d| + 1 && Chosen(down, d) == Some(h)
  }

  lemma PickingMember(down: seq<bool>, i: nat, d: seq<nat>)
    requires i < |Ups(down)|
    ensures d in Picking(down, Ups(down)[i]) <==> d in Favouring(|Ups(down)|, i)
  {
    var ups := Ups(down);
    DrawsMember(|ups|, d);
    FavouringMember(|ups|, i, d);
    UpToOrdered(down, |down|);
    if |ups| <= |d| + 1 {
      var j := Survivor(d, |ups|);
      assert Chosen(down, d) == Some(ups[j]);
      assert i < j ==> ups[i] < ups[j];
      assert j < i ==> ups[j] < ups[i];
    }
  }

  /** Uniformity: wherever the down hosts are, any given up host is returned for exactly (m - 1)! of
      the m! vectors of draws, m being the number of up hosts; a down host is returned for none. */
  lemma Uniform(down: seq<bool>, h: nat)
    requires h < |down|
    ensures |Draws(|Ups(down)|)| == Factorial(|Ups(down)|)
    ensures !down[h] ==> |Ups(down)| > 0 && |Picking(down, h)| == Factorial(|Ups(down)| - 1)
    ensures down[h] ==> Picking(down, h) == {}
  {
    var ups := Ups(down);
    var m := |ups|;
    DrawsCount(m);
    UpToMember(down, |down|, h);
    if !down[h] {
      var i :| 0 <= i < m && ups[i] == h;
      FavouringCount(m, i);
      forall d
        ensures d in Picking(down, h) <==> d in Favouring(m, i)
      {
        PickingMember(down, i, d);
      }
      assert Picking(down, h) == Favouring(m, i);
    } else {
      forall d | |ups| <= |d| + 1
        ensures Chosen(down, d) != Some(h)
      {
        ChosenIsUp(down, d);
      }
    }
  }

  /** Reducing what rand returns gives draws in range, and draws in range come of exactly what differs
      from them by multiples of their ranges; in particular they are not changed. */
  lemma ReducedFits(raw: seq<nat>, d: seq<nat>, q: seq<nat>)
    requires |raw| == |d| == |q| && Fits(d, |d| + 1)
    requires forall i :: 0 <= i < |raw| ==> raw[i] == q[i] * (i + 2) + d[i]
    ensures Reduced(raw) == d
  {
    forall i | 0 <= i < |raw|
      ensures Reduced(raw)[i] == d[i]
    {
      DivModUnique(raw[i], i + 2, q[i], d[i]);
    }
  }

  lemma ReducedInRange(raw: seq<nat>)
    ensures Fits(Reduced(raw), |raw| + 1)
    ensures Fits(raw, |raw| + 1) ==> Reduced(raw) == raw
  {
    if Fits(raw, |raw| + 1) {
      ReducedFits(raw, raw, seq(|raw|, _ => 0));
    }
  }
}
