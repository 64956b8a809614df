/** The round-robin policy over a wrapping 32-bit counter that all blocks share. */
module RoundRobin {
  import opened Options
  import opened Mods

  const WRAP: nat := 0x1_0000_0000
  const MAX_POOL: nat := 0x8000_0000

  /** The host d places after start, cyclically. */
  function Around(start: nat, d: nat, n: nat): (h: nat)
    requires start < n && d <= n
    ensures h < n
  {
    if start + d < n then start + d else start + d - n
  }

  /** How far from start the first up host is, looking from distance d on; n if there is none. */
  function Distance(down: seq<bool>, start: nat, d: nat): (r: nat)
    requires start < |down| && d <= |down|
    ensures d <= r <= |down|
    ensures r < |down| ==> !down[Around(start, r, |down|)]
    ensures forall e :: d <= e < r ==> down[Around(start, e, |down|)]
    decreases |down| - d
  {
    if d == |down| || !down[Around(start, d, |down|)] then d else Distance(down, start, d + 1)
  }

  function Chosen(down: seq<bool>, start: nat): Option<nat>
    requires start < |down|
  {
    var r := Distance(down, start, 0);
    if r == |down| then None else Some(Around(start, r, |down|))
  }

  /** Every call returns the first up host cyclically from its start, and none only if all are down. */
  lemma ChosenIsFirstUp(down: seq<bool>, start: nat)
    requires start < |down|
    ensures match Chosen(down, start)
            case None => forall h :: 0 <= h < |down| ==> down[h]
            case Some(h) =>
              && h < |down| && !down[h]
              && (start <= h ==> forall e :: start <= e < h ==> down[e])
              && (h < start ==> forall e :: 0 <= e < |down| && (start <= e || e < h) ==> down[e])
    ensures !down[start] ==> Chosen(down, start) == Some(start)
  {
    var n, r := |down|, Distance(down, start, 0);
    forall e | 0 <= e < n && (if e >= start then e - start < r else e - start + n < r)
      ensures down[e]
    {
      var d := if e >= start then e - start else e - start + n;
      assert Around(start, d, n) == e;
    }
  }

  lemma StepIsAround(start: nat, d: nat, n: nat)
    requires start < n <= MAX_POOL && d <= n
    ensures (start + d) % WRAP % n == Around(start, d, n)
  {
    AroundIsMod(start, d, n);
    assert (start + d) % WRAP == start + d;
  }

  /** The walk to the next up host. */
  method Walk(down: seq<bool>, selection: nat) returns (host: Option<nat>)
    requires selection < |down| <= MAX_POOL
    ensures host == Chosen(down, selection)
  {
    var poolLen := |down|;
    var h := selection;
    var i := 1;
    while down[h] && i < poolLen
      invariant 1 <= i <= poolLen
      invariant h == Around(selection, i - 1, poolLen)
      invariant Distance(down, selection, i - 1) == Distance(down, selection, 0)
    {
      StepIsAround(selection, i, poolLen);
      h := (selection + i) % WRAP % poolLen;
      i := i + 1;
    }
    if down[h] {
      assert Distance(down, selection, i - 1) == Distance(down, selection, i);
      return None;
    }
    assert Distance(down, selection, 0) == i - 1;
    return Some(h);
  }

  class RoundRobin {
    var robin: nat

    constructor ()
      ensures robin == 0
    {
      robin := 0;
    }

    /** atomic.AddUint32 followed by the walk. */
    method Select(down: seq<bool>) returns (host: Option<nat>)
      requires 0 < |down| <= MAX_POOL && robin < WRAP
      modifies this
      ensures robin == (old(robin) + 1) % 0x1_0000_0000
      ensures host == Chosen(down, robin % |down|)
    {
      robin := (robin + 1) % WRAP;
      host := Walk(down, robin % |down|);
    }
  }

  lemma AroundIsMod(start: nat, d: nat, n: nat)
    requires start < n && d <= n
    ensures (start + d) % n == Around(start, d, n)
  {
    if start + d < n {
      DivModUnique(start + d, n, 0, start + d);
    } else {
      DivModUnique(start + d, n, 1, start + d - n);
    }
  }

  // ---------------------------------------------------------------- starvation

  /** Where the k-th call after the counter stood at robin starts. */
  function Start(robin: nat, k: nat, n: nat): (h: nat)
    requires n > 0
    ensures h < n
  {
    (robin + 1 + k) % WRAP % n
  }

  /** The down flags met by n consecutive calls, each over the same n hosts. */
  ghost predicate CallsOver(downs: seq<seq<bool>>, n: nat) {
    |downs| == n && forall k :: 0 <= k < n ==> |downs[k]| == n
  }

  ghost predicate StaysUp(downs: seq<seq<bool>>, h: nat) {
    forall k :: 0 <= k < |downs| ==> h < |downs[k]| && !downs[k][h]
  }

  ghost predicate IsChosen(robin: nat, downs: seq<seq<bool>>, n: nat, h: nat)
    requires n > 0 && CallsOver(downs, n)
  {
    exists k :: 0 <= k < n && Chosen(downs[k], Start(robin, k, n)) == Some(h)
  }

  /** Whatever the others do, each host that stays up is chosen within n calls. */
  ghost predicate Fair(robin: nat, n: nat)
    requires n > 0
  {
    forall downs, h: nat | h < n && CallsOver(downs, n) && StaysUp(downs, h) :: IsChosen(robin, downs, n, h)
  }

  /** The counter does not pass zero on the way, or it does so without upsetting the residues. */
  predicate Steady(robin: nat, n: nat)
    requires n > 0
  {
    robin + n < WRAP || robin == WRAP - 1 || WRAP % n == 0
  }

  lemma ReachResidue(a: nat, n: nat, h: nat) returns (k: nat)
    requires h < n
    ensures k < n && (a + k) % n == h
  {
    var q, r := a / n, a % n;
    DivModParts(a, n);
    if h >= r {
      k := h - r;
      DivModUnique(a + k, n, q, h);
    } else {
      k := h - r + n;
      assert (q + 1) * n == q * n + n;
      DivModUnique(a + k, n, q + 1, h);
    }
  }

  lemma ModOfMod(x: nat, n: nat)
    requires n > 0 && WRAP % n == 0
    ensures x % WRAP % n == x % n
  {
    var q, r, m := x / WRAP, x % WRAP, WRAP / n;
    DivModParts(x, WRAP);
    DivModParts(WRAP, n);
    DivModParts(r, n);
    assert q * WRAP == (q * m) * n by { assert WRAP == m * n; MulAssoc(q, m, n); }
    assert x == (q * m + r / n) * n + r % n;
    DivModUnique(x, n, q * m + r / n, r % n);
  }

  lemma MulAssoc(a: nat, b: nat, c: nat)
    ensures a * (b * c) == (a * b) * c
  {
  }

  lemma StartReachesDividing(robin: nat, n: nat, h: nat) returns (k: nat)
    requires h < n && WRAP % n == 0
    ensures k < n && Start(robin, k, n) == h
  {
    k := ReachResidue(robin + 1, n, h);
    ModOfMod(robin + 1 + k, n);
  }

  lemma StartReachesBeforeWrap(robin: nat, n: nat, h: nat) returns (k: nat)
    requires h < n && robin + n < WRAP
    ensures k < n && Start(robin, k, n) == h
  {
    k := ReachResidue(robin + 1, n, h);
    assert (robin + 1 + k) % WRAP == robin + 1 + k;
  }

  lemma StartReaches(robin: nat, n: nat, h: nat) returns (k: nat)
    requires h < n <= MAX_POOL && robin < WRAP && Steady(robin, n)
    ensures k < n && Start(robin, k, n) == h
  {
    if WRAP % n == 0 {
      k := StartReachesDividing(robin, n, h);
    } else if robin == WRAP - 1 {
      k := h;
      assert (robin + 1 + k) % WRAP == h;
      DivModUnique(h, n, 0, h);
    } else {
      k := StartReachesBeforeWrap(robin, n, h);
    }
  }

  /** A steady counter starves nobody. */
  lemma SteadyIsFair(robin: nat, n: nat)
    requires 0 < n <= MAX_POOL && robin < WRAP && Steady(robin, n)
    ensures Fair(robin, n)
  {
    forall downs, h: nat | h < n && CallsOver(downs, n) && StaysUp(downs, h)
      ensures IsChosen(robin, downs, n, h)
    {
      var k := StartReaches(robin, n, h);
      ChosenIsFirstUp(downs[k], h);
      assert Chosen(downs[k], Start(robin, k, n)) == Some(h);
    }
  }

  /** The host no call starts at when the counter passes zero and n does not divide 2^32. */
  function Missed(robin: nat, n: nat): (h: nat)
    requires 0 < n <= MAX_POOL && robin < WRAP && !Steady(robin, n)
    ensures h < n
  {
    var q, j := WRAP % n, robin + n + 1 - WRAP;
    if q >= j then q else j
  }

  lemma NeverStartsAtMissed(robin: nat, n: nat, k: nat)
    requires 0 < n <= MAX_POOL && robin < WRAP && !Steady(robin, n) && k < n
    ensures Start(robin, k, n) != Missed(robin, n)
  {
    var q, m, j := WRAP % n, WRAP / n, robin + n + 1 - WRAP;
    DivModParts(WRAP, n);
    assert WRAP == m * n + q;
    if robin + 1 + k < WRAP {
      var e := robin + 1 + k - m * n;
      assert e == q - (n - j) + k;
      if e >= 0 {
        DivModUnique(robin + 1 + k, n, m, e);
      } else {
        assert (m - 1) * n == m * n - n;
        DivModUnique(robin + 1 + k, n, m - 1, e + n);
      }
    } else {
      var c := robin + 1 + k - WRAP;
      assert (robin + 1 + k) % WRAP == c;
      DivModUnique(c, n, 0, c);
    }
  }

  /** With every host up, n calls around the wrap leave one host out. */
  lemma UnsteadyStarves(robin: nat, n: nat)
    requires 0 < n <= MAX_POOL && robin < WRAP && !Steady(robin, n)
    ensures !Fair(robin, n)
  {
    var allUp := seq(n, _ => false);
    var downs, h := seq(n, _ => allUp), Missed(robin, n);
    forall k | 0 <= k < n
      ensures Chosen(downs[k], Start(robin, k, n)) != Some(h)
    {
      NeverStartsAtMissed(robin, n, k);
      ChosenIsFirstUp(downs[k], Start(robin, k, n));
    }
    assert CallsOver(downs, n) && StaysUp(downs, h) && !IsChosen(robin, downs, n, h);
  }

  /** n consecutive calls on the shared object starve nobody exactly when the counter does not wrap
      among them or n divides 2^32. */
  lemma FairExactlyWhenSteady(robin: nat, n: nat)
    requires 0 < n <= MAX_POOL && robin < WRAP
    ensures Fair(robin, n) <==> Steady(robin, n)
  {
    if Steady(robin, n) {
      SteadyIsFair(robin, n);
    } else {
      UnsteadyStarves(robin, n);
    }
  }

  /** Consecutive calls on the object: the calls that the starts above stand for. If the counter is
      steady, n of them over n hosts reach every host that stays up. */
  method SelectEach(shared: RoundRobin, downs: seq<seq<bool>>) returns (hosts: seq<Option<nat>>)
    requires shared.robin < WRAP && forall k :: 0 <= k < |downs| ==> 0 < |downs[k]| <= MAX_POOL
    modifies shared
    ensures shared.robin == (old(shared.robin) + |downs|) % WRAP
    ensures |hosts| == |downs|
    ensures forall k :: 0 <= k < |downs| ==> hosts[k] == Chosen(downs[k], Start(old(shared.robin), k, |downs[k]|))
    ensures downs != [] && CallsOver(downs, |downs|) && Steady(old(shared.robin), |downs|) ==>
              forall h: nat :: h < |downs| && StaysUp(downs, h) ==> Some(h) in hosts
  {
    hosts := [];
    ghost var was := shared.robin;
    for k := 0 to |downs|
      invariant |hosts| == k && shared.robin == (was + k) % WRAP
      invariant forall j :: 0 <= j < k ==> hosts[j] == Chosen(downs[j], Start(was, j, |downs[j]|))
    {
      NextCounter(was, k);
      var host := shared.Select(downs[k]);
      hosts := hosts + [host];
    }
    ghost var n := |downs|;
    if downs != [] && CallsOver(downs, n) && Steady(was, n) {
      assert |downs[0]| == n;
      SteadyIsFair(was, n);
      forall h: nat | h < n && StaysUp(downs, h)
        ensures Some(h) in hosts
      {
        assert IsChosen(was, downs, n, h);
        var k :| 0 <= k < n && Chosen(downs[k], Start(was, k, n)) == Some(h);
        assert hosts[k] == Some(h);
      }
    }
  }

  lemma NextCounter(robin: nat, k: nat)
    ensures ((robin + k) % WRAP + 1) % WRAP == (robin + 1 + k) % WRAP
  {
  }
}
