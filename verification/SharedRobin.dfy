/** The round-robin counter belongs to the policy object, and all blocks share the object. When k
    blocks take turns, each sees every k-th value of the counter only. */
module SharedRobin {
  import opened Options
  import opened Mods
  import opened RoundRobin

  /** Where the i-th call of one block starts, when the counter first stood at first for it. */
  function Turn(first: nat, k: nat, i: nat, n: nat): (h: nat)
    requires n > 0
    ensures h < n
  {
    (first + k * i) % WRAP % n
  }

  /** When k blocks take turns on the object from a counter of robin on, the i-th call of the b-th block
      is call b + k * i of all, and this is where it starts. */
  lemma TurnIsStart(robin: nat, b: nat, k: nat, i: nat, n: nat)
    requires n > 0
    ensures Turn((robin + 1 + b) % WRAP, k, i, n) == Start(robin, b + k * i, n)
  {
    var first, m := robin + 1 + b, k * i;
    WrapLater(first, m);
    assert robin + 1 + (b + k * i) == first + m;
  }

  lemma WrapLater(x: int, m: int)
    ensures (x % WRAP + m) % WRAP == (x + m) % WRAP
  {
    var q := x / WRAP;
    assert x % WRAP + m == x + m - q * WRAP;
  }

  /** Each host of the block that stays up is chosen within n of the block's own calls. */
  ghost predicate FairInTurns(first: nat, k: nat, n: nat)
    requires n > 0
  {
    forall downs, h: nat | h < n && CallsOver(downs, n) && StaysUp(downs, h) :: IsChosenInTurns(first, k, downs, n, h)
  }

  ghost predicate IsChosenInTurns(first: nat, k: nat, downs: seq<seq<bool>>, n: nat, h: nat)
    requires n > 0 && CallsOver(downs, n)
  {
    exists i :: 0 <= i < n && Chosen(downs[i], Turn(first, k, i, n)) == Some(h)
  }

  predicate Divides(d: nat, x: nat)
    requires d > 0
  {
    x % d == 0
  }

  ghost predicate Coprime(a: nat, b: nat) {
    forall d: nat :: d > 1 ==> !(Divides(d, a) && Divides(d, b))
  }

  // ---------------------------------------------------------------- Bezout

  /** A common divisor of a and b as a combination of them. */
  lemma {:induction false} Bezout(a: nat, b: nat) returns (g: nat, u: int, v: int, p: nat, q: nat)
    requires a > 0 || b > 0
    ensures g > 0 && u * a + v * b == g && a == p * g && b == q * g
    decreases b
  {
    if b == 0 {
      g, u, v, p, q := a, 1, 0, 1, 0;
    } else {
      var m, r := a / b, a % b;
      DivModParts(a, b);
      var g', u', v', p', q' := Bezout(b, r);
      g, u, v, p, q := g', v', u' - m * v', m * p' + q', p';
      Rewrite(a, b, m, r, u', v', g');
      Regroup(m, p', q', g', b, r);
    }
  }

  lemma Rewrite(a: int, b: int, m: int, r: int, u: int, v: int, g: int)
    requires a == m * b + r && u * b + v * r == g
    ensures v * a + (u - m * v) * b == g
  {
    assert v * a == v * (m * b) + v * r;
    assert (u - m * v) * b == u * b - (m * v) * b;
    assert v * (m * b) == (m * v) * b;
  }

  lemma Regroup(m: int, p: int, q: int, g: int, b: int, r: int)
    requires b == p * g && r == q * g
    ensures m * b + r == (m * p + q) * g
  {
    assert m * (p * g) == (m * p) * g;
  }

  lemma MultipleDivides(d: nat, p: nat)
    requires d > 0
    ensures Divides(d, p * d)
  {
    DivModUnique(p * d, d, p, 0);
  }

  /** Modulo n, coprime k has an inverse. */
  lemma Inverse(k: nat, n: nat) returns (u: int, v: int)
    requires n > 0 && Coprime(k, n)
    ensures u * k + v * n == 1
  {
    var g, u', v', p, q := Bezout(k, n);
    MultipleDivides(g, p);
    MultipleDivides(g, q);
    assert !(g > 1);
    u, v := u', v';
  }

  // ---------------------------------------------------------------- reaching every host

  lemma Expand(k: int, u: int, v: int, n: int, x: int, i: int, m: int)
    requires u * k + v * n == 1 && u * x == m * n + i
    ensures k * i == x - (v * x + k * m) * n
  {
    assert k * (u * x) == k * (m * n) + k * i;
    assert k * (u * x) == (u * k) * x;
    assert (u * k) * x == (1 - v * n) * x;
    assert (1 - v * n) * x == x - (v * n) * x;
    assert (v * n) * x == (v * x) * n;
    assert k * (m * n) == (k * m) * n;
    assert (v * x + k * m) * n == (v * x) * n + (k * m) * n;
  }

  /** Some multiple of coprime k below n * k is x modulo n. */
  lemma Solve(k: nat, n: nat, x: int) returns (i: nat, w: int)
    requires n > 0 && Coprime(k, n)
    ensures i < n && k * i == x - w * n
  {
    var u, v := Inverse(k, n);
    var y := u * x;
    IntDivMod(y, n);
    i, w := y % n, v * x + k * (y / n);
    Expand(k, u, v, n, x, i, y / n);
  }

  /** The wraps of the counter do not show: it does not wrap within the n turns, or n divides 2^32. */
  predicate Smooth(first: nat, k: nat, n: nat)
    requires n > 0
  {
    first + k * (n - 1) < WRAP || WRAP % n == 0
  }

  lemma TurnIsPlain(first: nat, k: nat, i: nat, n: nat)
    requires i < n && Smooth(first, k, n)
    ensures 0 <= first + k * i && Turn(first, k, i, n) == (first + k * i) % n
  {
    if WRAP % n == 0 {
      ModOfMod(first + k * i, n);
    } else {
      NoWrap(first, k, i, n);
    }
  }

  lemma TurnReaches(first: nat, k: nat, n: nat, h: nat) returns (i: nat)
    requires h < n && Coprime(k, n) && Smooth(first, k, n)
    ensures i < n && Turn(first, k, i, n) == h
  {
    var w;
    i, w := Solve(k, n, h - first);
    Residue(first + k * i, w, n, h);
    TurnIsPlain(first, k, i, n);
  }

  lemma IntDivMod(y: int, n: int)
    requires n > 0
    ensures y == (y / n) * n + y % n && 0 <= y % n < n
  {
  }

  lemma Residue(x: int, w: int, n: int, h: int)
    requires 0 <= h < n && x == h - w * n
    ensures x % n == h
  {
    assert (-w) * n == -(w * n);
    DivModUnique(x, n, -w, h);
  }

  lemma NoWrap(first: nat, k: nat, i: nat, n: nat)
    requires i < n && first + k * (n - 1) < WRAP
    ensures 0 <= first + k * i < WRAP
  {
    TurnsGrow(k, i, n - 1);
  }

  // ---------------------------------------------------------------- missing one

  /** If no turn starts at h, then h is left out when all hosts are up. */
  lemma MissedStarves(first: nat, k: nat, n: nat, h: nat)
    requires h < n && forall i :: 0 <= i < n ==> Turn(first, k, i, n) != h
    ensures !FairInTurns(first, k, n)
  {
    var allUp := seq(n, _ => false);
    var downs := seq(n, _ => allUp);
    forall i | 0 <= i < n
      ensures Chosen(downs[i], Turn(first, k, i, n)) != Some(h)
    {
      ChosenIsFirstUp(downs[i], Turn(first, k, i, n));
    }
    assert CallsOver(downs, n) && StaysUp(downs, h) && !IsChosenInTurns(first, k, downs, n, h);
  }

  /** Whether the counter has wrapped when the i-th turn comes; with fewer than 2^32 calls in all it
      wraps at most once. */
  lemma TurnIs(first: nat, k: nat, i: nat, n: nat)
    requires i < n && first < WRAP && k * (n - 1) < WRAP
    ensures var x := first + k * i;
            0 <= x && Turn(first, k, i, n) == if x < WRAP then x % n else (x - WRAP) % n
  {
    TurnsGrow(k, i, n - 1);
    WrapOnce(first + k * i);
  }

  lemma TurnsGrow(k: nat, i: nat, m: nat)
    requires i <= m
    ensures 0 <= k * i <= k * m
  {
    assert k * m == k * i + k * (m - i);
  }

  lemma WrapOnce(x: nat)
    requires x < 2 * WRAP
    ensures x % WRAP == if x < WRAP then x else x - WRAP
  {
  }

  lemma Combine(f: int, r: int, a: int, i: int, b: int, q: int, s: int, d: int)
    requires (f * d + r) + (a * d) * i == q * (b * d) + s
    ensures s == (f + a * i - q * b) * d + r
  {
    assert (a * d) * i == (a * i) * d;
    assert q * (b * d) == (q * b) * d;
    assert (f + a * i - q * b) * d == f * d + (a * i) * d - (q * b) * d;
  }

  /** Steps by multiples of d, modulo a multiple of d, keep the residue modulo d. */
  lemma KeepsResidue(start: int, k: nat, i: nat, n: nat, d: nat)
    requires n > 0 && d > 1 && Divides(d, k) && Divides(d, n)
    ensures (start + k * i) % n % d == start % d
  {
    var x := start + k * i;
    IntDivMod(k, d);
    IntDivMod(n, d);
    IntDivMod(start, d);
    IntDivMod(x, n);
    Combine(start / d, start % d, k / d, i, n / d, x / n, x % n, d);
    DivModUnique(x % n, d, start / d + (k / d) * i - (x / n) * (n / d), start % d);
  }

  /** A host that is in neither residue class; for d = 2 there is only one, 2^32 being even. */
  function Outside(first: nat, d: nat): (h: nat)
    requires d > 1
    ensures h < d && h != first % d && h != (first - WRAP) % d
  {
    var a, b := first % d, (first - WRAP) % d;
    if d == 2 then 1 - a
    else if a != 0 && b != 0 then 0
    else if a != 1 && b != 1 then 1
    else 2
  }

  lemma CommonDivisorStarves(first: nat, k: nat, n: nat, d: nat)
    requires n > 0 && d > 1 && Divides(d, k) && Divides(d, n)
    requires first < WRAP && (k * (n - 1) < WRAP || WRAP % n == 0)
    ensures !FairInTurns(first, k, n)
  {
    DivModParts(n, d);
    MulBound(n / d, d);
    var h := Outside(first, d);
    DivModUnique(h, d, 0, h);
    forall i | 0 <= i < n
      ensures Turn(first, k, i, n) != h
    {
      if WRAP % n == 0 {
        TurnIsPlain(first, k, i, n);
      } else {
        TurnIs(first, k, i, n);
      }
      KeepsResidue(first, k, i, n, d);
      KeepsResidue(first - WRAP, k, i, n, d);
    }
    MissedStarves(first, k, n, h);
  }

  // ---------------------------------------------------------------- across a wrap

  /** The first turn after the wrap. */
  lemma {:induction false} FirstWrapped(first: nat, k: nat, m: nat) returns (j: nat)
    requires first < WRAP <= first + k * m
    ensures 0 < j <= m && first + k * j >= WRAP && first + k * (j - 1) < WRAP
    decreases m
  {
    if first + k * (m - 1) < WRAP {
      j := m;
    } else {
      j := FirstWrapped(first, k, m - 1);
    }
  }

  lemma SameResidue(a: int, b: int, n: int) returns (q: int)
    requires n > 0 && a % n == b % n
    ensures a - b == q * n
  {
    IntDivMod(a, n);
    IntDivMod(b, n);
    q := a / n - b / n;
    assert q * n == (a / n) * n - (b / n) * n;
  }

  /** A factor that is coprime can be cancelled. */
  lemma CoprimeCancels(k: nat, n: nat, x: int, q: int) returns (p: int)
    requires n > 0 && Coprime(k, n) && k * x == q * n
    ensures x == p * n
  {
    var u, v := Inverse(k, n);
    p := u * q + v * x;
    assert u * (k * x) == (u * k) * x;
    assert u * (q * n) == (u * q) * n;
    assert (u * k) * x + (v * n) * x == (u * k + v * n) * x;
    assert (v * n) * x == (v * x) * n;
    assert p * n == (u * q) * n + (v * x) * n;
  }

  lemma NoSmallMultiple(k: nat, n: nat, x: int, q: int)
    requires 0 < x < n && Coprime(k, n)
    ensures k * x != q * n
  {
    if k * x == q * n {
      var p := CoprimeCancels(k, n, x, q);
      MulBound(p, n);
    }
  }

  /** Before the wrap, turn i does not start where turn m > i would have. */
  lemma BeforeWrapMisses(first: nat, k: nat, n: nat, i: nat, m: nat)
    requires i < m < n && Coprime(k, n)
    ensures (first + k * i) % n != (first + k * m) % n
  {
    if (first + k * i) % n == (first + k * m) % n {
      var q := SameResidue(first + k * m, first + k * i, n);
      assert k * (m - i) == k * m - k * i;
      NoSmallMultiple(k, n, m - i, q);
    }
  }

  /** After the wrap, which shifts by c turns, it does not start there if m + c is less than n ahead. */
  lemma AfterWrapMisses(first: nat, k: nat, n: nat, i: nat, m: nat, c: nat, w: int)
    requires i < m + c < i + n && Coprime(k, n) && k * c == WRAP - w * n
    ensures (first + k * i - WRAP) % n != (first + k * m) % n
  {
    if (first + k * i - WRAP) % n == (first + k * m) % n {
      var q := SameResidue(first + k * m, first + k * i - WRAP, n);
      assert k * (m + c - i) == k * m + k * c - k * i;
      assert (q - w) * n == q * n - w * n;
      NoSmallMultiple(k, n, m + c - i, q - w);
    }
  }

  lemma WrapStarves(first: nat, k: nat, n: nat)
    requires n > 0 && first < WRAP && k * (n - 1) < WRAP && Coprime(k, n) && !Smooth(first, k, n)
    ensures !FairInTurns(first, k, n)
  {
    var j := FirstWrapped(first, k, n - 1);
    var c, w := Solve(k, n, WRAP);
    assert c != 0 by {
      if c == 0 {
        DivModUnique(WRAP, n, w, 0);
      }
    }
    var m := if n - c >= j then n - c else j;
    var h := (first + k * m) % n;
    forall i | 0 <= i < n
      ensures Turn(first, k, i, n) != h
    {
      TurnIs(first, k, i, n);
      TurnSide(first, k, i, j);
      if i < j {
        BeforeWrapMisses(first, k, n, i, m);
      } else {
        AfterWrapMisses(first, k, n, i, m, c, w);
      }
    }
    MissedStarves(first, k, n, h);
  }

  lemma TurnSide(first: nat, k: nat, i: nat, j: nat)
    requires 0 < j && first + k * j >= WRAP && first + k * (j - 1) < WRAP
    ensures i < j <==> first + k * i < WRAP
  {
    if i < j {
      TurnsGrow(k, i, j - 1);
    } else {
      TurnsGrow(k, j, i);
    }
  }

  /** When k blocks take turns, a block of n hosts starves none of them exactly when k and n have no
      common divisor and the counter does not wrap among its turns or n divides 2^32. Two blocks of
      two hosts each use one host each. Unless n divides 2^32, the turns take fewer than 2^32 calls. */
  lemma FairInTurnsExactlyWhenCoprime(first: nat, k: nat, n: nat)
    requires n > 0 && first < WRAP && (k * (n - 1) < WRAP || WRAP % n == 0)
    ensures FairInTurns(first, k, n) <==> Coprime(k, n) && Smooth(first, k, n)
  {
    if !Coprime(k, n) {
      var d: nat :| d > 1 && Divides(d, k) && Divides(d, n);
      CommonDivisorStarves(first, k, n, d);
    } else if !Smooth(first, k, n) {
      WrapStarves(first, k, n);
    } else {
      forall downs, h: nat | h < n && CallsOver(downs, n) && StaysUp(downs, h)
        ensures IsChosenInTurns(first, k, downs, n, h)
      {
        var i := TurnReaches(first, k, n, h);
        ChosenIsFirstUp(downs[i], h);
        assert Chosen(downs[i], Turn(first, k, i, n)) == Some(h);
      }
    }
  }

  // ---------------------------------------------------------------- any stride

  ghost predicate Distinct(v: seq<nat>) {
    forall i, j :: 0 <= i < j < |v| ==> v[i] != v[j]
  }

  ghost function Values(v: seq<nat>): set<nat> {
    set x | x in v
  }

  lemma {:induction false} ValuesCount(v: seq<nat>)
    ensures |Values(v)| <= |v| && (|Values(v)| == |v| <==> Distinct(v))
  {
    if v == [] {
      assert Values(v) == {};
    } else {
      var last, w := v[|v| - 1], v[..|v| - 1];
      ValuesCount(w);
      assert v == w + [last];
      assert Values(v) == Values(w) + {last};
      if last in w {
        var i :| 0 <= i < |w| && w[i] == last;
        assert v[i] == v[|v| - 1];
      } else {
        assert forall i :: 0 <= i < |w| ==> v[i] == w[i] && w[i] in w;
        assert Distinct(w) ==> Distinct(v);
      }
      assert Distinct(v) ==> Distinct(w) by {
        assert forall i :: 0 <= i < |w| ==> v[i] == w[i];
      }
    }
  }

  ghost function Below(n: nat): (r: set<nat>)
    ensures |r| == n && forall x: nat :: x in r <==> x < n
  {
    if n == 0 then {} else Below(n - 1) + {n - 1}
  }

  lemma SameSize(a: set<nat>, b: set<nat>)
    requires a <= b && |a| == |b|
    ensures a == b
  {
    assert b == a + (b - a);
    assert |b - a| == 0;
  }

  /** n values below n are all values below n exactly when they differ. */
  lemma Pigeonhole(v: seq<nat>, n: nat)
    requires |v| == n && forall i :: 0 <= i < n ==> v[i] < n
    ensures (forall h: nat :: h < n ==> h in v) <==> Distinct(v)
  {
    ValuesCount(v);
    assert Values(v) <= Below(n);
    if Distinct(v) {
      SameSize(Values(v), Below(n));
      forall h: nat | h < n
        ensures h in v
      {
        assert h in Below(n) && h in Values(v);
      }
    }
    if forall h: nat :: h < n ==> h in v {
      assert Below(n) <= Values(v);
      assert Values(v) == Below(n);
    }
  }

  ghost function Turns(first: nat, k: nat, n: nat): (v: seq<nat>)
    requires n > 0
    ensures |v| == n && forall i :: 0 <= i < n ==> v[i] == Turn(first, k, i, n) < n
  {
    seq(n, i requires 0 <= i < n => Turn(first, k, i, n))
  }

  /** However many calls the turns take and however often the counter wraps, none of the n hosts is
      starved exactly when no two of the n turns start at the same host. */
  lemma FairInTurnsExactly(first: nat, k: nat, n: nat)
    requires n > 0
    ensures FairInTurns(first, k, n)
            <==> forall i, j :: 0 <= i < j < n ==> Turn(first, k, i, n) != Turn(first, k, j, n)
  {
    var v := Turns(first, k, n);
    Pigeonhole(v, n);
    if Distinct(v) {
      forall downs, h: nat | h < n && CallsOver(downs, n) && StaysUp(downs, h)
        ensures IsChosenInTurns(first, k, downs, n, h)
      {
        assert h in v;
        var i :| 0 <= i < n && v[i] == h;
        ChosenIsFirstUp(downs[i], h);
        assert Chosen(downs[i], Turn(first, k, i, n)) == Some(h);
      }
      assert forall i, j :: 0 <= i < j < n ==> v[i] != v[j];
    } else {
      var h: nat :| h < n && h !in v;
      forall i | 0 <= i < n
        ensures Turn(first, k, i, n) != h
      {
        assert v[i] in v;
      }
      MissedStarves(first, k, n, h);
    }
  }
}
