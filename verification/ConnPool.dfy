/** What the connection manager does to its buckets, one event at a time, as functions on values.
    The manager class is proved against these functions and the system of clients, manager and
    closers is built from them. */
module ConnPool {
  import opened Options
  import opened Bags
  import opened TransportTypes

  type Conn = nat
  type Time = int

  /** The last-used stamp of a connection; stamps live in the connections, not in the buckets. */
  function Used(used: seq<Time>, c: Conn): Time {
    if c < |used| then used[c] else 0
  }

  // ---------------------------------------------------------------- sort.Search

  predicate Good(bucket: seq<Conn>, used: seq<Time>, stale: Time, i: nat)
    requires i < |bucket|
  {
    Used(used, bucket[i]) > stale
  }

  /** sort.Search narrowed to [i, j). Nothing is assumed about the order of the bucket: the result
      is just a place where the predicate turns from false to true. */
  function SearchFrom(bucket: seq<Conn>, used: seq<Time>, stale: Time, i: nat, j: nat): (r: nat)
    requires i <= j <= |bucket|
    ensures i <= r <= j
    ensures i < r ==> !Good(bucket, used, stale, r - 1)
    ensures r < j ==> Good(bucket, used, stale, r)
    decreases j - i
  {
    if i == j then i
    else
      var h := (i + j) / 2;
      if !Good(bucket, used, stale, h) then SearchFrom(bucket, used, stale, h + 1, j)
      else SearchFrom(bucket, used, stale, i, h)
  }

  /** The binary search as the loop it is. */
  method Search(bucket: seq<Conn>, used: seq<Time>, stale: Time) returns (firstGood: nat)
    ensures firstGood == SearchFrom(bucket, used, stale, 0, |bucket|)
  {
    var i: nat, j: nat := 0, |bucket|;
    while i < j
      invariant i <= j <= |bucket|
      invariant SearchFrom(bucket, used, stale, i, j) == SearchFrom(bucket, used, stale, 0, |bucket|)
    {
      var h := (i + j) / 2;
      if !Good(bucket, used, stale, h) {
        i := h + 1;
      } else {
        j := h;
      }
    }
    firstGood := i;
  }

  // ---------------------------------------------------------------- one bucket

  /** What a bucket keeps and what is handed to closeConns. */
  datatype Split = Split(kept: seq<Conn>, doomed: seq<Conn>)

  /** cleanup on one bucket. */
  function Sweep(bucket: seq<Conn>, all: bool, used: seq<Time>, expire: Time, now: Time): (r: Split)
    ensures r.doomed + r.kept == bucket
  {
    var stale := now - expire;
    if bucket == [] then Split(bucket, [])
    else if all then Split([], bucket)
    else if Good(bucket, used, stale, 0) then Split(bucket, [])
    else
      var firstGood := SearchFrom(bucket, used, stale, 0, |bucket|);
      Split(bucket[firstGood..], bucket[..firstGood])
  }

  /** Where cleanup cuts a bucket that is not empty. */
  method CutPoint(stack: seq<Conn>, all: bool, used: seq<Time>, expire: Time, now: Time) returns (cut: nat)
    requires stack != []
    ensures cut <= |stack| && (all ==> cut == |stack|)
    ensures Sweep(stack, all, used, expire, now) == Split(stack[cut..], stack[..cut])
  {
    if all {
      cut := |stack|;
      assert stack[cut..] == [] && stack[..cut] == stack;
    } else if Used(used, stack[0]) > now - expire {
      cut := 0;
      assert stack[cut..] == stack && stack[..cut] == [];
    } else {
      cut := Search(stack, used, now - expire);
    }
  }

  datatype Taken = Taken(reply: Option<Conn>, split: Split)

  /** A dial request served from one bucket. */
  function Take(bucket: seq<Conn>, used: seq<Time>, expire: Time, now: Time): (r: Taken)
    ensures r.reply.Some? ==> bucket == r.split.kept + [r.reply.value] && r.split.doomed == []
    ensures r.reply.None? ==> r.split.kept == [] && r.split.doomed == bucket
  {
    if bucket == [] then Taken(None, Split([], []))
    else
      var top := bucket[|bucket| - 1];
      if now - Used(used, top) < expire then Taken(Some(top), Split(bucket[..|bucket| - 1], []))
      else Taken(None, Split([], bucket))
  }

  // ---------------------------------------------------------------- all buckets

  /** The buckets after an event, the windows handed to closers, and the answer to a dial. */
  datatype Handled = Handled(buckets: seq<seq<Conn>>, closers: seq<seq<Conn>>, reply: Option<Conn>)

  type Buckets = b: seq<seq<Conn>> | |b| == TYPE_TOTAL_COUNT witness [[], [], []]

  /** closeConns is only started on a window that is not empty. */
  function Launch(doomed: seq<Conn>): seq<seq<Conn>> {
    if doomed == [] then [] else [doomed]
  }

  function Lent(reply: Option<Conn>): seq<Conn> {
    if reply.Some? then [reply.value] else []
  }

  function HandleDial(buckets: Buckets, network: string, used: seq<Time>, expire: Time, now: Time): (r: Handled)
    ensures |r.buckets| == TYPE_TOTAL_COUNT
  {
    var t := StringToTransportType(network);
    var taken := Take(buckets[t], used, expire, now);
    Handled(buckets[t := taken.split.kept], Launch(taken.split.doomed), taken.reply)
  }

  /** None when the connection's type makes the manager panic. */
  function HandleYield(buckets: Buckets, tls: bool, kind: ConnKind, c: Conn): (r: Option<Buckets>) {
    var t := TransportTypeFromConn(tls, kind);
    if t.None? then None else Some(buckets[t.value := buckets[t.value] + [c]])
  }

  /** The buckets once the first n of them have been cleaned up. */
  function Kept(buckets: Buckets, n: nat, all: bool, used: seq<Time>, expire: Time, now: Time): (r: Buckets)
    requires n <= TYPE_TOTAL_COUNT
  {
    seq(TYPE_TOTAL_COUNT, t requires 0 <= t < TYPE_TOTAL_COUNT =>
      if t < n then Sweep(buckets[t], all, used, expire, now).kept else buckets[t])
  }

  /** The windows handed to closers by cleaning up the first n buckets. */
  function Launched(buckets: Buckets, n: nat, all: bool, used: seq<Time>, expire: Time, now: Time): seq<seq<Conn>>
    requires n <= TYPE_TOTAL_COUNT
  {
    if n == 0 then []
    else Launched(buckets, n - 1, all, used, expire, now)
         + Launch(Sweep(buckets[n - 1], all, used, expire, now).doomed)
  }

  function HandleSweep(buckets: Buckets, all: bool, used: seq<Time>, expire: Time, now: Time): (r: Handled)
    ensures |r.buckets| == TYPE_TOTAL_COUNT
  {
    Handled(Kept(buckets, TYPE_TOTAL_COUNT, all, used, expire, now),
            Launched(buckets, TYPE_TOTAL_COUNT, all, used, expire, now), None)
  }

  // ---------------------------------------------------------------- order and expiry

  /** Sorted by last use up to a slack of d: an earlier entry may be at most d younger. */
  ghost predicate NearSorted(bucket: seq<Conn>, used: seq<Time>, d: Time) {
    forall i, j :: 0 <= i < j < |bucket| ==> Used(used, bucket[i]) <= Used(used, bucket[j]) + d
  }

  /** Once an entry is young enough, so are all after it. */
  ghost predicate Partitioned(bucket: seq<Conn>, used: seq<Time>, stale: Time) {
    forall i, j :: 0 <= i < j < |bucket| && Good(bucket, used, stale, i) ==> Good(bucket, used, stale, j)
  }

  /** The index at which a clean-up divides the bucket has stale entries just before it and a young
      one just after it, whatever the order of the bucket. */
  lemma SweepEdges(bucket: seq<Conn>, used: seq<Time>, expire: Time, now: Time)
    ensures var s := Sweep(bucket, false, used, expire, now);
            && (s.doomed != [] ==> Used(used, s.doomed[|s.doomed| - 1]) <= now - expire)
            && (s.kept != [] ==> Used(used, s.kept[0]) > now - expire)
  {
  }

  /** Where a near-sorted bucket is cut between a stale and a young entry, age is respected up to d. */
  lemma CutBounds(a: seq<Conn>, b: seq<Conn>, used: seq<Time>, stale: Time, d: Time)
    requires NearSorted(a + b, used, d) && d >= 0
    requires a != [] ==> Used(used, a[|a| - 1]) <= stale
    requires b != [] ==> Used(used, b[0]) > stale
    ensures forall c :: c in a ==> Used(used, c) <= stale + d
    ensures forall c :: c in b ==> Used(used, c) > stale - d
  {
    NearSortedPart(a, b, used, d);
    forall c | c in a
      ensures Used(used, c) <= stale + d
    {
      var i :| 0 <= i < |a| && a[i] == c;
    }
    forall c | c in b
      ensures Used(used, c) > stale - d
    {
      var i :| 0 <= i < |b| && b[i] == c;
    }
  }

  /** With slack d, a clean-up keeps only connections younger than expire + d and dooms only ones
      at least expire - d old, although its search predicate need not be monotone. */
  lemma SweepBounds(bucket: seq<Conn>, used: seq<Time>, expire: Time, now: Time, d: Time)
    requires NearSorted(bucket, used, d) && d >= 0
    ensures var s := Sweep(bucket, false, used, expire, now);
            && (forall c :: c in s.kept ==> now - Used(used, c) < expire + d)
            && (forall c :: c in s.doomed ==> now - Used(used, c) >= expire - d)
  {
    var s := Sweep(bucket, false, used, expire, now);
    SweepEdges(bucket, used, expire, now);
    CutBounds(s.doomed, s.kept, used, now - expire, d);
  }

  /** The cut is exact when and only when the whole is partitioned by age. */
  lemma CutExact(a: seq<Conn>, b: seq<Conn>, used: seq<Time>, stale: Time)
    requires a != [] ==> Used(used, a[|a| - 1]) <= stale
    requires b != [] ==> Used(used, b[0]) > stale
    ensures ((forall c :: c in b ==> Used(used, c) > stale) && (forall c :: c in a ==> Used(used, c) <= stale))
            <==> Partitioned(a + b, used, stale)
  {
    var whole := a + b;
    if Partitioned(whole, used, stale) {
      forall c | c in b
        ensures Used(used, c) > stale
      {
        var i :| 0 <= i < |b| && b[i] == c;
        assert whole[|a|] == b[0] && whole[|a| + i] == c;
        assert Good(whole, used, stale, |a|);
        assert i > 0 ==> Good(whole, used, stale, |a| + i);
      }
      forall c | c in a
        ensures Used(used, c) <= stale
      {
        var i :| 0 <= i < |a| && a[i] == c;
        assert whole[|a| - 1] == a[|a| - 1] && whole[i] == c;
        assert !Good(whole, used, stale, |a| - 1);
        assert i < |a| - 1 ==> !Good(whole, used, stale, i);
      }
    }
    if (forall c :: c in b ==> Used(used, c) > stale) && (forall c :: c in a ==> Used(used, c) <= stale) {
      forall i, j | 0 <= i < j < |whole| && Good(whole, used, stale, i)
        ensures Good(whole, used, stale, j)
      {
        assert whole[j] in (if i < |a| then a + b else b);
      }
    }
  }

  /** A clean-up separates young from stale exactly when the bucket is partitioned by age; nothing
      weaker than that will do, and being sorted is enough. */
  lemma SweepExact(bucket: seq<Conn>, used: seq<Time>, expire: Time, now: Time)
    ensures var s := Sweep(bucket, false, used, expire, now);
            ((forall c :: c in s.kept ==> Used(used, c) > now - expire)
             && (forall c :: c in s.doomed ==> Used(used, c) <= now - expire))
            <==> Partitioned(bucket, used, now - expire)
    ensures NearSorted(bucket, used, 0) ==> Partitioned(bucket, used, now - expire)
  {
    var s := Sweep(bucket, false, used, expire, now);
    SweepEdges(bucket, used, expire, now);
    CutExact(s.doomed, s.kept, used, now - expire);
  }

  /** A dial lends only a connection younger than expire; if it throws the whole bucket away
      instead, every connection in it is at least expire - d old. */
  lemma TakeBounds(bucket: seq<Conn>, used: seq<Time>, expire: Time, now: Time, d: Time)
    requires NearSorted(bucket, used, d) && d >= 0
    ensures var r := Take(bucket, used, expire, now);
            && (r.reply.Some? ==> now - Used(used, r.reply.value) < expire)
            && (forall c :: c in r.split.doomed ==> now - Used(used, c) >= expire - d)
  {
    var r := Take(bucket, used, expire, now);
    forall c | c in r.split.doomed
      ensures now - Used(used, c) >= expire - d
    {
      var i :| 0 <= i < |bucket| && bucket[i] == c;
    }
  }

  /** Any part of a near-sorted bucket is near-sorted. */
  lemma NearSortedPart(a: seq<Conn>, b: seq<Conn>, used: seq<Time>, d: Time)
    requires NearSorted(a + b, used, d)
    ensures NearSorted(a, used, d) && NearSorted(b, used, d)
  {
    forall i, j | 0 <= i < j < |a|
      ensures Used(used, a[i]) <= Used(used, a[j]) + d
    {
      assert (a + b)[i] == a[i] && (a + b)[j] == a[j];
    }
    forall i, j | 0 <= i < j < |b|
      ensures Used(used, b[i]) <= Used(used, b[j]) + d
    {
      assert (a + b)[|a| + i] == b[i] && (a + b)[|a| + j] == b[j];
    }
  }

  /** Receiving a connection keeps slack d exactly when no pooled stamp exceeds its own by more
      than d. For d = 0 this is the only way the claim that buckets are sorted survives a yield. */
  lemma YieldKeepsNearSorted(bucket: seq<Conn>, used: seq<Time>, c: Conn, d: Time)
    ensures NearSorted(bucket + [c], used, d)
            <==> NearSorted(bucket, used, d) && forall b :: b in bucket ==> Used(used, b) <= Used(used, c) + d
  {
    var grown := bucket + [c];
    if NearSorted(grown, used, d) {
      NearSortedPart(bucket, [c], used, d);
      forall b | b in bucket
        ensures Used(used, b) <= Used(used, c) + d
      {
        var i :| 0 <= i < |bucket| && bucket[i] == b;
        assert grown[i] == b && grown[|bucket|] == c;
      }
    }
    if NearSorted(bucket, used, d) && forall b :: b in bucket ==> Used(used, b) <= Used(used, c) + d {
      forall i, j | 0 <= i < j < |grown|
        ensures Used(used, grown[i]) <= Used(used, grown[j]) + d
      {
        assert grown[i] == bucket[i];
        assert j < |bucket| ==> grown[j] == bucket[j];
      }
    }
  }

  // ---------------------------------------------------------------- conservation

  lemma Cancel(a: multiset<Conn>, x: multiset<Conn>, y: multiset<Conn>, b: multiset<Conn>)
    requires a + (x + y) == b + x
    ensures a + y == b
  {
    assert (a + y) + x == b + x;
    assert forall c :: (a + y)[c] == ((a + y) + x)[c] - x[c] == (b + x)[c] - x[c] == b[c];
  }

  lemma LaunchBag(doomed: seq<Conn>)
    ensures Bag(Launch(doomed)) == multiset(doomed)
  {
    if doomed != [] {
      BagSingle(doomed);
    }
  }

  lemma TakeConserves(buckets: seq<seq<Conn>>, t: nat, kept: seq<Conn>, doomed: seq<Conn>, lent: seq<Conn>)
    requires t < |buckets| && buckets[t] == kept + doomed + lent
    ensures Bag(buckets) == Bag(buckets[t := kept]) + multiset(doomed) + multiset(lent)
  {
    BagUpdate(buckets, t, kept);
    Cancel(Bag(buckets[t := kept]), multiset(kept), multiset(doomed) + multiset(lent), Bag(buckets));
  }

  /** A dial loses no connection: what was pooled is pooled still, lent, or handed to a closer. */
  lemma DialConserves(buckets: Buckets, network: string, used: seq<Time>, expire: Time, now: Time)
    ensures var h := HandleDial(buckets, network, used, expire, now);
            Bag(buckets) == Bag(h.buckets) + Bag(h.closers) + multiset(Lent(h.reply))
  {
    var t := StringToTransportType(network);
    var taken := Take(buckets[t], used, expire, now);
    TakeConserves(buckets, t, taken.split.kept, taken.split.doomed, Lent(taken.reply));
    LaunchBag(taken.split.doomed);
  }

  lemma YieldConserves(buckets: Buckets, tls: bool, kind: ConnKind, c: Conn)
    requires HandleYield(buckets, tls, kind, c).Some?
    ensures Bag(HandleYield(buckets, tls, kind, c).value) == Bag(buckets) + multiset{c}
  {
    var t := TransportTypeFromConn(tls, kind).value;
    BagUpdate(buckets, t, buckets[t] + [c]);
    assert multiset(buckets[t] + [c]) == multiset(buckets[t]) + multiset{c};
    Cancel(Bag(buckets), multiset(buckets[t]), multiset{c}, Bag(buckets[t := buckets[t] + [c]]));
  }

  lemma {:induction false} SweepConservesUpTo(buckets: Buckets, n: nat, all: bool, used: seq<Time>, expire: Time, now: Time)
    requires n <= TYPE_TOTAL_COUNT
    ensures Bag(buckets) == Bag(Kept(buckets, n, all, used, expire, now)) + Bag(Launched(buckets, n, all, used, expire, now))
  {
    if n == 0 {
      assert Kept(buckets, 0, all, used, expire, now) == buckets;
      assert Launched(buckets, 0, all, used, expire, now) == [];
    } else {
      SweepConservesUpTo(buckets, n - 1, all, used, expire, now);
      var s := Sweep(buckets[n - 1], all, used, expire, now);
      OneMoreSplit(buckets, Kept(buckets, n - 1, all, used, expire, now),
                   Launched(buckets, n - 1, all, used, expire, now), n - 1, s);
      KeptStep(buckets, n, all, used, expire, now);
    }
  }

  lemma KeptStep(buckets: Buckets, n: nat, all: bool, used: seq<Time>, expire: Time, now: Time)
    requires 0 < n <= TYPE_TOTAL_COUNT
    ensures Kept(buckets, n, all, used, expire, now)
         == Kept(buckets, n - 1, all, used, expire, now)[n - 1 := Sweep(buckets[n - 1], all, used, expire, now).kept]
  {
    Replaced(Kept(buckets, n - 1, all, used, expire, now), n - 1, Kept(buckets, n, all, used, expire, now));
  }

  lemma Replaced(a: seq<seq<Conn>>, n: nat, b: seq<seq<Conn>>)
    requires n < |a| == |b| && forall t :: 0 <= t < |a| && t != n ==> b[t] == a[t]
    ensures b == a[n := b[n]]
  {
  }

  lemma OneMoreSplit(buckets: seq<seq<Conn>>, kept: seq<seq<Conn>>, gone: seq<seq<Conn>>, t: nat, s: Split)
    requires Bag(buckets) == Bag(kept) + Bag(gone)
    requires t < |kept| && kept[t] == s.doomed + s.kept
    ensures Bag(buckets) == Bag(kept[t := s.kept]) + Bag(gone + Launch(s.doomed))
  {
    SplitConserves(kept, t, s);
    BagConcat(gone, Launch(s.doomed));
    LaunchBag(s.doomed);
  }

  lemma SplitConserves(buckets: seq<seq<Conn>>, t: nat, s: Split)
    requires t < |buckets| && buckets[t] == s.doomed + s.kept
    ensures Bag(buckets) == Bag(buckets[t := s.kept]) + multiset(s.doomed)
  {
    BagUpdate(buckets, t, s.kept);
    Cancel(Bag(buckets[t := s.kept]), multiset(s.kept), multiset(s.doomed), Bag(buckets));
  }

  /** A clean-up loses no connection either. */
  lemma SweepConserves(buckets: Buckets, all: bool, used: seq<Time>, expire: Time, now: Time)
    ensures var h := HandleSweep(buckets, all, used, expire, now);
            Bag(buckets) == Bag(h.buckets) + Bag(h.closers)
  {
    SweepConservesUpTo(buckets, TYPE_TOTAL_COUNT, all, used, expire, now);
  }

  /** Everything handed to a closer by a clean-up was doomed in one of the buckets. */
  lemma {:induction false} LaunchedFrom(buckets: Buckets, n: nat, all: bool, used: seq<Time>, expire: Time, now: Time, k: nat)
    returns (t: nat)
    requires n <= TYPE_TOTAL_COUNT && k < |Launched(buckets, n, all, used, expire, now)|
    ensures t < n && Launched(buckets, n, all, used, expire, now)[k] == Sweep(buckets[t], all, used, expire, now).doomed
  {
    var before := Launched(buckets, n - 1, all, used, expire, now);
    if k < |before| {
      t := LaunchedFrom(buckets, n - 1, all, used, expire, now, k);
    } else {
      t := n - 1;
    }
  }

  lemma {:induction false} LaunchedNotEmpty(buckets: Buckets, n: nat, all: bool, used: seq<Time>, expire: Time, now: Time)
    requires n <= TYPE_TOTAL_COUNT
    ensures forall k :: 0 <= k < |Launched(buckets, n, all, used, expire, now)| ==>
              Launched(buckets, n, all, used, expire, now)[k] != []
  {
    if n > 0 {
      LaunchedNotEmpty(buckets, n - 1, all, used, expire, now);
    }
  }

  /** No closer is started for nothing. */
  lemma ClosersHaveWork(buckets: Buckets, network: string, all: bool, used: seq<Time>, expire: Time, now: Time)
    ensures forall k :: 0 <= k < |HandleDial(buckets, network, used, expire, now).closers| ==>
              HandleDial(buckets, network, used, expire, now).closers[k] != []
    ensures forall k :: 0 <= k < |HandleSweep(buckets, all, used, expire, now).closers| ==>
              HandleSweep(buckets, all, used, expire, now).closers[k] != []
  {
    LaunchedNotEmpty(buckets, TYPE_TOTAL_COUNT, all, used, expire, now);
  }
}
