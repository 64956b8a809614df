/** The connection manager on Go slices: every bucket is a window on a backing array that it may
    share with windows handed to closeConns goroutines, which read them at any later time. */
module ConnManager {
  import opened Options
  import opened Bags
  import opened TransportTypes
  import opened ConnPool

  /** Elements lo..hi of a backing array whose length is the slice's capacity. */
  datatype Slice = Nil | Window(arr: array<Conn>, lo: nat, hi: nat)

  ghost predicate InBounds(s: Slice) {
    s.Window? ==> s.lo <= s.hi <= s.arr.Length
  }

  ghost function Elems(s: Slice): seq<Conn>
    requires InBounds(s)
    reads if s.Window? then {s.arr} else {}
  {
    if s.Window? then s.arr[s.lo..s.hi] else []
  }

  predicate SameArray(a: Slice, b: Slice) {
    a.Window? && b.Window? && a.arr == b.arr
  }

  /** What the select statement can receive, with the clock and the stamps as they are then. */
  datatype Event =
    | DialEvent(network: string, used: seq<Time>, now: Time)
    | YieldEvent(conn: Conn, kind: ConnKind)
    | TickEvent(used: seq<Time>, now: Time)
    | StopEvent(used: seq<Time>, now: Time)

  datatype Outcome = Running | Stopped | Panicked

  /** What a manager has done so far, on values. */
  datatype History = History(buckets: Buckets, closers: seq<seq<Conn>>, replies: seq<Option<Conn>>, outcome: Outcome)

  function Serve(h: History, expire: Time, tls: bool, e: Event): History {
    match e
    case DialEvent(network, used, now) =>
      var r := HandleDial(h.buckets, network, used, expire, now);
      h.(buckets := r.buckets, closers := h.closers + r.closers, replies := h.replies + [r.reply])
    case YieldEvent(c, kind) =>
      var b := HandleYield(h.buckets, tls, kind, c);
      if b.None? then h.(outcome := Panicked) else h.(buckets := b.value)
    case TickEvent(used, now) =>
      var r := HandleSweep(h.buckets, false, used, expire, now);
      h.(buckets := r.buckets, closers := h.closers + r.closers)
    case StopEvent(used, now) =>
      var r := HandleSweep(h.buckets, true, used, expire, now);
      h.(buckets := r.buckets, closers := h.closers + r.closers, outcome := Stopped)
  }

  /** The events are served in order until the manager stops or panics. */
  function ServeAll(h: History, expire: Time, tls: bool, events: seq<Event>): History
    decreases |events|
  {
    if events == [] || !h.outcome.Running? then h
    else ServeAll(Serve(h, expire, tls, events[0]), expire, tls, events[1..])
  }

  /** Serving the next of the events; earlier answers are only added to. */
  lemma ServeNext(h: History, expire: Time, tls: bool, events: seq<Event>, i: nat)
    requires i < |events| && h.outcome.Running?
    ensures var r := Serve(h.(replies := []), expire, tls, events[i]);
            ServeAll(h, expire, tls, events[i..])
            == ServeAll(r.(replies := h.replies + r.replies), expire, tls, events[i + 1..])
  {
    assert events[i..][0] == events[i] && events[i..][1..] == events[i + 1..];
    var r := Serve(h.(replies := []), expire, tls, events[i]);
    assert Serve(h, expire, tls, events[i]) == r.(replies := h.replies + r.replies) by {
      if !events[i].DialEvent? {
        assert h.replies + [] == h.replies;
      }
    }
  }

  // ---------------------------------------------------------------- nothing is lost

  /** The connections yielded to the manager while it served. */
  function Yielded(h: History, expire: Time, tls: bool, events: seq<Event>): seq<Conn>
    decreases |events|
  {
    if events == [] || !h.outcome.Running? then []
    else YieldedBy(events[0]) + Yielded(Serve(h, expire, tls, events[0]), expire, tls, events[1..])
  }

  function YieldedBy(e: Event): seq<Conn> {
    if e.YieldEvent? then [e.conn] else []
  }

  /** The dials it answered. */
  function Answered(h: History, expire: Time, tls: bool, events: seq<Event>): nat
    decreases |events|
  {
    if events == [] || !h.outcome.Running? then 0
    else (if events[0].DialEvent? then 1 else 0) + Answered(Serve(h, expire, tls, events[0]), expire, tls, events[1..])
  }

  /** The connections in its answers. */
  function LentOut(replies: seq<Option<Conn>>): seq<Conn> {
    if replies == [] then [] else LentOut(replies[..|replies| - 1]) + Lent(replies[|replies| - 1])
  }

  /** Pooled, handed to a closer, or lent. */
  ghost function Accounted(h: History): multiset<Conn> {
    Bag(h.buckets) + Bag(h.closers) + multiset(LentOut(h.replies))
  }

  lemma LentOutSnoc(replies: seq<Option<Conn>>, reply: Option<Conn>)
    ensures LentOut(replies + [reply]) == LentOut(replies) + Lent(reply)
  {
    assert (replies + [reply])[..|replies|] == replies;
  }

  lemma ServeAccounts(h: History, expire: Time, tls: bool, e: Event)
    requires !Serve(h, expire, tls, e).outcome.Panicked?
    ensures Accounted(Serve(h, expire, tls, e)) == Accounted(h) + multiset(YieldedBy(e))
  {
    match e {
      case DialEvent(network, used, now) => DialAccounts(h, expire, tls, e);
      case YieldEvent(c, kind) => YieldAccounts(h, expire, tls, e);
      case TickEvent(used, now) =>
        SweepConserves(h.buckets, false, used, expire, now);
        BagConcat(h.closers, HandleSweep(h.buckets, false, used, expire, now).closers);
      case StopEvent(used, now) =>
        SweepConserves(h.buckets, true, used, expire, now);
        BagConcat(h.closers, HandleSweep(h.buckets, true, used, expire, now).closers);
    }
  }

  lemma DialAccounts(h: History, expire: Time, tls: bool, e: Event)
    requires e.DialEvent?
    ensures Accounted(Serve(h, expire, tls, e)) == Accounted(h)
  {
    var r := HandleDial(h.buckets, e.network, e.used, expire, e.now);
    DialConserves(h.buckets, e.network, e.used, expire, e.now);
    BagConcat(h.closers, r.closers);
    LentOutSnoc(h.replies, r.reply);
    var b, c, l := Bag(r.buckets), Bag(r.closers), multiset(Lent(r.reply));
    assert multiset(LentOut(h.replies) + Lent(r.reply)) == multiset(LentOut(h.replies)) + l;
    var handed, lent := Bag(h.closers), multiset(LentOut(h.replies));
    assert b + (handed + c) + (lent + l) == (b + c + l) + handed + lent;
  }

  lemma YieldAccounts(h: History, expire: Time, tls: bool, e: Event)
    requires e.YieldEvent? && HandleYield(h.buckets, tls, e.kind, e.conn).Some?
    ensures Accounted(Serve(h, expire, tls, e)) == Accounted(h) + multiset([e.conn])
  {
    YieldConserves(h.buckets, tls, e.kind, e.conn);
    assert multiset([e.conn]) == multiset{e.conn};
  }

  lemma AddUp(whole: multiset<Conn>, part: multiset<Conn>, base: multiset<Conn>, a: seq<Conn>, b: seq<Conn>)
    requires whole == part + multiset(b) && part == base + multiset(a)
    ensures whole == base + multiset(a + b)
  {
    assert multiset(a + b) == multiset(a) + multiset(b);
  }

  lemma {:induction false} AllAccounted(h: History, expire: Time, tls: bool, events: seq<Event>)
    requires !ServeAll(h, expire, tls, events).outcome.Panicked?
    ensures Accounted(ServeAll(h, expire, tls, events)) == Accounted(h) + multiset(Yielded(h, expire, tls, events))
    decreases |events|
  {
    if events != [] && h.outcome.Running? {
      var h', end := Serve(h, expire, tls, events[0]), ServeAll(h, expire, tls, events);
      assert end == ServeAll(h', expire, tls, events[1..]);
      AllAccounted(h', expire, tls, events[1..]);
      ServeAccounts(h, expire, tls, events[0]);
      AddUp(Accounted(end), Accounted(h'), Accounted(h), YieldedBy(events[0]), Yielded(h', expire, tls, events[1..]));
    }
  }

  lemma {:induction false} AllAnswered(h: History, expire: Time, tls: bool, events: seq<Event>)
    ensures |ServeAll(h, expire, tls, events).replies| == |h.replies| + Answered(h, expire, tls, events)
    decreases |events|
  {
    if events != [] && h.outcome.Running? {
      AllAnswered(Serve(h, expire, tls, events[0]), expire, tls, events[1..]);
    }
  }

  const Empty := History([[], [], []], [], [], Running)

  /** Whatever the events of a manager that was empty, if it does not panic: what has been yielded to
      it is, each connection as often as it was yielded, pooled still, handed to a closer, or in one
      of its answers; and it has answered every dial once. */
  lemma NothingLost(expire: Time, tls: bool, events: seq<Event>)
    requires !ServeAll(Empty, expire, tls, events).outcome.Panicked?
    ensures var h := ServeAll(Empty, expire, tls, events);
            && multiset(Yielded(Empty, expire, tls, events)) == Bag(h.buckets) + Bag(h.closers) + multiset(LentOut(h.replies))
            && |h.replies| == Answered(Empty, expire, tls, events)
  {
    AllAccounted(Empty, expire, tls, events);
    AllAnswered(Empty, expire, tls, events);
    BagEmpty(Empty.buckets);
  }

  /** Whatever comes before it, a stop is the last event that is served, and it leaves nothing pooled
      unless the manager has panicked before. */
  lemma {:induction false} StopIsLast(h: History, expire: Time, tls: bool, before: seq<Event>, stop: Event, after: seq<Event>)
    requires stop.StopEvent?
    ensures ServeAll(h, expire, tls, before + ([stop] + after)) == ServeAll(h, expire, tls, before + [stop])
    ensures h.outcome.Running? ==>
              var end := ServeAll(h, expire, tls, before + [stop]);
              end.outcome.Panicked? || (end.outcome.Stopped? && end.buckets == [[], [], []]) || HasStop(before)
    decreases |before|
  {
    if before == [] {
      assert before + ([stop] + after) == [stop] + after && before + [stop] == [stop];
      assert ([stop] + after)[1..] == after && [stop][1..] == [];
      SweepAllEmpties(h.buckets, stop.used, expire, stop.now);
    } else if h.outcome.Running? {
      var rest := before[1..];
      assert (before + ([stop] + after))[1..] == rest + ([stop] + after) && (before + [stop])[1..] == rest + [stop];
      assert HasStop(rest) ==> HasStop(before);
      StopIsLast(Serve(h, expire, tls, before[0]), expire, tls, rest, stop, after);
    }
  }

  predicate HasStop(events: seq<Event>) {
    exists i :: 0 <= i < |events| && events[i].StopEvent?
  }

  lemma SweepAllEmpties(buckets: Buckets, used: seq<Time>, expire: Time, now: Time)
    ensures HandleSweep(buckets, true, used, expire, now).buckets == [[], [], []]
  {
    assert forall t :: 0 <= t < TYPE_TOTAL_COUNT ==> Sweep(buckets[t], true, used, expire, now).kept == [];
  }

  lemma LaunchedNext(before: seq<seq<Conn>>, was: Buckets, t: TransportType, all: bool, used: seq<Time>, expire: Time, now: Time)
    ensures before + Launched(was, t + 1, all, used, expire, now)
         == before + Launched(was, t, all, used, expire, now) + Launch(Sweep(was[t], all, used, expire, now).doomed)
  {
    var gone, more := Launched(was, t, all, used, expire, now), Launch(Sweep(was[t], all, used, expire, now).doomed);
    assert before + (gone + more) == (before + gone) + more;
  }

  // ---------------------------------------------------------------- windows

  /** Buckets share no array, and on any array the windows handed out lie below the bucket and below
      each other, oldest lowest. */
  ghost predicate Apart(buckets: seq<Slice>, handed: seq<Slice>, arrays: set<array<Conn>>) {
    && |buckets| == TYPE_TOTAL_COUNT
    && (forall t :: 0 <= t < |buckets| ==> Known(buckets[t], arrays))
    && (forall t, u :: 0 <= t < u < |buckets| ==> !SameArray(buckets[t], buckets[u]))
    && (forall k :: 0 <= k < |handed| ==> handed[k].Window? && Known(handed[k], arrays))
    && (forall k, t :: 0 <= k < |handed| && 0 <= t < |buckets| ==> Below(handed[k], buckets[t]))
    && (forall k, l :: 0 <= k < l < |handed| ==> Below(handed[k], handed[l]))
  }

  ghost predicate Known(s: Slice, arrays: set<array<Conn>>) {
    InBounds(s) && (s.Window? ==> s.arr in arrays)
  }

  predicate Below(a: Slice, b: Slice) {
    SameArray(a, b) ==> a.hi <= b.lo
  }

  /** A bucket may be replaced by nil, by a window on the same array that starts no lower, or by one on
      a new array. */
  lemma ApartReplace(buckets: seq<Slice>, handed: seq<Slice>, arrays: set<array<Conn>>, t: nat, s: Slice,
                     arrays': set<array<Conn>>)
    requires Apart(buckets, handed, arrays) && t < |buckets| && arrays <= arrays' && Known(s, arrays')
    requires s.Window? ==> (SameArray(s, buckets[t]) && buckets[t].lo <= s.lo) || s.arr !in arrays
    ensures Apart(buckets[t := s], handed, arrays')
  {
    var after := buckets[t := s];
    forall u, v | 0 <= u < v < |after|
      ensures !SameArray(after[u], after[v])
    {
      assert !SameArray(buckets[u], buckets[v]);
      assert Known(buckets[u], arrays) && Known(buckets[v], arrays);
    }
    forall k, u | 0 <= k < |handed| && 0 <= u < |after|
      ensures Below(handed[k], after[u])
    {
      assert Below(handed[k], buckets[u]) && Known(handed[k], arrays);
    }
  }

  /** A window of a bucket that ends where the bucket's next window starts may be handed out. */
  lemma ApartHand(buckets: seq<Slice>, handed: seq<Slice>, arrays: set<array<Conn>>, t: nat, w: Slice, s: Slice)
    requires Apart(buckets, handed, arrays) && t < |buckets|
    requires w.Window? && InBounds(w) && SameArray(w, buckets[t]) && w.lo == buckets[t].lo
    requires s.Nil? || (SameArray(s, w) && InBounds(s) && s.lo == w.hi)
    ensures Apart(buckets[t := s], handed + [w], arrays)
  {
    var after, more := buckets[t := s], handed + [w];
    ApartReplace(buckets, handed, arrays, t, s, arrays);
    forall k, u | 0 <= k < |more| && 0 <= u < |after|
      ensures Below(more[k], after[u])
    {
      if k < |handed| {
        assert Below(handed[k], after[u]);
      } else if u != t {
        assert !SameArray(buckets[if u < t then u else t], buckets[if u < t then t else u]);
      }
    }
    forall k, l | 0 <= k < l < |more|
      ensures Below(more[k], more[l])
    {
      if l < |handed| {
        assert Below(handed[k], handed[l]);
      } else {
        assert Below(handed[k], buckets[t]);
      }
    }
  }

  class Transport {
    const expire: Time
    const tls: bool
    const conns: array<Slice>
    /** The windows given to closeConns, oldest first. */
    ghost var handed: seq<Slice>
    /** Every backing array in use. */
    ghost var arrays: set<array<Conn>>
    /** The contents of the buckets. */
    ghost var pooled: Buckets
    /** What each window held when it was given to closeConns. */
    ghost var given: seq<seq<Conn>>

    /** The windows are apart, the buckets hold what is pooled, and every window handed out still
        holds what it held when it was handed out. */
    ghost predicate Valid()
      reads this, conns, arrays
    {
      && Apart(conns[..], handed, arrays)
      && (forall t :: 0 <= t < TYPE_TOTAL_COUNT ==> pooled[t] == Elems(conns[t]))
      && |given| == |handed|
      && (forall k :: 0 <= k < |handed| ==> given[k] == Elems(handed[k]))
    }

    constructor (expire: Time, tls: bool)
      ensures Valid() && fresh(conns) && arrays == {}
      ensures this.expire == expire && this.tls == tls
      ensures pooled == [[], [], []] && given == []
    {
      this.expire, this.tls := expire, tls;
      conns := new Slice[TYPE_TOTAL_COUNT](_ => Nil);
      handed, arrays, pooled, given := [], {}, [[], [], []], [];
    }

    // -------------------------------------------------------------- reslicing

    /** stack[:len(stack)-1] */
    method Pop(t: TransportType) returns (top: Conn)
      requires Valid() && pooled[t] != []
      modifies this`pooled, conns
      ensures Valid()
      ensures old(pooled)[t] == pooled[t] + [top] && pooled == old(pooled)[t := pooled[t]]
    {
      var stack := conns[t];
      var shorter := Window(stack.arr, stack.lo, stack.hi - 1);
      ApartReplace(conns[..], handed, arrays, t, shorter, arrays);
      top := stack.arr[stack.hi - 1];
      assert Elems(stack) == Elems(shorter) + [top];
      pooled := pooled[t := Elems(shorter)];
      conns[t] := shorter;
      assert conns[..] == old(conns[..])[t := shorter];
    }

    /** The bucket becomes nil and the whole window goes to a closer. */
    method HandAll(t: TransportType)
      requires Valid() && pooled[t] != []
      modifies this`pooled, this`handed, this`given, conns
      ensures Valid()
      ensures pooled == old(pooled)[t := []] && given == old(given) + [old(pooled)[t]]
    {
      ApartHand(conns[..], handed, arrays, t, conns[t], Nil);
      handed, given, pooled := handed + [conns[t]], given + [pooled[t]], pooled[t := []];
      conns[t] := Nil;
      assert conns[..] == old(conns[..])[t := Nil];
    }

    /** stack[n:] stays and stack[:n] goes to a closer. */
    method HandFirst(t: TransportType, n: nat)
      requires Valid() && 0 < n <= |pooled[t]|
      modifies this`pooled, this`handed, this`given, conns
      ensures Valid()
      ensures pooled == old(pooled)[t := old(pooled)[t][n..]]
      ensures given == old(given) + [old(pooled)[t][..n]]
    {
      var stack := conns[t];
      var doomed := Window(stack.arr, stack.lo, stack.lo + n);
      var kept := Window(stack.arr, stack.lo + n, stack.hi);
      ApartHand(conns[..], handed, arrays, t, doomed, kept);
      assert Elems(doomed) == pooled[t][..n] && Elems(kept) == pooled[t][n..];
      handed, given, pooled := handed + [doomed], given + [pooled[t][..n]], pooled[t := pooled[t][n..]];
      conns[t] := kept;
      assert conns[..] == old(conns[..])[t := kept];
    }

    /** append while there is room in the backing array. */
    method AppendInPlace(t: TransportType, c: Conn)
      requires Valid() && conns[t].Window? && conns[t].hi < conns[t].arr.Length
      modifies this`pooled, conns, conns[t].arr
      ensures Valid()
      ensures pooled == old(pooled)[t := old(pooled)[t] + [c]]
    {
      var stack := conns[t];
      var longer := Window(stack.arr, stack.lo, stack.hi + 1);
      ApartReplace(conns[..], handed, arrays, t, longer, arrays);
      stack.arr[stack.hi] := c;
      conns[t] := longer;
      pooled := pooled[t := pooled[t] + [c]];
      assert conns[..] == old(conns[..])[t := longer];
      forall u | 0 <= u < TYPE_TOTAL_COUNT
        ensures pooled[u] == Elems(conns[u])
      {
        assert u < t ==> !SameArray(old(conns[..])[u], stack);
        assert t < u ==> !SameArray(stack, old(conns[..])[u]);
      }
      forall k | 0 <= k < |handed|
        ensures given[k] == Elems(handed[k])
      {
        assert Below(handed[k], old(conns[..])[t]);
      }
    }

    /** The elements of a bucket in a new array with room for one more and any number of others. */
    method CopyLarger(t: TransportType, room: nat) returns (n: nat, larger: array<Conn>)
      requires Valid()
      ensures fresh(larger) && n == |pooled[t]| && larger.Length == n + 1 + room && larger[..n] == pooled[t]
    {
      var stack := conns[t];
      n := if stack.Window? then stack.hi - stack.lo else 0;
      larger := new Conn[n + 1 + room](_ => 0);
      for i := 0 to n
        invariant larger[..i] == pooled[t][..i]
      {
        larger[i] := stack.arr[stack.lo + i];
      }
    }

    /** append when the backing array is full; room is what the growth rule of append adds. */
    method AppendCopy(t: TransportType, c: Conn, room: nat)
      requires Valid()
      modifies this`arrays, this`pooled, conns
      ensures Valid() && fresh(arrays - old(arrays))
      ensures pooled == old(pooled)[t := old(pooled)[t] + [c]]
    {
      var n, larger := CopyLarger(t, room);
      larger[n] := c;
      var moved := Window(larger, 0, n + 1);
      ApartReplace(conns[..], handed, arrays, t, moved, arrays + {larger});
      arrays := arrays + {larger};
      conns[t] := moved;
      pooled := pooled[t := pooled[t] + [c]];
      assert conns[..] == old(conns[..])[t := moved];
      assert Elems(moved) == pooled[t];
    }

    // -------------------------------------------------------------- the events

    method ServeDial(network: string, used: seq<Time>, now: Time) returns (reply: Option<Conn>)
      requires Valid()
      modifies this`pooled, this`handed, this`given, conns
      ensures Valid()
      ensures var h := HandleDial(old(pooled), network, used, expire, now);
              pooled == h.buckets && given == old(given) + h.closers && reply == h.reply
    {
      var t := StringToTransportType(network);
      reply := TakeFrom(t, used, now);
    }

    /** The bucket of the request is asked. */
    method TakeFrom(t: TransportType, used: seq<Time>, now: Time) returns (reply: Option<Conn>)
      requires Valid()
      modifies this`pooled, this`handed, this`given, conns
      ensures Valid()
      ensures var r := Take(old(pooled)[t], used, expire, now);
              pooled == old(pooled)[t := r.split.kept] && given == old(given) + Launch(r.split.doomed) && reply == r.reply
    {
      var stack := conns[t];
      if stack.Window? && stack.lo < stack.hi {
        var top := stack.arr[stack.hi - 1];
        if now - Used(used, top) < expire {
          top := Pop(t);
          return Some(top);
        }
        HandAll(t);
      }
      return None;
    }

    method ServeYield(c: Conn, kind: ConnKind, room: nat) returns (ok: bool)
      requires Valid()
      modifies this`arrays, this`pooled, conns, arrays
      ensures Valid() && fresh(arrays - old(arrays))
      ensures var b := HandleYield(old(pooled), tls, kind, c);
              ok == b.Some? && pooled == if ok then b.value else old(pooled)
    {
      var bucket := TransportTypeFromConn(tls, kind);
      if bucket.None? {
        return false;
      }
      var t := bucket.value;
      if conns[t].Window? && conns[t].hi < conns[t].arr.Length {
        AppendInPlace(t, c);
      } else {
        AppendCopy(t, c, room);
      }
      return true;
    }

    /** stack[cut:] stays, or nil does, and stack[:cut] goes to a closer unless it is empty. */
    method Reslice(t: TransportType, all: bool, cut: nat)
      requires Valid() && cut <= |pooled[t]| && (all ==> cut == |pooled[t]|)
      modifies this`pooled, this`handed, this`given, conns
      ensures Valid()
      ensures pooled == old(pooled)[t := old(pooled)[t][cut..]]
      ensures given == old(given) + Launch(old(pooled)[t][..cut])
    {
      if cut > 0 {
        ghost var was := pooled[t];
        assert all ==> was[cut..] == [] && was[..cut] == was;
        if all {
          HandAll(t);
        } else {
          HandFirst(t, cut);
        }
      }
    }

    /** One round of the loop in cleanup. */
    method CleanupBucket(t: TransportType, all: bool, used: seq<Time>, now: Time)
      requires Valid()
      modifies this`pooled, this`handed, this`given, conns
      ensures Valid()
      ensures var s := Sweep(old(pooled)[t], all, used, expire, now);
              pooled == old(pooled)[t := s.kept] && given == old(given) + Launch(s.doomed)
    {
      if conns[t].Nil? || conns[t].lo == conns[t].hi {
        assert pooled[t] == [] && pooled[t := []] == pooled;
      } else {
        var cut := CutPoint(conns[t].arr[conns[t].lo..conns[t].hi], all, used, expire, now);
        Reslice(t, all, cut);
      }
    }

    method CleanupNext(t: TransportType, all: bool, used: seq<Time>, now: Time, ghost was: Buckets, ghost before: seq<seq<Conn>>)
      requires Valid()
      requires pooled == Kept(was, t, all, used, expire, now)
      requires given == before + Launched(was, t, all, used, expire, now)
      modifies this`pooled, this`handed, this`given, conns
      ensures Valid()
      ensures pooled == Kept(was, t + 1, all, used, expire, now)
      ensures given == before + Launched(was, t + 1, all, used, expire, now)
    {
      assert pooled[t] == was[t];
      KeptStep(was, t + 1, all, used, expire, now);
      LaunchedNext(before, was, t, all, used, expire, now);
      CleanupBucket(t, all, used, now);
    }

    method Cleanup(all: bool, used: seq<Time>, now: Time)
      requires Valid()
      modifies this`pooled, this`handed, this`given, conns
      ensures Valid()
      ensures var h := HandleSweep(old(pooled), all, used, expire, now);
              pooled == h.buckets && given == old(given) + h.closers
    {
      ghost var was, before := pooled, given;
      assert Kept(was, 0, all, used, expire, now) == was;
      for t := 0 to TYPE_TOTAL_COUNT
        invariant Valid()
        invariant pooled == Kept(was, t, all, used, expire, now)
        invariant given == before + Launched(was, t, all, used, expire, now)
      {
        CleanupNext(t, all, used, now, was, before);
      }
    }

    method ServeEvent(e: Event, room: nat) returns (reply: seq<Option<Conn>>, outcome: Outcome)
      requires Valid()
      modifies this`pooled, this`handed, this`given, this`arrays, conns, arrays
      ensures Valid() && fresh(arrays - old(arrays))
      ensures History(pooled, given, reply, outcome) == Serve(History(old(pooled), old(given), [], Running), expire, tls, e)
    {
      reply, outcome := [], Running;
      match e {
        case DialEvent(network, used, now) =>
          var r := ServeDial(network, used, now);
          reply := [r];
        case YieldEvent(c, kind) =>
          var ok := ServeYield(c, kind, room);
          outcome := if ok then Running else Panicked;
        case TickEvent(used, now) =>
          Cleanup(false, used, now);
        case StopEvent(used, now) =>
          Cleanup(true, used, now);
          outcome := Stopped;
      }
    }

    /** The select loop. Whatever the events, the buckets, the answers and the windows handed to
        closers are those of the value model; and every window handed out, at any time, still holds
        exactly what it held then. rooms is how append grows, which may be different each time. */
    method ConnManager(events: seq<Event>, rooms: nat -> nat) returns (replies: seq<Option<Conn>>, outcome: Outcome)
      requires Valid()
      modifies this`pooled, this`handed, this`given, this`arrays, conns, arrays
      ensures Valid() && fresh(arrays - old(arrays))
      ensures History(pooled, given, replies, outcome)
           == ServeAll(History(old(pooled), old(given), [], Running), expire, tls, events)
    {
      replies, outcome := [], Running;
      var i := 0;
      while i < |events| && outcome.Running?
        invariant 0 <= i <= |events|
        invariant Valid() && fresh(arrays - old(arrays))
        invariant ServeAll(History(pooled, given, replies, outcome), expire, tls, events[i..])
               == ServeAll(History(old(pooled), old(given), [], Running), expire, tls, events)
      {
        ServeNext(History(pooled, given, replies, outcome), expire, tls, events, i);
        var reply;
        reply, outcome := ServeEvent(events[i], rooms(i));
        replies := replies + reply;
        i := i + 1;
      }
    }
  }
}
