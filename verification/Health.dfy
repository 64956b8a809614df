/** The failure counter of an upstream host: incremented by failed checks and failed exchanges,
    decremented some time after each failed exchange, reset by a successful check. */
module Health {
  import opened Int32

  datatype Event = CheckPassed | CheckFailed | ExchangeFailed | DecrementDue

  /** The counter with its history: decrements still to come, failed checks and exchanges since the
      last passed check, and the decrements that were to come at that time. */
  datatype Account = Account(fails: int, pending: nat, checks: nat, exchanges: nat, pendingAtPass: nat)

  const Fresh := Account(0, 0, 0, 0, 0)

  predicate Possible(a: Account, e: Event) {
    e.DecrementDue? ==> a.pending > 0
  }

  function Record(a: Account, e: Event): Account
    requires Possible(a, e)
  {
    match e
    case CheckPassed => Account(0, a.pending, 0, 0, a.pending)
    case CheckFailed => a.(fails := Wrap32(a.fails + 1), checks := a.checks + 1)
    case ExchangeFailed => a.(fails := Wrap32(a.fails + 1), pending := a.pending + 1, exchanges := a.exchanges + 1)
    case DecrementDue => a.(fails := Wrap32(a.fails - 1), pending := a.pending - 1)
  }

  predicate Legal(a: Account, events: seq<Event>)
    decreases |events|
  {
    events == [] || (Possible(a, events[0]) && Legal(Record(a, events[0]), events[1..]))
  }

  function After(a: Account, events: seq<Event>): Account
    requires Legal(a, events)
    decreases |events|
  {
    if events == [] then a else After(Record(a, events[0]), events[1..])
  }

  /** checkDownFunc. */
  predicate Down(fails: int, maxFails: int) {
    fails >= maxFails && maxFails > 0
  }

  class UpstreamHost {
    var fails: int
    ghost var account: Account

    ghost predicate Valid()
      reads this
    {
      fails == account.fails
    }

    constructor ()
      ensures Valid() && account == Fresh
    {
      fails, account := 0, Fresh;
    }

    method Check(ok: bool)
      requires Valid()
      modifies this
      ensures Valid() && account == Record(old(account), if ok then CheckPassed else CheckFailed)
    {
      account := Record(account, if ok then CheckPassed else CheckFailed);
      if !ok {
        fails := Wrap32(fails + 1);
      } else {
        fails := 0;
      }
    }

    /** healthCheck up to the sleep; scheduled tells whether the goroutine is started. */
    method ExchangeFailure(checkInterval: int, maxFails: int) returns (scheduled: bool)
      requires Valid()
      modifies this
      ensures Valid() && scheduled == (checkInterval != 0 && maxFails != 0)
      ensures account == if scheduled then Record(old(account), ExchangeFailed) else old(account)
    {
      if checkInterval == 0 || maxFails == 0 {
        return false;
      }
      account := Record(account, ExchangeFailed);
      fails := Wrap32(fails + 1);
      return true;
    }

    /** The goroutine after its sleep. */
    method FailTimeout()
      requires Valid() && account.pending > 0
      modifies this
      ensures Valid() && account == Record(old(account), DecrementDue)
    {
      account := Record(account, DecrementDue);
      fails := Wrap32(fails - 1);
    }
  }

  /** Up to 32-bit wrap-around the counter is the failed checks since the last success plus the
      decrements to come now minus those to come then. */
  ghost predicate Balanced(a: Account) {
    && a.fails == Wrap32(a.checks + a.pending - a.pendingAtPass)
    && a.pending <= a.exchanges + a.pendingAtPass
  }

  lemma BalancedStep(a: Account, e: Event)
    requires Balanced(a) && Possible(a, e)
    ensures Balanced(Record(a, e))
  {
    Wrap32Add(a.checks + a.pending - a.pendingAtPass, 1);
    Wrap32Add(a.checks + a.pending - a.pendingAtPass, -1);
  }

  lemma {:induction false} BalancedRun(a: Account, events: seq<Event>)
    requires Balanced(a) && Legal(a, events)
    ensures Balanced(After(a, events))
    decreases |events|
  {
    if events != [] {
      BalancedStep(a, events[0]);
      BalancedRun(Record(a, events[0]), events[1..]);
    }
  }

  function Increments(events: seq<Event>): nat {
    if events == [] then 0
    else (if events[0].CheckFailed? || events[0].ExchangeFailed? then 1 else 0) + Increments(events[1..])
  }

  lemma {:induction false} CountsBounded(a: Account, events: seq<Event>, n: nat)
    requires Legal(a, events) && a.checks + a.pending <= n && a.pendingAtPass <= n
    ensures var b := After(a, events);
            b.checks + b.pending <= n + Increments(events) && b.pendingAtPass <= n + Increments(events)
    decreases |events|
  {
    if events != [] {
      var m := n + if events[0].CheckFailed? || events[0].ExchangeFailed? then 1 else 0;
      CountsBounded(Record(a, events[0]), events[1..], m);
    }
  }

  /** In every run with fewer than 2^31 increments the counter is exactly that balance, so it is never
      below minus the decrements that were to come at the last success; the host is down exactly
      when the balance reaches maxFails, and then at least maxFails checks and exchanges have failed
      since the last successful check. */
  lemma FailsBalance(events: seq<Event>, maxFails: int)
    requires Legal(Fresh, events) && Increments(events) < HALF
    ensures var a := After(Fresh, events);
            && a.fails == a.checks + a.pending - a.pendingAtPass
            && a.fails + a.pendingAtPass >= 0
            && (Down(a.fails, maxFails) <==> maxFails > 0 && a.checks + a.pending >= maxFails + a.pendingAtPass)
            && (Down(a.fails, maxFails) ==> a.checks + a.exchanges >= maxFails)
  {
    BalancedRun(Fresh, events);
    CountsBounded(Fresh, events, 0);
  }

  // ---------------------------------------------------------------- the account is the history

  function Number(events: seq<Event>, e: Event): nat {
    if events == [] then 0
    else Number(events[..|events| - 1], e) + if events[|events| - 1] == e then 1 else 0
  }

  /** The events after the last passed check. */
  function SincePass(events: seq<Event>): (r: seq<Event>)
    ensures |r| <= |events|
  {
    if events == [] || events[|events| - 1].CheckPassed? then []
    else SincePass(events[..|events| - 1]) + [events[|events| - 1]]
  }

  /** The events up to the last passed check. */
  function UpToPass(events: seq<Event>): seq<Event> {
    events[..|events| - |SincePass(events)|]
  }

  /** The decrements scheduled and not yet due. */
  function Scheduled(events: seq<Event>): int {
    Number(events, ExchangeFailed) - Number(events, DecrementDue)
  }

  lemma {:induction false} AfterSnoc(a: Account, events: seq<Event>, e: Event)
    requires Legal(a, events + [e])
    ensures Legal(a, events) && Possible(After(a, events), e) && After(a, events + [e]) == Record(After(a, events), e)
    decreases |events|
  {
    if events == [] {
      assert (events + [e])[1..] == [];
    } else {
      assert (events + [e])[1..] == events[1..] + [e];
      AfterSnoc(Record(a, events[0]), events[1..], e);
    }
  }

  lemma SplitSnoc(events: seq<Event>, e: Event)
    ensures SincePass(events + [e]) == if e.CheckPassed? then [] else SincePass(events) + [e]
    ensures UpToPass(events + [e]) == if e.CheckPassed? then events + [e] else UpToPass(events)
  {
    var all := events + [e];
    assert all[..|events|] == events;
    assert !e.CheckPassed? ==> all[..|events| - |SincePass(events)|] == UpToPass(events);
  }

  lemma NumberSnoc(events: seq<Event>, e: Event, of: Event)
    ensures Number(events + [e], of) == Number(events, of) + if e == of then 1 else 0
  {
    assert (events + [e])[..|events|] == events;
  }

  /** The counts of the account are those of the events: failed checks and exchanges since the last
      passed check, decrements scheduled now, and decrements scheduled at that check. */
  lemma {:induction false} AccountIsHistory(events: seq<Event>)
    requires Legal(Fresh, events)
    ensures var a := After(Fresh, events);
            && a.checks == Number(SincePass(events), CheckFailed)
            && a.exchanges == Number(SincePass(events), ExchangeFailed)
            && a.pending == Scheduled(events) && a.pendingAtPass == Scheduled(UpToPass(events))
    decreases |events|
  {
    if events != [] {
      var before, e := events[..|events| - 1], events[|events| - 1];
      assert events == before + [e];
      AfterSnoc(Fresh, before, e);
      AccountIsHistory(before);
      SplitSnoc(before, e);
      forall of: Event
        ensures Number(before + [e], of) == Number(before, of) + if e == of then 1 else 0
        ensures Number(SincePass(before) + [e], of) == Number(SincePass(before), of) + if e == of then 1 else 0
      {
        NumberSnoc(before, e, of);
        NumberSnoc(SincePass(before), e, of);
      }
    }
  }

  /** So, in terms of what happened: with fewer than 2^31 increments the counter is the failed checks
      since the last success plus the decrements scheduled now minus those scheduled then. */
  lemma FailsOfHistory(events: seq<Event>)
    requires Legal(Fresh, events) && Increments(events) < HALF
    ensures After(Fresh, events).fails
         == Number(SincePass(events), CheckFailed) + Scheduled(events) - Scheduled(UpToPass(events))
  {
    AccountIsHistory(events);
    FailsBalance(events, 1);
  }

  /** A host is down exactly when max_fails health checks in a row have failed, as the documentation of
      max_fails has it, for every max_fails that checks at all. */
  ghost predicate AsDocumented(a: Account) {
    forall maxFails: int | maxFails > 0 :: Down(a.fails, maxFails) <==> a.checks >= maxFails
  }

  /** That is so exactly when as many decrements are to come as there were at the last passed check, or
      no check has failed since then and no more are to come. */
  lemma DocumentedExactly(events: seq<Event>)
    requires Legal(Fresh, events) && Increments(events) < HALF
    ensures var a := After(Fresh, events);
            AsDocumented(a) <==> a.pending == a.pendingAtPass || (a.checks == 0 && a.pending <= a.pendingAtPass)
  {
    FailsBalance(events, 1);
    var a := After(Fresh, events);
    if a.pending > a.pendingAtPass {
      assert Down(a.fails, a.fails) && a.checks < a.fails;
    } else if a.pending < a.pendingAtPass && a.checks > 0 {
      assert !Down(a.fails, a.checks);
    }
  }

  /** max_fails is documented as a number of consecutive failed health checks. A host can be down
      without a single failed check, because failed exchanges count, and can be up after that many
      failed checks in a row, because decrements outlive a success. */
  lemma NotConsecutiveChecks()
    ensures var some := [ExchangeFailed, ExchangeFailed, ExchangeFailed];
            Legal(Fresh, some) && After(Fresh, some).checks == 0 && Down(After(Fresh, some).fails, 3)
    ensures var more := [ExchangeFailed, CheckPassed, DecrementDue, CheckFailed, CheckFailed, CheckFailed];
            Legal(Fresh, more) && After(Fresh, more).checks == 3 && !Down(After(Fresh, more).fails, 3)
  {
    var one := Record(Fresh, ExchangeFailed);
    var two := Record(one, ExchangeFailed);
    assert After(two, [ExchangeFailed]) == Record(two, ExchangeFailed);
    var a := Record(Record(one, CheckPassed), DecrementDue);
    var b := Record(a, CheckFailed);
    var c := Record(b, CheckFailed);
    assert After(c, [CheckFailed]) == Record(c, CheckFailed);
    assert After(b, [CheckFailed, CheckFailed]) == After(c, [CheckFailed]);
    assert After(a, [CheckFailed, CheckFailed, CheckFailed]) == After(b, [CheckFailed, CheckFailed]);
  }
}
