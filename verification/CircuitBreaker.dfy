/**
 The circuit breaker (`pkg/goquota/circuit_breaker.go`) under concurrent callers.  `Execute` is three
 atomic steps: look at the state, run the function, report success or failure.
 */
module CircuitBreaker {

  datatype BreakerState = Closed | Open | HalfOpen

  datatype Breaker = Breaker(state: BreakerState, failures: nat, lastFailure: int, threshold: int, resetTimeout: int)

  function CurrentState(b: Breaker, now: int): BreakerState {
    if b.state == Open && now - b.lastFailure >= b.resetTimeout then HalfOpen else b.state
  }

  /** A new breaker state, and the callback it makes, if any. */
  function ChangeState(b: Breaker, s: BreakerState): (Breaker, seq<BreakerState>) {
    if b.state != s then (b.(state := s), [s]) else (b, [])
  }

  function Success(b: Breaker): (Breaker, seq<BreakerState>) {
    var (c, calls) := if b.state == HalfOpen || b.state == Open then ChangeState(b, Closed) else (b, []);
    (c.(failures := 0), calls)
  }

  function Failure(b: Breaker, now: int): (Breaker, seq<BreakerState>) {
    var c := b.(failures := b.failures + 1, lastFailure := now);
    if c.state == Closed && c.failures >= c.threshold then ChangeState(c, Open)
    else if c.state == HalfOpen then ChangeState(c, Open)
    else (c, [])
  }

  /** One step of some caller.  A look that finds the breaker open ends the call. */
  datatype Event = Look(now: int) | Succeed | Fail(now: int)

  function Apply(b: Breaker, e: Event): (Breaker, seq<BreakerState>) {
    match e
    case Look(_) => (b, [])
    case Succeed => Success(b)
    case Fail(now) => Failure(b, now)
  }

  function RunAll(b: Breaker, events: seq<Event>): (Breaker, seq<BreakerState>) {
    if events == [] then (b, [])
    else
      var (c, calls) := RunAll(b, events[..|events| - 1]);
      var (d, more) := Apply(c, events[|events| - 1]);
      (d, calls + more)
  }

  /** The failures reported since the last success. */
  function TrailingFailures(events: seq<Event>): nat {
    if events == [] || events[|events| - 1].Succeed? then 0
    else TrailingFailures(events[..|events| - 1]) + if events[|events| - 1].Fail? then 1 else 0
  }

  predicate Alternating(calls: seq<BreakerState>) {
    forall i :: 0 <= i < |calls| ==> calls[i] == if i % 2 == 0 then Open else Closed
  }

  function New(threshold: int, resetTimeout: int): Breaker {
    Breaker(Closed, 0, 0, threshold, resetTimeout)
  }

  /** However the callers interleave: the stored state is closed or open, never half-open; it is open
      exactly when the trailing failures reach the threshold (one failure, if the threshold is lower);
      and the callbacks alternate, starting with open. */
  lemma {:induction false} OpenExactlyWhenFailing(threshold: int, resetTimeout: int, events: seq<Event>)
    ensures var (b, calls) := RunAll(New(threshold, resetTimeout), events);
            && b.failures == TrailingFailures(events)
            && var failures := TrailingFailures(events);
            && b.state == (if failures >= threshold && failures >= 1 then Open else Closed)
            && Alternating(calls) && (b.state == Open <==> |calls| % 2 == 1)
            && b.threshold == threshold && b.resetTimeout == resetTimeout
  {
    if events != [] {
      OpenExactlyWhenFailing(threshold, resetTimeout, events[..|events| - 1]);
    }
  }

  /** A run of one caller after the other: each call looks, and reports at once if it was let through. */
  datatype Call = Call(looked: int, reported: int, ok: bool)

  predicate Sequential(calls: seq<Call>, since: int)
    decreases |calls|
  {
    calls == [] || (since <= calls[0].looked <= calls[0].reported && Sequential(calls[1..], calls[0].reported))
  }

  /** The times at which the calls' functions run, that is, reach the storage. */
  function Attempts(b: Breaker, calls: seq<Call>): seq<int>
    decreases |calls|
  {
    if calls == [] then []
    else if CurrentState(b, calls[0].looked) == Open then Attempts(b, calls[1..])
    else [calls[0].looked] + Attempts(if calls[0].ok then Success(b).0 else Failure(b, calls[0].reported).0, calls[1..])
  }

  predicate AllFail(calls: seq<Call>) {
    forall i :: 0 <= i < |calls| ==> !calls[i].ok
  }

  /** Once open and failing, sequential callers reach the storage at most once per reset timeout, the
      first time no sooner than that after the last failure. */
  lemma {:induction false} ProbesAreApart(b: Breaker, calls: seq<Call>, since: int)
    requires b.state == Open && b.resetTimeout >= 0 && b.lastFailure <= since && AllFail(calls)
             && Sequential(calls, since)
    ensures var a := Attempts(b, calls);
            && (a != [] ==> a[0] - b.lastFailure >= b.resetTimeout)
            && forall i :: 0 <= i < |a| - 1 ==> a[i + 1] - a[i] >= b.resetTimeout
    decreases |calls|
  {
    if calls != [] {
      var c := calls[0];
      if CurrentState(b, c.looked) == Open {
        ProbesAreApart(b, calls[1..], c.reported);
      } else {
        ProbesAreApart(Failure(b, c.reported).0, calls[1..], c.reported);
      }
    }
  }

  /** What sequential callers should see: with `failures` in a row, the last reported at `last`, a call is turned
      away exactly when there are enough of them and less than the reset timeout has passed. */
  function ExpectedAttempts(failures: nat, last: int, threshold: int, resetTimeout: int, calls: seq<Call>): seq<int>
    decreases |calls|
  {
    if calls == [] then []
    else if failures >= 1 && failures >= threshold && calls[0].looked < last + resetTimeout
    then ExpectedAttempts(failures, last, threshold, resetTimeout, calls[1..])
    else if calls[0].ok then [calls[0].looked] + ExpectedAttempts(0, last, threshold, resetTimeout, calls[1..])
    else [calls[0].looked] + ExpectedAttempts(failures + 1, calls[0].reported, threshold, resetTimeout, calls[1..])
  }

  /** Exactly which calls reach the storage, whatever their outcomes: in particular every call does that looks
      at or after the reset timeout, and every call after a success until failures pile up again. */
  lemma {:induction false} AttemptsExact(b: Breaker, calls: seq<Call>)
    requires b.state == if b.failures >= 1 && b.failures >= b.threshold then Open else Closed
    ensures Attempts(b, calls) == ExpectedAttempts(b.failures, b.lastFailure, b.threshold, b.resetTimeout, calls)
    decreases |calls|
  {
    if calls != [] {
      var c := calls[0];
      if CurrentState(b, c.looked) == Open {
        AttemptsExact(b, calls[1..]);
      } else {
        AttemptsExact(if c.ok then Success(b).0 else Failure(b, c.reported).0, calls[1..]);
      }
    }
  }

  datatype Outcome = Rejected | Ran(ok: bool)

  class DefaultCircuitBreaker {
    var state: BreakerState
    var consecutiveFailures: nat
    var lastFailureTime: int
    const failureThreshold: int
    const resetTimeout: int
    /** The callbacks made so far. */
    var stateChanges: seq<BreakerState>

    ghost function Contents(): Breaker
      reads this
    {
      Breaker(state, consecutiveFailures, lastFailureTime, failureThreshold, resetTimeout)
    }

    constructor (failureThreshold: int, resetTimeout: int)
      ensures Contents() == New(failureThreshold, resetTimeout) && stateChanges == []
    {
      state, consecutiveFailures, lastFailureTime, stateChanges := Closed, 0, 0, [];
      this.failureThreshold, this.resetTimeout := failureThreshold, resetTimeout;
    }

    method State(now: int) returns (s: BreakerState)
      ensures s == CurrentState(Contents(), now)
      ensures state == Open ==> s == if now < lastFailureTime + resetTimeout then Open else HalfOpen
    {
      if state == Open && now - lastFailureTime >= resetTimeout {
        return HalfOpen;
      }
      return state;
    }

    /** A call whose steps nobody interrupts; `ok` is what its function returns. */
    method Execute(looked: int, ok: bool, reported: int) returns (r: Outcome)
      modifies this
      ensures r == if old(state) == Open && looked < old(lastFailureTime) + resetTimeout then Rejected else Ran(ok)
      ensures r == Ran(true) ==> state == Closed && consecutiveFailures == 0
      ensures r == Ran(false) ==>
                && consecutiveFailures == old(consecutiveFailures) + 1 && lastFailureTime == reported
                && state == if old(state) != Closed || consecutiveFailures >= failureThreshold then Open else Closed
      ensures Contents() == if r == Rejected then old(Contents())
                            else if ok then Success(old(Contents())).0 else Failure(old(Contents()), reported).0
      ensures stateChanges == old(stateChanges) + if r == Rejected then []
                              else if ok then Success(old(Contents())).1 else Failure(old(Contents()), reported).1
    {
      var s := State(looked);
      if s == Open {
        return Rejected;
      }
      if !ok {
        ReportFailure(reported);
        return Ran(false);
      }
      ReportSuccess();
      return Ran(true);
    }

    method ReportSuccess()
      modifies this
      ensures Contents() == Success(old(Contents())).0
      ensures stateChanges == old(stateChanges) + Success(old(Contents())).1
    {
      if state == HalfOpen || state == Open {
        SetState(Closed);
      }
      consecutiveFailures := 0;
    }

    method ReportFailure(now: int)
      modifies this
      ensures Contents() == Failure(old(Contents()), now).0
      ensures stateChanges == old(stateChanges) + Failure(old(Contents()), now).1
    {
      consecutiveFailures := consecutiveFailures + 1;
      lastFailureTime := now;
      if state == Closed && consecutiveFailures >= failureThreshold {
        SetState(Open);
      } else if state == HalfOpen {
        SetState(Open);
      }
    }

    method SetState(newState: BreakerState)
      modifies this`state, this`stateChanges
      ensures state == newState
      ensures stateChanges == old(stateChanges) + if old(state) != newState then [newState] else []
    {
      if state != newState {
        state := newState;
        stateChanges := stateChanges + [newState];
      }
    }
  }
}
