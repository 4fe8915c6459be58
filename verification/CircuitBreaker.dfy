/**
 * The Redis circuit breaker. `execute` awaits its operation, so a call is two
 * atomic steps, admission and settlement, and other calls run in between.
 * Admission reads the clock up to three times; each read is its own argument.
 */
module CircuitBreaker {
  import opened Common

  datatype CircuitState = CLOSED | OPEN | HALF_OPEN

  datatype Config = Config(failureThreshold: int, resetTimeoutMs: int)

  datatype Breaker = Breaker(state: CircuitState, failures: int, nextAttemptMs: int)

  /** How an awaited operation ends: a value, a cluster redirection, or any other error. */
  datatype Outcome = Success | Redirected | Failed

  const Initial := Breaker(CLOSED, 0, 0)

  function TransitionTo(cfg: Config, b: Breaker, newState: CircuitState, now: int): Breaker {
    match newState
    case CLOSED => Breaker(CLOSED, 0, 0)
    case OPEN => b.(state := OPEN, nextAttemptMs := now + cfg.resetTimeoutMs)
    case HALF_OPEN => b.(state := HALF_OPEN)
  }

  /** Whether a call is admitted, and the breaker after the synchronous part of execute. */
  function AdmitStep(cfg: Config, b: Breaker, t1: int, t2: int, t3: int): (bool, Breaker) {
    if b.state.CLOSED? then (true, b)
    else if b.state.OPEN? && t1 < b.nextAttemptMs then (false, b)
    else
      var probing := b.(state := HALF_OPEN);
      if b.nextAttemptMs > t2 then (false, probing)
      else (true, probing.(nextAttemptMs := t3 + cfg.resetTimeoutMs))
  }

  function SettleStep(cfg: Config, b: Breaker, outcome: Outcome, now: int): Breaker {
    match (outcome, b.state)
    case (Success, HALF_OPEN) => TransitionTo(cfg, b, CLOSED, now)
    case (Success, CLOSED) => b.(failures := 0)
    case (Failed, HALF_OPEN) => TransitionTo(cfg, b, OPEN, now)
    case (Failed, CLOSED) =>
      var counted := b.(failures := b.failures + 1);
      if counted.failures >= cfg.failureThreshold then TransitionTo(cfg, counted, OPEN, now) else counted
    case _ => b
  }

  class RedisCircuitBreaker {
    var state: CircuitState
    var failures: int
    var nextAttemptMs: int
    const failureThreshold: int
    const resetTimeoutMs: int

    function View(): Breaker
      reads this
    {
      Breaker(state, failures, nextAttemptMs)
    }

    function Cfg(): Config { Config(failureThreshold, resetTimeoutMs) }

    constructor (failureThreshold: Option<int>, resetTimeoutMs: Option<int>)
      ensures View() == Initial && state.CLOSED? && failures == 0 && nextAttemptMs == 0
      ensures this.failureThreshold == if failureThreshold.Some? then failureThreshold.value else 5
      ensures this.resetTimeoutMs == if resetTimeoutMs.Some? then resetTimeoutMs.value else 10000
    {
      state, failures, nextAttemptMs := CLOSED, 0, 0;
      this.failureThreshold := if failureThreshold.Some? then failureThreshold.value else 5;
      this.resetTimeoutMs := if resetTimeoutMs.Some? then resetTimeoutMs.value else 10000;
    }

    method Transition(newState: CircuitState, now: int)
      modifies this
      ensures View() == TransitionTo(Cfg(), old(View()), newState, now)
      ensures state == newState && failures == if newState.CLOSED? then 0 else old(failures)
      ensures nextAttemptMs == match newState
                               case CLOSED => 0
                               case OPEN => now + resetTimeoutMs
                               case HALF_OPEN => old(nextAttemptMs)
    {
      state := newState;
      if newState == CLOSED {
        failures := 0;
        nextAttemptMs := 0;
      } else if newState == OPEN {
        nextAttemptMs := now + resetTimeoutMs;
      }
    }

    /** execute up to its await; false stands for the fallback or the breaker's own error. */
    method Admit(t1: int, t2: int, t3: int) returns (admitted: bool)
      modifies this
      ensures (admitted, View()) == AdmitStep(Cfg(), old(View()), t1, t2, t3)
      ensures admitted <==>
              || old(state).CLOSED?
              || (old(state).OPEN? && t1 >= old(nextAttemptMs) && t2 >= old(nextAttemptMs))
              || (old(state).HALF_OPEN? && t2 >= old(nextAttemptMs))
      ensures old(state).CLOSED? ==> View() == old(View())
      ensures !old(state).CLOSED? && admitted ==> state.HALF_OPEN? && nextAttemptMs == t3 + resetTimeoutMs
      ensures !admitted ==> nextAttemptMs == old(nextAttemptMs)
      ensures !admitted ==> state == if old(state).OPEN? && t1 < old(nextAttemptMs) then OPEN else HALF_OPEN
      ensures failures == old(failures)
    {
      if state == OPEN {
        if t1 >= nextAttemptMs {
          Transition(HALF_OPEN, t1);
        } else {
          return false;
        }
      }
      if state == HALF_OPEN {
        if nextAttemptMs > t2 {
          return false;
        }
        nextAttemptMs := t3 + resetTimeoutMs;
      }
      admitted := true;
    }

    /** execute after its await. */
    method Settle(outcome: Outcome, now: int)
      modifies this
      ensures View() == SettleStep(Cfg(), old(View()), outcome, now)
      ensures outcome.Redirected? || old(state).OPEN? ==> View() == old(View())
      ensures outcome.Success? && old(state).HALF_OPEN? ==> state.CLOSED? && failures == 0 && nextAttemptMs == 0
      ensures outcome.Success? && old(state).CLOSED? ==>
                state.CLOSED? && failures == 0 && nextAttemptMs == old(nextAttemptMs)
      ensures outcome.Failed? && old(state).HALF_OPEN? ==>
                state.OPEN? && failures == old(failures) && nextAttemptMs == now + resetTimeoutMs
      ensures outcome.Failed? && old(state).CLOSED? ==> failures == old(failures) + 1
      ensures outcome.Failed? && old(state).CLOSED? && old(failures) + 1 >= failureThreshold ==>
                state.OPEN? && nextAttemptMs == now + resetTimeoutMs
      ensures outcome.Failed? && old(state).CLOSED? && old(failures) + 1 < failureThreshold ==>
                state.CLOSED? && nextAttemptMs == old(nextAttemptMs)
    {
      match outcome
      case Success =>
        if state == HALF_OPEN {
          Transition(CLOSED, now);
        } else if state == CLOSED {
          failures := 0;
        }
      case Redirected =>
      case Failed =>
        RecordFailure(now);
    }

    method RecordFailure(now: int)
      modifies this
      ensures View() == SettleStep(Cfg(), old(View()), Failed, now)
    {
      if state == HALF_OPEN {
        Transition(OPEN, now);
        return;
      }
      if state == CLOSED {
        failures := failures + 1;
        if failures >= failureThreshold {
          Transition(OPEN, now);
        }
      }
    }

    method Reset(now: int)
      modifies this
      ensures View() == Initial
      ensures state.CLOSED? && failures == 0 && nextAttemptMs == 0
    {
      Transition(CLOSED, now);
    }
  }

  // ----- runs -----

  datatype Event =
    | Call(op: nat, t1: int, t2: int, t3: int)
    | Settled(op: nat, outcome: Outcome, now: int)
    | ResetCalled(now: int)

  function EventTime(e: Event): int {
    match e case Call(_, _, _, t3) => t3 case Settled(_, _, now) => now case ResetCalled(now) => now
  }

  function Step(cfg: Config, b: Breaker, e: Event): Breaker {
    match e
    case Call(_, t1, t2, t3) => AdmitStep(cfg, b, t1, t2, t3).1
    case Settled(_, outcome, now) => SettleStep(cfg, b, outcome, now)
    case ResetCalled(now) => TransitionTo(cfg, b, CLOSED, now)
  }

  /** The breaker after the first n events. */
  function At(cfg: Config, trace: seq<Event>, n: nat): Breaker
    requires n <= |trace|
  {
    if n == 0 then Initial else Step(cfg, At(cfg, trace, n - 1), trace[n - 1])
  }

  predicate Admitted(cfg: Config, trace: seq<Event>, i: nat)
    requires i < |trace|
  {
    trace[i].Call? && AdmitStep(cfg, At(cfg, trace, i), trace[i].t1, trace[i].t2, trace[i].t3).0
  }

  /** The operations awaited after n events. */
  function InFlight(cfg: Config, trace: seq<Event>, n: nat): set<nat>
    requires n <= |trace|
  {
    if n == 0 then {}
    else
      var ops := InFlight(cfg, trace, n - 1);
      match trace[n - 1]
      case Call(op, _, _, _) => if Admitted(cfg, trace, n - 1) then ops + {op} else ops
      case Settled(op, _, _) => ops - {op}
      case ResetCalled(_) => ops
  }

  /** Any interleaving: the clock never runs backwards and only admitted operations settle. */
  ghost predicate Run(cfg: Config, trace: seq<Event>) {
    && (forall i :: 0 <= i < |trace| && trace[i].Call? ==> trace[i].t1 <= trace[i].t2 <= trace[i].t3)
    && (forall i :: 0 < i < |trace| ==> EventTime(trace[i - 1]) <= StartTime(trace[i]))
    && (forall i: nat :: i < |trace| && trace[i].Settled? ==> trace[i].op in InFlight(cfg, trace, i))
  }

  function StartTime(e: Event): int {
    match e case Call(_, t1, _, _) => t1 case Settled(_, _, now) => now case ResetCalled(now) => now
  }

  /** Event i trips the closed breaker. */
  predicate Trips(cfg: Config, trace: seq<Event>, i: nat)
    requires i < |trace|
  {
    At(cfg, trace, i).state.CLOSED? && At(cfg, trace, i + 1).state.OPEN?
  }

  /** Not CLOSED after any of the events i..j-1. */
  ghost predicate Outage(cfg: Config, trace: seq<Event>, i: nat, j: nat)
    requires i < j <= |trace|
  {
    forall k: nat :: i < k <= j ==> !At(cfg, trace, k).state.CLOSED?
  }

  /** How many of the events i+1..j-1 are admitted calls. */
  function Probes(cfg: Config, trace: seq<Event>, i: nat, j: nat): nat
    requires i < j <= |trace|
  {
    if j == i + 1 then 0 else Probes(cfg, trace, i, j - 1) + (if Admitted(cfg, trace, j - 1) then 1 else 0)
  }

  /** One event of an outage: a probe moves the gate one timeout on, anything else leaves it no lower. */
  lemma GateStep(cfg: Config, b: Breaker, e: Event, clock: int, gate: int)
    requires !b.state.CLOSED? && !Step(cfg, b, e).state.CLOSED?
    requires b.nextAttemptMs >= gate && clock <= StartTime(e) && gate <= clock + cfg.resetTimeoutMs
    requires e.Call? ==> e.t1 <= e.t2 <= e.t3
    ensures if e.Call? && AdmitStep(cfg, b, e.t1, e.t2, e.t3).0
            then Step(cfg, b, e).nextAttemptMs >= gate + cfg.resetTimeoutMs && EventTime(e) >= gate
            else Step(cfg, b, e).nextAttemptMs >= gate && EventTime(e) >= clock
  {
  }

  /**
   * In every outage the n-th operation let through comes at least n reset
   * timeouts after the trip; consecutive ones are at least one timeout apart;
   * and HALF_OPEN is only reached by letting one through.
   */
  lemma {:induction false} ProbesAreSpaced(cfg: Config, trace: seq<Event>, i: nat, j: nat)
    requires Run(cfg, trace) && i < j <= |trace| && Trips(cfg, trace, i) && Outage(cfg, trace, i, j)
    ensures At(cfg, trace, j).nextAttemptMs >= EventTime(trace[i]) + (Probes(cfg, trace, i, j) + 1) * cfg.resetTimeoutMs
    ensures EventTime(trace[j - 1]) >= EventTime(trace[i]) + Probes(cfg, trace, i, j) * cfg.resetTimeoutMs
    ensures At(cfg, trace, j).state.HALF_OPEN? ==> Probes(cfg, trace, i, j) > 0
    decreases j
  {
    if j > i + 1 {
      ProbesAreSpaced(cfg, trace, i, j - 1);
      var n, r, g := Probes(cfg, trace, i, j - 1), cfg.resetTimeoutMs, EventTime(trace[i]);
      assert (n + 1) * r == n * r + r && (n + 2) * r == (n + 1) * r + r;
      assert !At(cfg, trace, j - 1).state.CLOSED? && !At(cfg, trace, j).state.CLOSED?;
      assert At(cfg, trace, j) == Step(cfg, At(cfg, trace, j - 1), trace[j - 1]);
      assert EventTime(trace[j - 2]) <= StartTime(trace[j - 1]);
      GateStep(cfg, At(cfg, trace, j - 1), trace[j - 1], g + n * r, g + (n + 1) * r);
    } else {
      assert At(cfg, trace, j) == Step(cfg, At(cfg, trace, i), trace[i]);
    }
  }

  /** The time from which event i keeps calls out: a probe let through, or a failure that opened the breaker. */
  predicate Arms(cfg: Config, trace: seq<Event>, i: nat)
    requires i < |trace|
  {
    !At(cfg, trace, i + 1).state.CLOSED? &&
    (Admitted(cfg, trace, i) || (At(cfg, trace, i + 1).state.OPEN? && !At(cfg, trace, i).state.OPEN?))
  }

  lemma {:induction false} ArmedGate(cfg: Config, trace: seq<Event>, i: nat, j: nat)
    requires Run(cfg, trace) && i < j <= |trace| && Arms(cfg, trace, i) && Outage(cfg, trace, i, j)
    ensures At(cfg, trace, j).nextAttemptMs >= EventTime(trace[i]) + cfg.resetTimeoutMs
    ensures EventTime(trace[j - 1]) >= EventTime(trace[i])
    decreases j
  {
    if j > i + 1 {
      ArmedGate(cfg, trace, i, j - 1);
      assert !At(cfg, trace, j - 1).state.CLOSED?;
      assert EventTime(trace[j - 2]) <= StartTime(trace[j - 1]);
    } else {
      assert At(cfg, trace, j) == Step(cfg, At(cfg, trace, i), trace[i]);
    }
  }

  /** Any call admitted later in an outage comes at least one reset timeout after a probe, a trip or a re-opening. */
  lemma AdmissionsAreApart(cfg: Config, trace: seq<Event>, i: nat, j: nat)
    requires Run(cfg, trace) && i < j < |trace| && Arms(cfg, trace, i) && Outage(cfg, trace, i, j)
    requires Admitted(cfg, trace, j)
    ensures trace[j].t3 - EventTime(trace[i]) >= cfg.resetTimeoutMs
  {
    ArmedGate(cfg, trace, i, j);
    assert !At(cfg, trace, j).state.CLOSED?;
  }

  /** Event i is the last one before j to arm the gate. */
  ghost predicate LastArming(cfg: Config, trace: seq<Event>, i: nat, j: nat)
    requires i < j <= |trace|
  {
    Arms(cfg, trace, i) && forall k: nat :: i < k < j ==> !Arms(cfg, trace, k)
  }

  /** The gate stands exactly one reset timeout after the event that armed it last. */
  lemma {:induction false} GateIsExact(cfg: Config, trace: seq<Event>, i: nat, j: nat)
    requires Run(cfg, trace) && i < j <= |trace| && Outage(cfg, trace, i, j) && LastArming(cfg, trace, i, j)
    ensures At(cfg, trace, j).nextAttemptMs == EventTime(trace[i]) + cfg.resetTimeoutMs
    decreases j
  {
    assert !At(cfg, trace, j).state.CLOSED?;
    assert At(cfg, trace, j) == Step(cfg, At(cfg, trace, j - 1), trace[j - 1]);
    if j > i + 1 {
      GateIsExact(cfg, trace, i, j - 1);
      assert !Arms(cfg, trace, j - 1) && !At(cfg, trace, j - 1).state.CLOSED?;
      GateStays(cfg, At(cfg, trace, j - 1), trace[j - 1]);
    }
  }

  /** An event of an outage that neither lets a call through nor opens the breaker leaves the gate alone. */
  lemma GateStays(cfg: Config, b: Breaker, e: Event)
    requires !b.state.CLOSED? && !Step(cfg, b, e).state.CLOSED?
    requires e.Call? ==> !AdmitStep(cfg, b, e.t1, e.t2, e.t3).0
    requires !(Step(cfg, b, e).state.OPEN? && !b.state.OPEN?)
    ensures Step(cfg, b, e).nextAttemptMs == b.nextAttemptMs
  {
  }

  /**
   * Within an outage a call is let through exactly when one reset timeout has passed
   * since the gate was last armed, by the clock it reads: it is then the probe and
   * leaves the breaker HALF_OPEN.
   */
  lemma AdmittedIff(cfg: Config, trace: seq<Event>, i: nat, j: nat)
    requires Run(cfg, trace) && i < j < |trace| && Outage(cfg, trace, i, j) && LastArming(cfg, trace, i, j)
    requires trace[j].Call?
    ensures var gate := EventTime(trace[i]) + cfg.resetTimeoutMs;
            Admitted(cfg, trace, j) <==>
            if At(cfg, trace, j).state.OPEN? then trace[j].t1 >= gate else trace[j].t2 >= gate
    ensures Admitted(cfg, trace, j) ==> At(cfg, trace, j + 1).state.HALF_OPEN?
  {
    GateIsExact(cfg, trace, i, j);
    assert !At(cfg, trace, j).state.CLOSED?;
    assert trace[j].t1 <= trace[j].t2;
  }

  /** So after a trip with no call let through since, the first call one timeout later goes through. */
  lemma RecoveryIsTried(cfg: Config, trace: seq<Event>, i: nat, j: nat)
    requires Run(cfg, trace) && i < j < |trace| && Trips(cfg, trace, i) && Outage(cfg, trace, i, j)
    requires forall k: nat :: i < k < j ==> !Admitted(cfg, trace, k)
    requires trace[j].Call? && trace[j].t1 >= EventTime(trace[i]) + cfg.resetTimeoutMs
    ensures Admitted(cfg, trace, j) && At(cfg, trace, j + 1).state.HALF_OPEN?
  {
    StaysOpen(cfg, trace, i, j);
    AdmittedIff(cfg, trace, i, j);
  }

  /** Until a call is let through, an outage stays OPEN, its gate where the trip put it. */
  lemma {:induction false} StaysOpen(cfg: Config, trace: seq<Event>, i: nat, j: nat)
    requires Run(cfg, trace) && i < j <= |trace| && Trips(cfg, trace, i) && Outage(cfg, trace, i, j)
    requires forall k: nat :: i < k < j ==> !Admitted(cfg, trace, k)
    ensures At(cfg, trace, j).state.OPEN? && LastArming(cfg, trace, i, j)
    decreases j
  {
    assert !At(cfg, trace, j).state.CLOSED?;
    if j > i + 1 {
      StaysOpen(cfg, trace, i, j - 1);
      assert !Admitted(cfg, trace, j - 1);
      assert At(cfg, trace, j) == Step(cfg, At(cfg, trace, j - 1), trace[j - 1]);
    } else {
      assert Arms(cfg, trace, i);
    }
  }

  /** What every step of a run does outside the gate: closed admits all, a probe's end closes or re-opens. */
  lemma StepsOfTheBreaker(cfg: Config, trace: seq<Event>, j: nat)
    requires Run(cfg, trace) && j < |trace|
    ensures At(cfg, trace, j).state.CLOSED? && trace[j].Call? ==>
              Admitted(cfg, trace, j) && At(cfg, trace, j + 1) == At(cfg, trace, j)
    ensures At(cfg, trace, j).state.HALF_OPEN? && trace[j].Settled? && trace[j].outcome.Success? ==>
              At(cfg, trace, j + 1) == Breaker(CLOSED, 0, 0)
    ensures At(cfg, trace, j).state.HALF_OPEN? && trace[j].Settled? && trace[j].outcome.Failed? ==>
              && At(cfg, trace, j + 1).state.OPEN?
              && At(cfg, trace, j + 1).nextAttemptMs == trace[j].now + cfg.resetTimeoutMs
    ensures trace[j].ResetCalled? ==> At(cfg, trace, j + 1) == Breaker(CLOSED, 0, 0)
  {
    assert At(cfg, trace, j + 1) == Step(cfg, At(cfg, trace, j), trace[j]);
  }

  /** An admitted operation in flight was admitted by an earlier call. */
  lemma {:induction false} InFlightWasAdmitted(cfg: Config, trace: seq<Event>, n: nat, op: nat)
    requires n <= |trace| && op in InFlight(cfg, trace, n)
    ensures exists i: nat :: i < n && Admitted(cfg, trace, i) && trace[i].op == op
  {
    if n > 0 && op in InFlight(cfg, trace, n - 1) {
      InFlightWasAdmitted(cfg, trace, n - 1, op);
    } else {
      assert Admitted(cfg, trace, n - 1);
    }
  }

  /**
   * An outage ends only by the success of an operation that was let through
   * earlier, settling while HALF_OPEN, or by an explicit reset; the success
   * ends it no sooner than one reset timeout after the trip.
   */
  lemma OutageEndsBySuccess(cfg: Config, trace: seq<Event>, i: nat, j: nat)
    requires Run(cfg, trace) && i < j < |trace| && Trips(cfg, trace, i) && Outage(cfg, trace, i, j)
    requires At(cfg, trace, j + 1).state.CLOSED?
    ensures trace[j].ResetCalled?
         || (&& trace[j].Settled? && trace[j].outcome.Success? && At(cfg, trace, j).state.HALF_OPEN?
             && (exists k: nat :: k < j && Admitted(cfg, trace, k) && trace[k].op == trace[j].op)
             && trace[j].now - EventTime(trace[i]) >= cfg.resetTimeoutMs)
  {
    ProbesAreSpaced(cfg, trace, i, j);
    assert !At(cfg, trace, j).state.CLOSED?;
    if !trace[j].ResetCalled? {
      InFlightWasAdmitted(cfg, trace, j, trace[j].op);
      var k := SomeProbe(cfg, trace, i, j);
      assert Arms(cfg, trace, i);
      AdmissionsAreApart(cfg, trace, i, k);
      TimeIsMonotone(cfg, trace, k, j);
    }
  }

  lemma {:induction false} SomeProbe(cfg: Config, trace: seq<Event>, i: nat, j: nat) returns (k: nat)
    requires i < j <= |trace| && Probes(cfg, trace, i, j) > 0
    ensures i < k < j && Admitted(cfg, trace, k)
  {
    k := j - 1;
    if !Admitted(cfg, trace, k) { k := SomeProbe(cfg, trace, i, j - 1); }
  }

  lemma {:induction false} TimeIsMonotone(cfg: Config, trace: seq<Event>, i: nat, j: nat)
    requires Run(cfg, trace) && i < j < |trace|
    ensures EventTime(trace[i]) <= StartTime(trace[j])
    decreases j
  {
    assert EventTime(trace[j - 1]) <= StartTime(trace[j]);
    if i < j - 1 { TimeIsMonotone(cfg, trace, i, j - 1); }
  }

  // ----- when the breaker trips -----

  function Failures(trace: seq<Event>, s: nat, n: nat): nat
    requires s <= n <= |trace|
  {
    if s == n then 0
    else Failures(trace, s, n - 1) + (if trace[n - 1].Settled? && trace[n - 1].outcome.Failed? then 1 else 0)
  }

  /** From s to n the breaker is CLOSED and sees no success; s is the start, or follows a success or a reset. */
  ghost predicate Streak(cfg: Config, trace: seq<Event>, s: nat, n: nat)
    requires s <= n <= |trace|
  {
    && (forall k: nat :: s <= k <= n ==> At(cfg, trace, k).state.CLOSED?)
    && (forall k: nat :: s <= k < n ==> !(trace[k].Settled? && trace[k].outcome.Success?) && !trace[k].ResetCalled?)
    && (s > 0 ==> trace[s - 1].ResetCalled? || (trace[s - 1].Settled? && trace[s - 1].outcome.Success?))
  }

  /** While CLOSED, `failures` counts exactly the failures of the current streak, and stays below the threshold. */
  lemma {:induction false} FailuresCountStreak(cfg: Config, trace: seq<Event>, n: nat) returns (s: nat)
    requires cfg.failureThreshold >= 1 && n <= |trace| && At(cfg, trace, n).state.CLOSED?
    ensures s <= n && Streak(cfg, trace, s, n)
    ensures At(cfg, trace, n).failures == Failures(trace, s, n) < cfg.failureThreshold
  {
    if n == 0 {
      s := 0;
    } else {
      var b, e := At(cfg, trace, n - 1), trace[n - 1];
      if e.ResetCalled? || (e.Settled? && e.outcome.Success?) {
        s := n;
      } else {
        s := FailuresCountStreak(cfg, trace, n - 1);
      }
    }
  }

  /** A CLOSED breaker opens exactly at the failure that completes a streak of `failureThreshold` failures. */
  lemma TripsExactlyAtThreshold(cfg: Config, trace: seq<Event>, i: nat) returns (s: nat)
    requires cfg.failureThreshold >= 1 && i < |trace| && At(cfg, trace, i).state.CLOSED?
    ensures s <= i && Streak(cfg, trace, s, i)
    ensures Trips(cfg, trace, i) <==>
            trace[i].Settled? && trace[i].outcome.Failed? && Failures(trace, s, i + 1) == cfg.failureThreshold
  {
    s := FailuresCountStreak(cfg, trace, i);
  }

  /** Redirections at any time, and any completion while OPEN, leave the breaker as it is. */
  lemma IgnoredCompletions(cfg: Config, trace: seq<Event>, i: nat)
    requires i < |trace| && trace[i].Settled?
    requires trace[i].outcome.Redirected? || At(cfg, trace, i).state.OPEN?
    ensures At(cfg, trace, i + 1) == At(cfg, trace, i)
  {
    assert At(cfg, trace, i + 1) == Step(cfg, At(cfg, trace, i), trace[i]);
  }
}
