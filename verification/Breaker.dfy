/**
 The circuit breaker of internal/circuitbreaker: a mutable object whose four
 operations run under one mutex, the value-level steps that specify them, and
 what every sequence of steps does.

 Time is an integer number of clock ticks. Each operation reads the clock while
 it holds the mutex, so along a run the times never decrease.
 */
module Breaker {
  import opened Arith

  datatype Phase = Closed | Open | HalfOpen

  datatype State = State(
    phase: Phase,
    failures: int,
    lastFailureAt: int,
    threshold: int,
    resetTimeout: int,
    halfOpenTrial: bool)

  function Fresh(threshold: int, resetTimeout: int): State {
    State(Closed, 0, 0, threshold, resetTimeout, false)
  }

  /** The decision of Allow. */
  predicate Admits(b: State, now: int) {
    match b.phase
    case Open => now - b.lastFailureAt >= b.resetTimeout
    case HalfOpen => !b.halfOpenTrial
    case Closed => true
  }

  function AfterAllow(b: State, now: int): State {
    if !Admits(b, now) then b else
    match b.phase
    case Open => b.(phase := HalfOpen, halfOpenTrial := false)
    case HalfOpen => b.(halfOpenTrial := true)
    case Closed => b
  }

  function AfterFailure(b: State, now: int): State {
    var b' := b.(lastFailureAt := now);
    match b.phase
    case HalfOpen => b'.(phase := Open, failures := b.threshold)
    case Closed => b'.(failures := b.failures + 1,
                       phase := if b.failures + 1 >= b.threshold then Open else Closed)
    case Open => b'
  }

  function AfterSuccess(b: State): State {
    match b.phase
    case HalfOpen => b.(phase := Closed, failures := 0)
    case Closed => b.(failures := 0)
    case Open => b
  }

  class CircuitBreaker {
    var phase: Phase
    var failures: int
    var lastFailureAt: int
    var halfOpenTrial: bool
    const threshold: int
    const resetTimeout: int

    ghost function Value(): State
      reads this
    {
      State(phase, failures, lastFailureAt, threshold, resetTimeout, halfOpenTrial)
    }

    constructor (threshold: int, resetTimeout: int)
      ensures Value() == Fresh(threshold, resetTimeout)
    {
      this.phase := Closed;
      this.failures := 0;
      this.lastFailureAt := 0;
      this.halfOpenTrial := false;
      this.threshold := threshold;
      this.resetTimeout := resetTimeout;
    }

    method Allow(now: int) returns (ok: bool)
      modifies this
      ensures ok == Admits(old(Value()), now)
      ensures Value() == AfterAllow(old(Value()), now)
    {
      match phase {
        case Open =>
          if now - lastFailureAt >= resetTimeout {
            phase := HalfOpen;
            halfOpenTrial := false;
            return true;
          }
          return false;
        case HalfOpen =>
          if !halfOpenTrial {
            halfOpenTrial := true;
            return true;
          }
          return false;
        case Closed =>
          return true;
      }
    }

    method OnFailure(now: int)
      modifies this
      ensures Value() == AfterFailure(old(Value()), now)
    {
      lastFailureAt := now;
      match phase {
        case HalfOpen =>
          phase := Open;
          failures := threshold;
        case Closed =>
          failures := failures + 1;
          if failures >= threshold {
            phase := Open;
          }
        case Open =>
      }
    }

    method OnSuccess()
      modifies this
      ensures Value() == AfterSuccess(old(Value()))
    {
      match phase {
        case HalfOpen =>
          phase := Closed;
          failures := 0;
        case Closed =>
          failures := 0;
        case Open =>
      }
    }
  }

  // ---------------------------------------------------------------- Runs

  datatype Event = AllowAt(now: int) | FailureAt(now: int) | SuccessAt(now: int)

  /** Everything the breaker has been told, latest event last. */
  datatype History = Start | Then(past: History, last: Event)

  function Step(b: State, e: Event): State {
    match e
    case AllowAt(now) => AfterAllow(b, now)
    case FailureAt(now) => AfterFailure(b, now)
    case SuccessAt(_) => AfterSuccess(b)
  }

  function Exec(b: State, h: History): State {
    match h
    case Start => b
    case Then(past, e) => Step(Exec(b, past), e)
  }

  /** The number of attempts let through. */
  function Admitted(b: State, h: History): nat {
    match h
    case Start => 0
    case Then(past, e) =>
      Admitted(b, past) + if e.AllowAt? && Admits(Exec(b, past), e.now) then 1 else 0
  }

  /** The time of the latest event, or `from` before the first one. */
  function Clock(from: int, h: History): int {
    match h
    case Start => from
    case Then(_, e) => e.now
  }

  predicate Chronological(from: int, h: History) {
    match h
    case Start => true
    case Then(past, e) => Chronological(from, past) && Clock(from, past) <= e.now
  }

  /** No state of the run, from first to last, is Closed. */
  predicate NeverClosed(b: State, h: History) {
    Exec(b, h).phase != Closed && (h.Start? || NeverClosed(b, h.past))
  }

  // --------------------------------------------------- Half-open episodes

  datatype Episode = Episode(start: int, admitted: nat)

  /** The half-open episodes a run has started, and how many attempts each let through. */
  ghost function Episodes(b: State, h: History): seq<Episode> {
    match h
    case Start => []
    case Then(past, e) =>
      var log, s := Episodes(b, past), Exec(b, past);
      var n := |log| - 1;
      if !(e.AllowAt? && Admits(s, e.now)) then log
      else if s.phase.Open? then log + [Episode(e.now, 1)]
      else if s.phase.HalfOpen? && n >= 0 then log[n := Episode(log[n].start, log[n].admitted + 1)]
      else log
  }

  ghost predicate Spaced(log: seq<Episode>, gap: int) {
    forall i, j | 0 <= i < j < |log| :: log[i].start + gap <= log[j].start
  }

  ghost predicate EachAtMostTwo(log: seq<Episode>) {
    forall i | 0 <= i < |log| :: 1 <= log[i].admitted <= 2
  }

  /** The latest episode, seen from the current state. */
  ghost predicate LatestEpisode(s: State, e: Episode, now: int) {
    && e.start <= now
    && (s.phase.Open? ==> e.start <= s.lastFailureAt)
    && (s.phase.HalfOpen? && !s.halfOpenTrial ==> e.admitted == 1)
  }

  /**
   In every run, closing or not: half-open episodes start at least resetTimeout
   apart, and each lets one or two attempts through.
   */
  lemma {:induction false} EpisodesAreSpaced(b: State, h: History, from: int)
    requires b.resetTimeout >= 0 && Chronological(from, h)
    ensures var log := Episodes(b, h);
            && Spaced(log, b.resetTimeout) && EachAtMostTwo(log)
            && (log != [] ==> LatestEpisode(Exec(b, h), log[|log| - 1], Clock(from, h)))
            && Exec(b, h).resetTimeout == b.resetTimeout
  {
    if h.Then? {
      EpisodesAreSpaced(b, h.past, from);
    }
  }

  // ------------------------------------------------------ Admission bound

  ghost predicate Metered(b: State, h: History, t0: int) {
    var s, e, now := Exec(b, h), |Episodes(b, h)|, Clock(t0, h);
    && s.resetTimeout == b.resetTimeout
    && t0 <= now
    && Admitted(b, h) <= 2 * e
    && match s.phase
       case Open => e * b.resetTimeout <= s.lastFailureAt - t0 && s.lastFailureAt <= now
       case HalfOpen => e * b.resetTimeout <= now - t0 && (s.halfOpenTrial || Admitted(b, h) < 2 * e)
       case Closed => false
  }

  lemma {:induction false} AdmissionsMetered(b: State, h: History)
    requires b.phase.Open? && b.resetTimeout > 0
    requires Chronological(b.lastFailureAt, h) && NeverClosed(b, h)
    ensures Metered(b, h, b.lastFailureAt)
  {
    if h.Then? {
      AdmissionsMetered(b, h.past);
      var e, r := |Episodes(b, h.past)|, b.resetTimeout;
      assert (e + 1) * r == e * r + r;
    }
  }

  /**
   However calls interleave, and whatever late outcomes arrive: if the breaker is
   open since a failure at T0 and does not close, then by T0 + d it has let at
   most two attempts through per elapsed resetTimeout.
   */
  lemma AdmissionBound(b: State, h: History, d: int)
    requires b.phase.Open? && b.resetTimeout > 0
    requires Chronological(b.lastFailureAt, h) && NeverClosed(b, h)
    requires Clock(b.lastFailureAt, h) <= b.lastFailureAt + d
    ensures Admitted(b, h) <= 2 * (d / b.resetTimeout)
  {
    AdmissionsMetered(b, h);
    var e, r := |Episodes(b, h)|, b.resetTimeout;
    DivMono(e * r, d, r);
    DivUnique(e * r, r, e);
  }

  /** n episodes, each admitting twice and failing, resetTimeout apart. */
  function WorstCase(t0: int, r: int, n: nat): History {
    if n == 0 then Start else
    var t := t0 + n * r;
    Then(Then(Then(WorstCase(t0, r, n - 1), AllowAt(t)), AllowAt(t)), FailureAt(t))
  }

  lemma {:induction false} WorstCaseRuns(b: State, n: nat)
    requires b.phase.Open? && b.resetTimeout > 0
    ensures var t0, h := b.lastFailureAt, WorstCase(b.lastFailureAt, b.resetTimeout, n);
            && Chronological(t0, h) && NeverClosed(b, h)
            && Clock(t0, h) == t0 + n * b.resetTimeout
            && Admitted(b, h) == 2 * n
            && Exec(b, h).phase.Open? && Exec(b, h).lastFailureAt == t0 + n * b.resetTimeout
            && Exec(b, h).resetTimeout == b.resetTimeout
  {
    if n > 0 {
      WorstCaseRuns(b, n - 1);
      var t0, r := b.lastFailureAt, b.resetTimeout;
      assert n * r == (n - 1) * r + r;
      var past := WorstCase(t0, r, n - 1);
      var t := t0 + n * r;
      var h1 := Then(past, AllowAt(t));
      var h2 := Then(h1, AllowAt(t));
      assert Exec(b, h1).phase.HalfOpen? && NeverClosed(b, h1);
      assert Exec(b, h2).phase.HalfOpen? && NeverClosed(b, h2);
      assert Admitted(b, h2) == Admitted(b, h1) + 1 == Admitted(b, past) + 2;
      assert WorstCase(t0, r, n) == Then(h2, FailureAt(t));
    }
  }

  /** The bound is attained for every d, so no smaller one holds. */
  lemma AdmissionBoundIsTight(b: State, d: int) returns (h: History)
    requires b.phase.Open? && b.resetTimeout > 0 && d >= 0
    ensures Chronological(b.lastFailureAt, h) && NeverClosed(b, h)
    ensures Clock(b.lastFailureAt, h) <= b.lastFailureAt + d
    ensures Admitted(b, h) == 2 * (d / b.resetTimeout)
  {
    var n := d / b.resetTimeout;
    WorstCaseRuns(b, n);
    h := WorstCase(b.lastFailureAt, b.resetTimeout, n);
  }

  // -------------------------------------------- What the counter counts

  /** Failure signals after the latest success signal, read off the history alone. */
  function TrailingFailures(h: History): nat {
    match h
    case Start => 0
    case Then(past, e) =>
      if e.SuccessAt? then 0
      else if e.FailureAt? then TrailingFailures(past) + 1
      else TrailingFailures(past)
  }

  /** The time of the latest failure signal in the history. */
  function LatestFailure(h: History): int {
    match h
    case Start => 0
    case Then(past, e) => if e.FailureAt? then e.now else LatestFailure(past)
  }

  /**
   In every run from a new breaker: while Closed the counter is the number of
   failures since the last success and is below the threshold; otherwise it
   equals the threshold.
   */
  lemma {:induction false} CounterMeaning(threshold: int, resetTimeout: int, h: History)
    requires threshold >= 1
    ensures var s := Exec(Fresh(threshold, resetTimeout), h);
            && s.threshold == threshold && s.resetTimeout == resetTimeout
            && s.lastFailureAt == LatestFailure(h)
            && (s.phase.Closed? ==> s.failures == TrailingFailures(h) < threshold)
            && (!s.phase.Closed? ==> s.failures == threshold)
  {
    if h.Then? {
      CounterMeaning(threshold, resetTimeout, h.past);
    }
  }

  /**
   Every transition of every run, told by the history: the breaker opens exactly
   on the failure that completes a streak of `threshold`, leaves Open exactly on
   an Allow at least resetTimeout after the latest failure, and closes exactly on
   a success while half-open.
   */
  lemma Transitions(threshold: int, resetTimeout: int, h: History, e: Event)
    requires threshold >= 1
    ensures var b := Fresh(threshold, resetTimeout);
            var before, after := Exec(b, h).phase, Exec(b, Then(h, e)).phase;
            && (before.Closed? ==>
                  after == if e.FailureAt? && TrailingFailures(Then(h, e)) == threshold then Open else Closed)
            && (before.Open? ==>
                  after == if e.AllowAt? && e.now >= LatestFailure(h) + resetTimeout then HalfOpen else Open)
            && (before.HalfOpen? ==>
                  after == if e.SuccessAt? then Closed else if e.FailureAt? then Open else HalfOpen)
  {
    CounterMeaning(threshold, resetTimeout, h);
  }
}
