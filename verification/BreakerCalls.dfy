/**
 Many calls sharing one circuit breaker. A call asks Allow once per attempt but
 reports its outcome once, after its last attempt (upstream.go, call and
 callWithRetry). Here the calls are interleaved step by step, in every possible
 way, and the network may answer anything.
 */
module BreakerCalls {
  import opened Breaker

  /** What a finished call tells the breaker. */
  datatype Signal = NoSignal | Success | Failure

  datatype Call =
    | Ready(attempt: nat)      // about to run attempt number `attempt`
    | InFlight(attempt: nat)   // admitted, request dispatched
    | Reporting(signal: Signal)

  datatype World = World(breaker: State, calls: map<nat, Call>, now: int, maxRetries: nat)

  datatype Action =
    | Tick(now: int)
    | Begin(c: nat)
    | Cancel(c: nat)    // the client gave up before an attempt or during the backoff
    | Ask(c: nat)
    | Answer(c: nat, signal: Signal, retryable: bool)
    | Report(c: nat)

  predicate Enabled(w: World, a: Action) {
    match a
    case Tick(now) => w.now <= now
    case Begin(c) => c !in w.calls
    case Cancel(c) => c in w.calls && w.calls[c].Ready?
    case Ask(c) => c in w.calls && w.calls[c].Ready?
    // Only an answer that says something about the upstream is ever retried.
    case Answer(c, signal, retryable) =>
      c in w.calls && w.calls[c].InFlight? && (retryable ==> signal != NoSignal)
    case Report(c) => c in w.calls && w.calls[c].Reporting?
  }

  /** The effect of an action; an action that is not enabled changes nothing. */
  function Next(w: World, a: Action): World {
    if !Enabled(w, a) then w else
    match a
    case Tick(now) => w.(now := now)
    case Begin(c) => w.(calls := w.calls[c := Ready(0)])
    case Cancel(c) => w.(calls := w.calls[c := Reporting(NoSignal)])
    case Ask(c) =>
      w.(breaker := AfterAllow(w.breaker, w.now),
         calls := w.calls[c := if Admits(w.breaker, w.now) then InFlight(w.calls[c].attempt)
                               else Reporting(NoSignal)])
    case Answer(c, signal, retryable) =>
      var attempt := w.calls[c].attempt;
      w.(calls := w.calls[c := if retryable && attempt < w.maxRetries then Ready(attempt + 1)
                               else Reporting(signal)])
    case Report(c) =>
      w.(breaker := match w.calls[c].signal
                    case NoSignal => w.breaker
                    case Success => AfterSuccess(w.breaker)
                    case Failure => AfterFailure(w.breaker, w.now),
         calls := w.calls - {c})
  }

  datatype Run = Nothing | After(past: Run, last: Action)

  function Final(w: World, r: Run): World {
    match r
    case Nothing => w
    case After(past, a) => Next(Final(w, past), a)
  }

  predicate Valid(w: World, r: Run) {
    r.After? ==> Valid(w, r.past) && Enabled(Final(w, r.past), r.last)
  }

  /** Does action `a`, taken in `w`, let an attempt through? */
  predicate Lets(w: World, a: Action) {
    Enabled(w, a) && a.Ask? && Admits(w.breaker, w.now)
  }

  function Admissions(w: World, r: Run): nat {
    match r
    case Nothing => 0
    case After(past, a) => Admissions(w, past) + if Lets(Final(w, past), a) then 1 else 0
  }

  // ----------------------------------------- Projection onto the breaker

  /** The events the breaker sees during a run of the whole system. */
  function Events(w: World, r: Run): History
    requires Valid(w, r)
  {
    match r
    case Nothing => Start
    case After(past, a) =>
      var m := Final(w, past);
      match a
      case Ask(_) => Then(Events(w, past), AllowAt(m.now))
      case Report(c) =>
        (match m.calls[c].signal
         case NoSignal => Events(w, past)
         case Success => Then(Events(w, past), SuccessAt(m.now))
         case Failure => Then(Events(w, past), FailureAt(m.now)))
      case _ => Events(w, past)
  }

  lemma {:induction false} RunProjects(w: World, r: Run)
    requires Valid(w, r)
    ensures var h := Events(w, r);
            && Final(w, r).breaker == Exec(w.breaker, h)
            && Admissions(w, r) == Admitted(w.breaker, h)
            && Chronological(w.now, h)
            && w.now <= Clock(w.now, h) <= Final(w, r).now
  {
    if r.After? {
      RunProjects(w, r.past);
    }
  }

  lemma {:induction false} ChronologicalFromEarlier(t: int, u: int, h: History)
    requires t <= u && Chronological(u, h)
    ensures Chronological(t, h) && (h.Then? ==> Clock(t, h) == Clock(u, h))
  {
    if h.Then? {
      ChronologicalFromEarlier(t, u, h.past);
    }
  }

  /** The admission bound, for every interleaving of any number of calls. */
  lemma CallAdmissionBound(w: World, r: Run, d: int)
    requires Valid(w, r)
    requires w.breaker.phase.Open? && w.breaker.resetTimeout > 0
    requires w.breaker.lastFailureAt <= w.now
    requires NeverClosed(w.breaker, Events(w, r))
    requires Final(w, r).now <= w.breaker.lastFailureAt + d
    ensures Admissions(w, r) <= 2 * (d / w.breaker.resetTimeout)
  {
    RunProjects(w, r);
    ChronologicalFromEarlier(w.breaker.lastFailureAt, w.now, Events(w, r));
    AdmissionBound(w.breaker, Events(w, r), d);
  }

  // ------------------------------------------------------ Wedged breakers

  predicate Silent(c: Call) {
    c.Ready? || c == Reporting(NoSignal)
  }

  /** Half-open, trial spent, and nobody left who could report. */
  ghost predicate Wedged(w: World) {
    && w.breaker.phase.HalfOpen? && w.breaker.halfOpenTrial
    && forall c | c in w.calls :: Silent(w.calls[c])
  }

  /** A wedged breaker refuses everybody, in every continuation, and never moves. */
  lemma {:induction false} WedgedForever(w: World, r: Run)
    requires Wedged(w) && Valid(w, r)
    ensures Wedged(Final(w, r)) && Final(w, r).breaker == w.breaker
    ensures Admissions(w, r) == 0
  {
    if r.After? {
      WedgedForever(w, r.past);
    }
  }

  lemma UnusedId(used: set<nat>) returns (c: nat)
    ensures c !in used
  {
    c := 0;
    var below: set<nat> := {};
    while c in used
      invariant below <= used
      invariant forall i: nat :: i in below <==> i < c
      decreases |used - below|
    {
      assert used - (below + {c}) == (used - below) - {c};
      below := below + {c};
      c := c + 1;
    }
  }

  /** From any state that is not wedged, some continuation lets an attempt through. */
  lemma EscapeRun(w: World) returns (r: Run)
    requires !Wedged(w)
    ensures Valid(w, r) && Admissions(w, r) > 0
  {
    var c: nat;
    r := Nothing;
    if w.breaker.phase.HalfOpen? && w.breaker.halfOpenTrial {
      c :| c in w.calls && !Silent(w.calls[c]);
      if w.calls[c].InFlight? {
        r := Extend(w, r, Answer(c, Success, false));
      }
      assert c in Final(w, r).calls && Final(w, r).calls[c].Reporting?;
      r := Extend(w, r, Report(c));
    } else {
      c := UnusedId(w.calls.Keys);
    }
    var m := Final(w, r);
    assert m.breaker.phase.Closed? || m.breaker.phase.Open? || !m.breaker.halfOpenTrial;
    if m.breaker.phase.Open? && m.now < m.breaker.lastFailureAt + m.breaker.resetTimeout {
      r := Extend(w, r, Tick(m.breaker.lastFailureAt + m.breaker.resetTimeout));
    }
    r := Extend(w, r, Begin(c));
    assert Final(w, r).calls[c] == Ready(0);
    r := Extend(w, r, Ask(c));
  }

  /** Exactly the wedged states are the ones no continuation recovers from. */
  lemma WedgedExactly(w: World)
    ensures Wedged(w) <==> forall r | Valid(w, r) :: Admissions(w, r) == 0
  {
    if Wedged(w) {
      forall r | Valid(w, r) ensures Admissions(w, r) == 0 {
        WedgedForever(w, r);
      }
    } else {
      var r := EscapeRun(w);
    }
  }

  // ------------------------------------------------- Reaching the wedge

  /**
   The environment never keeps an admitted call from signalling: no cancellation
   once an attempt was admitted, and every answer says something about the
   upstream. The breaker may still refuse.
   */
  predicate Signals(w: World, a: Action)
    requires Enabled(w, a)
  {
    match a
    case Cancel(c) => w.calls[c] == Ready(0)
    case Answer(_, signal, _) => signal != NoSignal
    case _ => true
  }

  predicate Signalling(w: World, r: Run) {
    && Valid(w, r)
    && (r.After? ==> Signalling(w, r.past) && Signals(Final(w, r.past), r.last))
  }

  /** Never more than atOnce calls under way. */
  predicate Limited(w: World, r: Run, atOnce: nat) {
    |Final(w, r).calls| <= atOnce && (r.After? ==> Limited(w, r.past, atOnce))
  }

  /** Only failures are retried, and nothing at all unless `retries`. */
  predicate Modest(r: Run, retries: bool) {
    r.After? ==> Modest(r.past, retries) && Mild(r.last, retries)
  }

  predicate Mild(a: Action, retries: bool) {
    a.Answer? && a.retryable ==> retries && a.signal == Failure
  }

  /** How many calls at once, whether failures are retried, and whether every admitted call signals. */
  datatype Manner = Manner(atOnce: nat, retries: bool, signals: bool)

  predicate Orderly(w: World, r: Run, how: Manner) {
    && Valid(w, r) && (how.signals ==> Signalling(w, r))
    && Limited(w, r, how.atOnce) && Modest(r, how.retries)
  }

  lemma Extend(w: World, r: Run, a: Action) returns (r': Run)
    requires Valid(w, r) && Enabled(Final(w, r), a)
    ensures r' == After(r, a)
    ensures Valid(w, r') && Final(w, r') == Next(Final(w, r), a)
    ensures Admissions(w, r') == Admissions(w, r) + if Lets(Final(w, r), a) then 1 else 0
  {
    r' := After(r, a);
  }

  predicate Fine(w: World, a: Action, how: Manner) {
    Enabled(w, a) && (how.signals ==> Signals(w, a)) && Mild(a, how.retries) && |Next(w, a).calls| <= how.atOnce
  }

  /** The actions, taken one after another from w. */
  function Played(w: World, actions: seq<Action>): World
    decreases |actions|
  {
    if actions == [] then w else Played(Next(w, actions[0]), actions[1..])
  }

  predicate Plays(w: World, actions: seq<Action>, how: Manner)
    decreases |actions|
  {
    actions != [] ==> Fine(w, actions[0], how) && Plays(Next(w, actions[0]), actions[1..], how)
  }

  lemma {:induction false} PlayFirst(w: World, a: Action, rest: seq<Action>, how: Manner)
    requires Fine(w, a, how) && Plays(Next(w, a), rest, how)
    ensures Plays(w, [a] + rest, how) && Played(w, [a] + rest) == Played(Next(w, a), rest)
  {
    assert ([a] + rest)[1..] == rest;
  }

  lemma {:induction false} ExtendOrderly(w: World, r: Run, actions: seq<Action>, how: Manner) returns (r': Run)
    requires Orderly(w, r, how) && Plays(Final(w, r), actions, how)
    ensures Orderly(w, r', how) && Final(w, r') == Played(Final(w, r), actions)
    decreases |actions|
  {
    r' := r;
    if actions != [] {
      r' := ExtendOrderly(w, After(r, actions[0]), actions[1..], how);
    }
  }

  function NewWorld(threshold: int, resetTimeout: int, maxRetries: nat): World {
    World(Fresh(threshold, resetTimeout), map[], 0, maxRetries)
  }

  // ---------------------------------------------- Runs that cannot wedge

  predicate Speaks(c: Call) {
    c.InFlight? || (c.Reporting? && c.signal != NoSignal)
  }

  /** While half-open, somebody is going to report. */
  ghost predicate Accountable(w: World) {
    w.breaker.phase.HalfOpen? ==> exists c :: c in w.calls && Speaks(w.calls[c])
  }

  lemma AccountableStep(w: World, a: Action)
    requires Accountable(w) && Enabled(w, a) && Signals(w, a) && (w.maxRetries == 0 || Mild(a, false))
    ensures Accountable(Next(w, a))
  {
    var w' := Next(w, a);
    if w'.breaker.phase.HalfOpen? {
      if a.Ask? && Admits(w.breaker, w.now) {
        assert Speaks(w'.calls[a.c]);
      } else {
        var c :| c in w.calls && Speaks(w.calls[c]);
        assert c in w'.calls && Speaks(w'.calls[c]);
      }
    }
  }

  /** Where nothing is retried no signalling run wedges the breaker, however many calls overlap. */
  lemma {:induction false} NoRetryRecovers(threshold: int, resetTimeout: int, maxRetries: nat, r: Run)
    requires Signalling(NewWorld(threshold, resetTimeout, maxRetries), r)
    requires maxRetries == 0 || Modest(r, false)
    ensures var w := Final(NewWorld(threshold, resetTimeout, maxRetries), r);
            w.maxRetries == maxRetries && Accountable(w) && !Wedged(w)
  {
    if r.After? {
      NoRetryRecovers(threshold, resetTimeout, maxRetries, r.past);
      AccountableStep(Final(NewWorld(threshold, resetTimeout, maxRetries), r.past), r.last);
    }
  }

  ghost predicate AtMostOne(calls: map<nat, Call>) {
    forall c, d | c in calls && d in calls :: c == d
  }

  lemma SingleCall(calls: map<nat, Call>)
    requires |calls| <= 1
    ensures AtMostOne(calls)
  {
    forall c, d | c in calls && d in calls ensures c == d {
      assert |calls.Keys - {c}| == |calls| - 1;
      assert d !in calls.Keys - {c};
    }
  }

  /** Where the breaker can be, by the progress of the single call under way. */
  ghost predicate Recovering(w: World) {
    && AtMostOne(w.calls)
    && (w.calls == map[] ==> !w.breaker.phase.HalfOpen?)
    && forall c | c in w.calls ::
         match w.calls[c]
         case Ready(n) => n <= 1 && (w.breaker.phase.Closed? || (n == 0 && w.breaker.phase.Open?) ||
                                     (n == 1 && w.breaker.phase.HalfOpen? && !w.breaker.halfOpenTrial))
         case InFlight(n) => n <= 1 && (w.breaker.phase.Closed? ||
                                        (w.breaker.phase.HalfOpen? && (n == 0 ==> !w.breaker.halfOpenTrial)))
         case Reporting(s) => s != NoSignal || !w.breaker.phase.HalfOpen?
  }

  lemma RecoveringStep(w: World, a: Action)
    requires w.maxRetries <= 1 && Recovering(w) && Enabled(w, a) && Signals(w, a)
    requires AtMostOne(Next(w, a).calls)
    ensures Recovering(Next(w, a))
  {
    var w' := Next(w, a);
    match a
    case Report(c) => assert w'.calls == map[];
    case Begin(c) =>
      assert forall d | d in w.calls :: d in w'.calls && c in w'.calls;
    case Tick(_) =>
    case _ => assert a.c in w'.calls;
  }

  lemma {:induction false} AtMostOneRetryRecovers(threshold: int, resetTimeout: int, maxRetries: nat, r: Run)
    requires maxRetries <= 1
    requires Signalling(NewWorld(threshold, resetTimeout, maxRetries), r)
    requires Limited(NewWorld(threshold, resetTimeout, maxRetries), r, 1)
    ensures var w := Final(NewWorld(threshold, resetTimeout, maxRetries), r);
            w.maxRetries == maxRetries && Recovering(w) && !Wedged(w)
  {
    var w0 := NewWorld(threshold, resetTimeout, maxRetries);
    var w := Final(w0, r);
    if r.After? {
      AtMostOneRetryRecovers(threshold, resetTimeout, maxRetries, r.past);
      SingleCall(w.calls);
      RecoveringStep(Final(w0, r.past), r.last);
    }
    if w.calls != map[] {
      var c :| c in w.calls;
      assert Recovering(w);
    }
  }

  // ------------------------------------------------------ Runs that wedge

  /** w with call c in the given state. */
  function At(w: World, c: nat, call: Call): World {
    w.(calls := w.calls[c := call])
  }

  lemma AtSize(w: World, c: nat, call: Call)
    requires c !in w.calls
    ensures |At(w, c, call).calls| == |w.calls| + 1
  {
  }

  lemma ClosedSteps(w: World, c: nat, signal: Signal)
    requires c !in w.calls && w.breaker.phase.Closed?
    ensures Next(w, Begin(c)) == At(w, c, Ready(0))
    ensures Next(At(w, c, Ready(0)), Ask(c)) == At(w, c, InFlight(0))
    ensures Next(At(w, c, InFlight(0)), Answer(c, signal, false)) == At(w, c, Reporting(signal))
  {
    assert At(w, c, Ready(0)).calls[c := InFlight(0)] == w.calls[c := InFlight(0)];
    assert At(w, c, InFlight(0)).calls[c := Reporting(signal)] == w.calls[c := Reporting(signal)];
  }

  lemma FailureReported(w: World, c: nat)
    requires c !in w.calls
    ensures Next(At(w, c, Reporting(Failure)), Report(c)) == w.(breaker := AfterFailure(w.breaker, w.now))
  {
    assert At(w, c, Reporting(Failure)).calls - {c} == w.calls;
  }

  /** A call let through and answered while the breaker is closed, up to its report. */
  function AnsweredCall(c: nat, signal: Signal, rest: seq<Action>): seq<Action> {
    [Begin(c)] + ([Ask(c)] + ([Answer(c, signal, false)] + rest))
  }

  lemma {:induction false} AnsweredCallPlays(w: World, c: nat, signal: Signal, rest: seq<Action>, how: Manner)
    requires c !in w.calls && |w.calls| < how.atOnce && w.breaker.phase.Closed? && signal != NoSignal
    requires Plays(At(w, c, Reporting(signal)), rest, how)
    ensures Plays(w, AnsweredCall(c, signal, rest), how)
    ensures Played(w, AnsweredCall(c, signal, rest)) == Played(At(w, c, Reporting(signal)), rest)
  {
    ClosedSteps(w, c, signal);
    AtSize(w, c, Ready(0));
    AtSize(w, c, InFlight(0));
    AtSize(w, c, Reporting(signal));
    var answer := Answer(c, signal, false);
    PlayFirst(At(w, c, InFlight(0)), answer, rest, how);
    PlayFirst(At(w, c, Ready(0)), Ask(c), [answer] + rest, how);
    PlayFirst(w, Begin(c), [Ask(c)] + ([answer] + rest), how);
  }

  /** One more failing call, beside the calls already under way, on a closed breaker. */
  lemma {:induction false} FailingCallPlays(w: World, c: nat, how: Manner)
    requires c !in w.calls && |w.calls| < how.atOnce && w.breaker.phase.Closed?
    ensures Plays(w, AnsweredCall(c, Failure, [Report(c)] + []), how)
    ensures Played(w, AnsweredCall(c, Failure, [Report(c)] + [])) ==
            w.(breaker := AfterFailure(w.breaker, w.now))
  {
    FailureReported(w, c);
    PlayFirst(At(w, c, Reporting(Failure)), Report(c), [], how);
    AnsweredCallPlays(w, c, Failure, [Report(c)] + [], how);
  }

  lemma {:induction false} OpeningRun(w: World, r: Run, c: nat, how: Manner) returns (r': Run)
    requires Orderly(w, r, how) && c !in Final(w, r).calls && |Final(w, r).calls| < how.atOnce
    requires Final(w, r).breaker.phase.Closed?
    ensures Orderly(w, r', how) && Final(w, r').breaker.phase.Open?
    ensures Final(w, r').calls == Final(w, r).calls && Final(w, r').maxRetries == Final(w, r).maxRetries
    decreases Final(w, r).breaker.threshold - Final(w, r).breaker.failures
  {
    FailingCallPlays(Final(w, r), c, how);
    r' := ExtendOrderly(w, r, AnsweredCall(c, Failure, [Report(c)] + []), how);
    if Final(w, r').breaker.phase.Closed? {
      r' := OpeningRun(w, r', c, how);
    }
  }

  /** Waiting until an open breaker lets an attempt through, and sending it. */
  function FirstProbe(b: State, now: int): seq<Action> {
    var t := b.lastFailureAt + b.resetTimeout;
    [Tick(if t < now then now else t)] + ([Begin(0)] + ([Ask(0)] + []))
  }

  lemma {:induction false} FirstProbePlays(w: World, how: Manner)
    requires how.atOnce >= 1 && w.calls == map[] && w.breaker.phase.Open?
    ensures Plays(w, FirstProbe(w.breaker, w.now), how)
    ensures var m := Played(w, FirstProbe(w.breaker, w.now));
            && m.calls == map[0 := InFlight(0)] && m.maxRetries == w.maxRetries
            && m.breaker.phase.HalfOpen? && !m.breaker.halfOpenTrial
  {
    var t := w.breaker.lastFailureAt + w.breaker.resetTimeout;
    var now := if t < w.now then w.now else t;
    var w1 := w.(now := now);
    var w2 := w1.(calls := map[0 := Ready(0)]);
    var w3 := w2.(breaker := AfterAllow(w.breaker, now), calls := map[0 := InFlight(0)]);
    assert Next(w, Tick(now)) == w1 && Next(w1, Begin(0)) == w2 && Next(w2, Ask(0)) == w3;
    PlayFirst(w2, Ask(0), [], how);
    PlayFirst(w1, Begin(0), [Ask(0)] + [], how);
    PlayFirst(w, Tick(now), [Begin(0)] + ([Ask(0)] + []), how);
  }

  const PROBED_TWICE: seq<Action> :=
    [Answer(0, Failure, true)] + ([Ask(0)] + ([Answer(0, Failure, true)] + []))

  /** One call whose first two attempts are let through and fail retryably. */
  lemma {:induction false} SecondAttemptWedges(w: World, how: Manner)
    requires how.atOnce >= 1 && how.retries && w.maxRetries >= 2 && w.calls == map[0 := InFlight(0)]
    requires w.breaker.phase.HalfOpen? && !w.breaker.halfOpenTrial
    ensures Plays(w, PROBED_TWICE, how) && Wedged(Played(w, PROBED_TWICE))
  {
    var again := Answer(0, Failure, true);
    var w1 := w.(calls := map[0 := Ready(1)]);
    var w2 := w.(breaker := AfterAllow(w.breaker, w.now), calls := map[0 := InFlight(1)]);
    var w3 := w2.(calls := map[0 := Ready(2)]);
    assert Next(w, again) == w1 && Next(w1, Ask(0)) == w2 && Next(w2, again) == w3;
    PlayFirst(w2, again, [], how);
    PlayFirst(w1, Ask(0), [again] + [], how);
    PlayFirst(w, again, [Ask(0)] + ([again] + []), how);
  }

  const PROBED_BY_TWO: seq<Action> :=
    [Begin(1)] + ([Ask(1)] + ([Answer(0, Failure, true)] + ([Answer(1, Failure, true)] + [])))

  function Both(w: World, first: Call, second: Call): World {
    w.(calls := map[0 := first, 1 := second])
  }

  lemma OverlapSteps(w: World)
    requires w.maxRetries >= 1 && w.calls == map[0 := InFlight(0)] && Admits(w.breaker, w.now)
    ensures var asked := w.(breaker := AfterAllow(w.breaker, w.now));
            && Next(w, Begin(1)) == Both(w, InFlight(0), Ready(0))
            && Next(Both(w, InFlight(0), Ready(0)), Ask(1)) == Both(asked, InFlight(0), InFlight(0))
            && Next(Both(asked, InFlight(0), InFlight(0)), Answer(0, Failure, true)) ==
               Both(asked, Ready(1), InFlight(0))
            && Next(Both(asked, Ready(1), InFlight(0)), Answer(1, Failure, true)) == Both(asked, Ready(1), Ready(1))
  {
  }

  /** Two overlapping calls whose first attempts are both let through and fail retryably. */
  lemma {:induction false} SecondCallWedges(w: World, how: Manner)
    requires how.atOnce >= 2 && how.retries && w.maxRetries >= 1 && w.calls == map[0 := InFlight(0)]
    requires w.breaker.phase.HalfOpen? && !w.breaker.halfOpenTrial
    ensures Plays(w, PROBED_BY_TWO, how) && Wedged(Played(w, PROBED_BY_TWO))
  {
    var asked, a, b := w.(breaker := AfterAllow(w.breaker, w.now)), Answer(0, Failure, true), Answer(1, Failure, true);
    OverlapSteps(w);
    PlayFirst(Both(asked, Ready(1), InFlight(0)), b, [], how);
    PlayFirst(Both(asked, InFlight(0), InFlight(0)), a, [b] + [], how);
    PlayFirst(Both(w, InFlight(0), Ready(0)), Ask(1), [a] + ([b] + []), how);
    PlayFirst(w, Begin(1), [Ask(1)] + ([a] + ([b] + [])), how);
  }

  /** A wedging run in which every admitted call signals, and only failures are retried. */
  lemma WedgeRun(threshold: int, resetTimeout: int, maxRetries: nat, atOnce: nat) returns (r: Run)
    requires maxRetries >= 2 || (maxRetries >= 1 && atOnce >= 2)
    requires atOnce >= 1
    ensures var w := NewWorld(threshold, resetTimeout, maxRetries);
            Orderly(w, r, Manner(atOnce, true, true)) && Wedged(Final(w, r))
  {
    var w, how := NewWorld(threshold, resetTimeout, maxRetries), Manner(atOnce, true, true);
    r := OpeningRun(w, Nothing, 0, how);
    var m := Final(w, r);
    FirstProbePlays(m, how);
    r := ExtendOrderly(w, r, FirstProbe(m.breaker, m.now), how);
    m := Final(w, r);
    if maxRetries >= 2 {
      SecondAttemptWedges(m, how);
      r := ExtendOrderly(w, r, PROBED_TWICE, how);
    } else {
      SecondCallWedges(m, how);
      r := ExtendOrderly(w, r, PROBED_BY_TWO, how);
    }
  }

  const SILENT_PROBE: seq<Action> :=
    [Begin(0)] + ([Ask(0)] + ([Answer(0, NoSignal, false)] + ([Report(0)] + [])))

  lemma SilentSteps(w: World)
    requires w.calls == map[] && Admits(w.breaker, w.now)
    ensures var asked := w.(breaker := AfterAllow(w.breaker, w.now));
            && Next(w, Begin(0)) == At(w, 0, Ready(0))
            && Next(At(w, 0, Ready(0)), Ask(0)) == At(asked, 0, InFlight(0))
            && Next(At(asked, 0, InFlight(0)), Answer(0, NoSignal, false)) == At(asked, 0, Reporting(NoSignal))
            && Next(At(asked, 0, Reporting(NoSignal)), Report(0)) == asked
  {
    var asked := w.(breaker := AfterAllow(w.breaker, w.now));
    assert At(w, 0, Ready(0)).calls[0 := InFlight(0)] == asked.calls[0 := InFlight(0)];
    assert At(asked, 0, InFlight(0)).calls[0 := Reporting(NoSignal)] == asked.calls[0 := Reporting(NoSignal)];
    assert At(asked, 0, Reporting(NoSignal)).calls - {0} == map[];
  }

  /** A probe that ends without a signal leaves its admission spent. */
  lemma {:induction false} SilentProbePlays(w: World, how: Manner)
    requires w.calls == map[] && Admits(w.breaker, w.now) && how.atOnce >= 1 && !how.signals
    ensures Plays(w, SILENT_PROBE, how)
    ensures Played(w, SILENT_PROBE) == w.(breaker := AfterAllow(w.breaker, w.now))
  {
    var asked, answer := w.(breaker := AfterAllow(w.breaker, w.now)), Answer(0, NoSignal, false);
    SilentSteps(w);
    AtSize(w, 0, Ready(0));
    AtSize(asked, 0, InFlight(0));
    AtSize(asked, 0, Reporting(NoSignal));
    PlayFirst(At(asked, 0, Reporting(NoSignal)), Report(0), [], how);
    PlayFirst(At(asked, 0, InFlight(0)), answer, [Report(0)] + [], how);
    PlayFirst(At(w, 0, Ready(0)), Ask(0), [answer] + ([Report(0)] + []), how);
    PlayFirst(w, Begin(0), [Ask(0)] + ([answer] + ([Report(0)] + [])), how);
  }

  /** Waiting until an open breaker would let an attempt through. */
  lemma {:induction false} WaitPlays(w: World, how: Manner) returns (tick: Action)
    requires w.breaker.phase.Open? && |w.calls| <= how.atOnce
    ensures Plays(w, [tick] + [], how)
    ensures var m := Played(w, [tick] + []); m == w.(now := m.now) && Admits(m.breaker, m.now)
  {
    var t := w.breaker.lastFailureAt + w.breaker.resetTimeout;
    tick := Tick(if t < w.now then w.now else t);
    PlayFirst(w, tick, [], how);
  }

  /**
   If admitted calls may end without a signal, the wedge is always reachable: no
   retries and no overlap are needed, only two probes that end silently.
   */
  lemma SilentProbesWedge(threshold: int, resetTimeout: int, maxRetries: nat) returns (r: Run)
    ensures var w := NewWorld(threshold, resetTimeout, maxRetries);
            Orderly(w, r, Manner(1, false, false)) && Wedged(Final(w, r))
  {
    var w, how := NewWorld(threshold, resetTimeout, maxRetries), Manner(1, false, false);
    r := OpeningRun(w, Nothing, 0, how);
    var m := Final(w, r);
    var tick := WaitPlays(m, how);
    r := ExtendOrderly(w, r, [tick] + [], how);
    m := Final(w, r);
    SilentProbePlays(m, how);
    r := ExtendOrderly(w, r, SILENT_PROBE, how);
    m := Final(w, r);
    SilentProbePlays(m, how);
    r := ExtendOrderly(w, r, SILENT_PROBE, how);
  }

  // -------------------------------------------------------- Late successes

  /** Call c is about to report a success to an open breaker. */
  predicate LateSuccess(w: World, c: nat) {
    w.breaker.phase.Open? && c in w.calls && w.calls[c] == Reporting(Success)
  }

  /** One call at a time: whoever is admitted finds the breaker not open until it has reported. */
  ghost predicate Prompt(w: World) {
    AtMostOne(w.calls) && forall c | c in w.calls && Speaks(w.calls[c]) :: !w.breaker.phase.Open?
  }

  lemma {:induction false} OneAtATimeIsPrompt(w: World, r: Run)
    requires w.calls == map[] && Valid(w, r) && Limited(w, r, 1)
    ensures Prompt(Final(w, r))
  {
    if r.After? {
      OneAtATimeIsPrompt(w, r.past);
      SingleCall(Final(w, r).calls);
    }
  }

  /** A call answered while closed, overtaken by failures that open the breaker. */
  lemma LateSuccessRun(threshold: int, resetTimeout: int, maxRetries: nat, atOnce: nat) returns (r: Run)
    requires atOnce >= 2
    ensures var w := NewWorld(threshold, resetTimeout, maxRetries);
            Orderly(w, r, Manner(atOnce, false, true)) && LateSuccess(Final(w, r), 0)
  {
    var w, how := NewWorld(threshold, resetTimeout, maxRetries), Manner(atOnce, false, true);
    AnsweredCallPlays(w, 0, Success, [], how);
    r := ExtendOrderly(w, Nothing, AnsweredCall(0, Success, []), how);
    AtSize(w, 0, Reporting(Success));
    r := OpeningRun(w, r, 1, how);
  }

  lemma {:induction false} FewerAtOnce(w: World, r: Run, atOnce: nat)
    requires atOnce <= 1 && Limited(w, r, atOnce)
    ensures Limited(w, r, 1)
  {
    if r.After? {
      FewerAtOnce(w, r.past, atOnce);
    }
  }

  /** With fewer than two calls at once, no success ever reaches an open breaker. */
  lemma NoLateSuccess(w: World, r: Run, c: nat, atOnce: nat)
    requires w.calls == map[] && Valid(w, r) && Limited(w, r, atOnce) && atOnce <= 1
    ensures !LateSuccess(Final(w, r), c)
  {
    FewerAtOnce(w, r, atOnce);
    OneAtATimeIsPrompt(w, r);
  }
}
