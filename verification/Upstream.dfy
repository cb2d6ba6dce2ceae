/**
 One upstream call: the exchange with the network, the retry loop around it, the
 report to the circuit breaker and the response policy (upstream.go).

 The network, the clock and the client's patience are a script: entry i says what
 happens if attempt i is made.
 */
module Upstream {
  import opened Options
  import opened Breaker
  import opened BreakerCalls
  import opened UpstreamErrors

  type Headers = map<string, seq<string>>

  datatype Response = Response(status: int, headers: Headers, body: string, err: Option<Kind>)

  datatype Policy = Policy(blacklist: set<string>, requireBody: bool, maxBody: int)

  datatype Config = Config(
    httpMethod: string,
    policy: Policy,
    maxRetries: nat,
    retryOnStatuses: seq<int>,
    backoff: int)

  // -------------------------------------------------------- One exchange

  datatype Cause = Deadline | ClientGone | Network

  /** How reading the body ended: by itself, in an error, at the attempt's deadline, or with the client. */
  datatype Fault = Complete | Broken | OutOfTime | ClientLeft

  datatype Exchange =
    | Unbuildable
    | Failed(cause: Cause)
    | Answered(status: int, headers: Headers, delivered: string, fault: Fault)

  datatype Read = Whole(data: string) | Rejected(kind: Kind)

  /** Reads at most one byte past the limit, so a fault further out is never seen. */
  function ReadBody(limit: int, delivered: string, fault: Fault): (r: Read)
    ensures r.Whole? <==> fault.Complete? && (limit > 0 ==> |delivered| <= limit)
    ensures r.Whole? ==> r.data == delivered
    ensures r == Rejected(BodyTooLarge) <==> limit > 0 && |delivered| > limit
  {
    var truncated := limit > 0 && |delivered| > limit + 1;
    var data := if truncated then delivered[..limit + 1] else delivered;
    var seen := limit > 0 && |delivered| >= limit + 1;
    if !fault.Complete? && !seen then
      Rejected(if fault.Broken? then ReadError else Canceled)
    else if limit > 0 && |data| > limit then Rejected(BodyTooLarge)
    else Whole(data)
  }

  function ClassifyStatus(status: int): Option<Kind> {
    if status >= 500 then Some(BadStatus)
    else if status >= 400 then Some(ClientError)
    else if status >= 300 then Some(Redirect)
    else None
  }

  function Refusal(k: Kind): Response {
    Response(0, map[], "", Some(k))
  }

  function DoCall(p: Policy, x: Exchange): Response {
    match x
    case Unbuildable => Refusal(Internal)
    case Failed(Deadline) => Refusal(Timeout)
    case Failed(ClientGone) => Refusal(Canceled)
    case Failed(Network) => Refusal(Connection)
    case Answered(status, headers, delivered, fault) =>
      match ReadBody(p.maxBody, delivered, fault)
      case Rejected(k) => Response(status, map[], "", Some(k))
      case Whole(data) => Response(status, headers - p.blacklist, data, ClassifyStatus(status))
  }

  /**
   What an exchange tells the breaker. A 5xx answer read to its end is a failure,
   but one whose body is over the limit counts as a sign of life.
   */
  lemma SignalMeaning(p: Policy, x: Exchange)
    ensures var signal := SignalOf(DoCall(p, x).err);
            var oversized := x.Answered? && p.maxBody > 0 && |x.delivered| > p.maxBody;
            && (signal == Success <==> oversized || (x.Answered? && x.fault.Complete? && x.status < 500))
            && (signal == Failure <==>
                  || (x.Failed? && x.cause != ClientGone)
                  || (x.Answered? && !oversized &&
                      (x.fault.Broken? || (x.fault.Complete? && x.status >= 500))))
  {
  }

  /** Complete, and not over the size limit. */
  predicate ReadWhole(p: Policy, x: Exchange) {
    x.Answered? && x.fault.Complete? && (p.maxBody > 0 ==> |x.delivered| <= p.maxBody)
  }

  /**
   What of an answer is passed on: its status always; body and headers only if it
   was read whole, and then every header that is not blacklisted, with its values.
   */
  lemma AnswerMeaning(p: Policy, x: Exchange, k: string)
    ensures var resp := DoCall(p, x);
            && resp.status == (if x.Answered? then x.status else 0)
            && resp.body == (if ReadWhole(p, x) then x.delivered else "")
            && (k in resp.headers <==> ReadWhole(p, x) && k in x.headers && k !in p.blacklist)
            && (k in resp.headers ==> resp.headers[k] == x.headers[k])
  {
  }

  // ------------------------------------------------------- The retry loop

  predicate Idempotent(httpMethod: string) {
    httpMethod in {"GET", "HEAD", "OPTIONS", "TRACE", "PUT", "DELETE", "QUERY"}
  }

  /** The safe methods of section 9.2.1 of RFC 9110. */
  predicate Safe(httpMethod: string) {
    httpMethod in {"GET", "HEAD", "OPTIONS", "TRACE"}
  }

  predicate ShouldRetry(cfg: Config, resp: Response) {
    Idempotent(cfg.httpMethod) &&
    match resp.err
    case None => resp.status in cfg.retryOnStatuses
    case Some(k) =>
      match PropsOf(k).retry
      case Always => true
      case ByStatus => resp.status in cfg.retryOnStatuses
      case Never => false
  }

  /**
   The exchanges worth another attempt, told from the exchange alone: the deadline
   or the network struck before the headers, or a whole answer, not a redirect,
   carries a status the policy lists. The method must be safe, PUT or DELETE
   (section 9.2.2 of RFC 9110), or QUERY.
   */
  predicate Retryable(cfg: Config, x: Exchange) {
    && (Safe(cfg.httpMethod) || cfg.httpMethod in {"PUT", "DELETE", "QUERY"})
    && (|| x in {Failed(Deadline), Failed(Network)}
        || (ReadWhole(cfg.policy, x) && !(300 <= x.status < 400) && x.status in cfg.retryOnStatuses))
  }

  lemma RetryMeaning(cfg: Config, x: Exchange)
    ensures ShouldRetry(cfg, DoCall(cfg.policy, x)) <==> Retryable(cfg, x)
  {
  }

  datatype Attempt = Attempt(abandoned: bool, askAt: int, exchange: Exchange, abandonedInBackoff: bool)

  /** answer is the exchange whose result is returned; None when the call was refused or abandoned. */
  datatype Outcome = Outcome(resp: Response, dispatched: nat, breaker: Option<State>, answer: Option<Exchange>)

  function Asked(b: Option<State>, now: int): Option<State> {
    match b
    case None => None
    case Some(s) => Some(AfterAllow(s, now))
  }

  predicate Refuses(b: Option<State>, now: int) {
    b.Some? && !Admits(b.value, now)
  }

  function RetryFrom(cfg: Config, b: Option<State>, script: seq<Attempt>, i: nat): Outcome
    requires i <= cfg.maxRetries < |script|
    decreases cfg.maxRetries - i
  {
    var a := script[i];
    if a.abandoned then Outcome(Refusal(Canceled), 0, b, None)
    else if Refuses(b, a.askAt) then Outcome(Refusal(CircuitOpen), 0, Asked(b, a.askAt), None)
    else
      var b' := Asked(b, a.askAt);
      var resp := DoCall(cfg.policy, a.exchange);
      if i == cfg.maxRetries || !ShouldRetry(cfg, resp) then Outcome(resp, 1, b', Some(a.exchange))
      else if cfg.backoff > 0 && a.abandonedInBackoff then Outcome(Refusal(Canceled), 1, b', None)
      else
        var rest := RetryFrom(cfg, b', script, i + 1);
        rest.(dispatched := rest.dispatched + 1)
  }

  ghost function ValueOf(breaker: CircuitBreaker?): Option<State>
    reads breaker
  {
    if breaker == null then None else Some(breaker.Value())
  }

  method CallWithRetry(cfg: Config, breaker: CircuitBreaker?, script: seq<Attempt>)
    returns (resp: Response, dispatched: nat)
    requires cfg.maxRetries < |script|
    modifies breaker
    ensures var o := RetryFrom(cfg, old(ValueOf(breaker)), script, 0);
            resp == o.resp && dispatched == o.dispatched && ValueOf(breaker) == o.breaker
  {
    resp := Refusal(Internal);
    dispatched := 0;
    ghost var all := RetryFrom(cfg, ValueOf(breaker), script, 0);
    var attempt := 0;
    while attempt <= cfg.maxRetries
      invariant 0 <= attempt <= cfg.maxRetries
      invariant var rest := RetryFrom(cfg, ValueOf(breaker), script, attempt);
                rest.(dispatched := dispatched + rest.dispatched) == all
      decreases cfg.maxRetries - attempt
    {
      var a := script[attempt];
      if a.abandoned {
        return Refusal(Canceled), dispatched;
      }
      if breaker != null {
        var ok := breaker.Allow(a.askAt);
        if !ok {
          return Refusal(CircuitOpen), dispatched;
        }
      }
      resp := DoCall(cfg.policy, a.exchange);
      dispatched := dispatched + 1;
      if attempt == cfg.maxRetries || !ShouldRetry(cfg, resp) {
        break;
      }
      if cfg.backoff > 0 && a.abandonedInBackoff {
        return Refusal(Canceled), dispatched;
      }
      attempt := attempt + 1;
    }
  }

  // ------------------------------------------------ What the loop promises

  /** The length of the longest prefix of the script whose exchanges are all retryable. */
  function RetryablePrefix(cfg: Config, script: seq<Attempt>): nat {
    if script == [] || !Retryable(cfg, script[0].exchange) then 0
    else 1 + RetryablePrefix(cfg, script[1..])
  }

  function Min(a: nat, b: nat): nat {
    if a < b then a else b
  }

  ghost predicate Undisturbed(script: seq<Attempt>) {
    forall a | a in script :: !a.abandoned && !a.abandonedInBackoff
  }

  /**
   Whenever the loop returns an answer of the upstream, it dispatched exactly
   1 + min(maxRetries, retryable prefix) times and returns the last answer. Refusal
   and cancellation only ever shorten it; a call ends in cancellation only where
   somebody left, and in refusal only where there is a breaker.
   */
  lemma {:induction false} DispatchCount(cfg: Config, b: Option<State>, script: seq<Attempt>, i: nat)
    requires i <= cfg.maxRetries < |script|
    ensures var o := RetryFrom(cfg, b, script, i);
            var full := 1 + Min(cfg.maxRetries - i, RetryablePrefix(cfg, script[i..]));
            && o.dispatched <= full
            && (o.answer.Some? ==>
                  && o.dispatched == full
                  && i + full - 1 <= cfg.maxRetries
                  && o.answer.value == script[i + full - 1].exchange
                  && o.resp == DoCall(cfg.policy, o.answer.value))
            && (o.answer.None? ==> o.resp in {Refusal(Canceled), Refusal(CircuitOpen)})
            && (o.answer.None? && b.None? ==> o.resp == Refusal(Canceled))
            && (o.answer.None? && Undisturbed(script) ==> o.resp == Refusal(CircuitOpen))
    decreases cfg.maxRetries - i
  {
    assert script[i..][0] == script[i] && script[i..][1..] == script[i + 1..];
    assert script[i] in script;
    RetryMeaning(cfg, script[i].exchange);
    if i < cfg.maxRetries {
      DispatchCount(cfg, Asked(b, script[i].askAt), script, i + 1);
    }
  }

  /** With nobody cancelling and no breaker, or a closed one, the call is always answered. */
  lemma {:induction false} UndisturbedIsAnswered(cfg: Config, b: Option<State>, script: seq<Attempt>, i: nat)
    requires i <= cfg.maxRetries < |script|
    requires Undisturbed(script) && (b.Some? ==> b.value.phase.Closed?)
    ensures RetryFrom(cfg, b, script, i).answer.Some?
    decreases cfg.maxRetries - i
  {
    assert script[i] in script;
    if i < cfg.maxRetries {
      UndisturbedIsAnswered(cfg, b, script, i + 1);
    }
  }

  lemma NonIdempotentDispatchesOnce(cfg: Config, b: Option<State>, script: seq<Attempt>)
    requires cfg.maxRetries < |script|
    requires !Idempotent(cfg.httpMethod)
    ensures RetryFrom(cfg, b, script, 0).dispatched <= 1
  {
    RetryMeaning(cfg, script[0].exchange);
  }

  // -------------------------------- The loop is a run of the step system

  /** From attempt i on, the script's times are in order, between now and end. */
  ghost predicate Punctual(now: int, end: int, script: seq<Attempt>, i: nat) {
    && (forall j | i <= j < |script| :: now <= script[j].askAt <= end)
    && (forall j, k | i <= j < k < |script| :: script[j].askAt <= script[k].askAt)
  }

  lemma PunctualNext(now: int, end: int, script: seq<Attempt>, i: nat)
    requires i < |script| && Punctual(now, end, script, i)
    ensures now <= script[i].askAt <= end && Punctual(script[i].askAt, end, script, i + 1)
  {
  }

  /** Waiting, asking and being answered, as steps of the interleaved system. */
  lemma AttemptIsRun(w: World, r: Run, c: nat, askAt: int, signal: Signal, again: bool) returns (r': Run)
    requires Valid(w, r) && c in Final(w, r).calls && Final(w, r).calls[c].Ready?
    requires Final(w, r).now <= askAt && (again ==> signal != NoSignal)
    ensures var before := Final(w, r);
            var i := before.calls[c].attempt;
            var ok := Admits(before.breaker, askAt);
            && Valid(w, r')
            && Admissions(w, r') == Admissions(w, r) + (if ok then 1 else 0)
            && Final(w, r') == World(
                 AfterAllow(before.breaker, askAt),
                 before.calls[c := if !ok then Reporting(NoSignal)
                                   else if again && i < before.maxRetries then Ready(i + 1)
                                   else Reporting(signal)],
                 askAt, before.maxRetries)
  {
    var before := Final(w, r);
    r' := Extend(w, r, Tick(askAt));
    r' := Extend(w, r', Ask(c));
    if Admits(before.breaker, askAt) {
      r' := Extend(w, r', Answer(c, signal, again));
    }
    assert Final(w, r').calls.Keys == before.calls.Keys;
  }

  ghost predicate Follows(cfg: Config, before: World, c: nat, o: Outcome, after: World) {
    && Some(after.breaker) == o.breaker
    && after.calls == before.calls[c := Reporting(SignalOf(o.resp.err))]
    && after.maxRetries == cfg.maxRetries
  }

  /** Attempt i is made and the loop goes on to the next. */
  predicate GoesOn(cfg: Config, b: State, script: seq<Attempt>, i: nat)
    requires i <= cfg.maxRetries < |script|
  {
    var a := script[i];
    && !a.abandoned && Admits(b, a.askAt) && i < cfg.maxRetries
    && ShouldRetry(cfg, DoCall(cfg.policy, a.exchange))
    && !(cfg.backoff > 0 && a.abandonedInBackoff)
  }

  /** The loop from attempt i on, as a continuation r' of run r. */
  ghost predicate LoopRuns(cfg: Config, w: World, r: Run, c: nat, script: seq<Attempt>, i: nat, end: int, r': Run)
    requires i <= cfg.maxRetries < |script|
  {
    var o := RetryFrom(cfg, Some(Final(w, r).breaker), script, i);
    && Valid(w, r') && Follows(cfg, Final(w, r), c, o, Final(w, r'))
    && Admissions(w, r') == Admissions(w, r) + o.dispatched
    && Final(w, r').now <= end
  }

  lemma LastAttemptRuns(cfg: Config, w: World, r: Run, c: nat, script: seq<Attempt>, i: nat, end: int)
    returns (r': Run)
    requires i <= cfg.maxRetries < |script|
    requires Valid(w, r) && Final(w, r).maxRetries == cfg.maxRetries
    requires c in Final(w, r).calls && Final(w, r).calls[c] == Ready(i)
    requires Final(w, r).now <= script[i].askAt <= end
    requires !GoesOn(cfg, Final(w, r).breaker, script, i)
    ensures LoopRuns(cfg, w, r, c, script, i, end, r')
  {
    var a := script[i];
    if a.abandoned {
      r' := Extend(w, r, Cancel(c));
    } else {
      var resp := DoCall(cfg.policy, a.exchange);
      var again := ShouldRetry(cfg, resp);
      r' := AttemptIsRun(w, r, c, a.askAt, SignalOf(resp.err), again);
      if Admits(Final(w, r).breaker, a.askAt) && again && i < cfg.maxRetries {
        r' := Extend(w, r', Cancel(c));
      }
    }
  }

  /**
   Whatever other calls are under way, the loop's own steps, taken in one go, are
   steps of the interleaved system: it dispatches as often as it is admitted and ends
   ready to report exactly one outcome.
   */
  lemma {:induction false} LoopIsRun(cfg: Config, w: World, r: Run, c: nat, script: seq<Attempt>, i: nat,
                                     end: int)
    returns (r': Run)
    requires i <= cfg.maxRetries < |script|
    requires Valid(w, r) && Final(w, r).maxRetries == cfg.maxRetries
    requires c in Final(w, r).calls && Final(w, r).calls[c] == Ready(i)
    requires Final(w, r).now <= end && Punctual(Final(w, r).now, end, script, i)
    ensures LoopRuns(cfg, w, r, c, script, i, end, r')
    decreases cfg.maxRetries - i
  {
    PunctualNext(Final(w, r).now, end, script, i);
    if GoesOn(cfg, Final(w, r).breaker, script, i) {
      var resp := DoCall(cfg.policy, script[i].exchange);
      r' := AttemptIsRun(w, r, c, script[i].askAt, SignalOf(resp.err), true);
      r' := LoopIsRun(cfg, w, r', c, script, i + 1, end);
    } else {
      r' := LastAttemptRuns(cfg, w, r, c, script, i, end);
    }
  }

  // --------------------------------- One call among many, in any order

  datatype Ending = Ending(resp: Response, dispatched: nat)

  /** The loop, given what the breaker says to each attempt. */
  function Loop(cfg: Config, ok: seq<bool>, script: seq<Attempt>, i: nat): Ending
    requires i <= cfg.maxRetries < |script| == |ok|
    decreases cfg.maxRetries - i
  {
    var a := script[i];
    if a.abandoned then Ending(Refusal(Canceled), 0)
    else if !ok[i] then Ending(Refusal(CircuitOpen), 0)
    else
      var resp := DoCall(cfg.policy, a.exchange);
      if i == cfg.maxRetries || !ShouldRetry(cfg, resp) then Ending(resp, 1)
      else if cfg.backoff > 0 && a.abandonedInBackoff then Ending(Refusal(Canceled), 1)
      else
        var rest := Loop(cfg, ok, script, i + 1);
        Ending(rest.resp, rest.dispatched + 1)
  }

  /** A breaker that nobody else uses says this to the attempts from i on. */
  ghost predicate Says(b: Option<State>, ok: seq<bool>, script: seq<Attempt>, i: nat)
    requires |ok| == |script|
    decreases |script| - i
  {
    i < |script| ==>
      ok[i] == !Refuses(b, script[i].askAt) && Says(Asked(b, script[i].askAt), ok, script, i + 1)
  }

  /** On its own, the loop with a breaker is the loop given that breaker's answers. */
  lemma {:induction false} AloneIsLoop(cfg: Config, b: Option<State>, ok: seq<bool>, script: seq<Attempt>, i: nat)
    requires i <= cfg.maxRetries < |script| == |ok| && Says(b, ok, script, i)
    ensures var o := RetryFrom(cfg, b, script, i); Ending(o.resp, o.dispatched) == Loop(cfg, ok, script, i)
    decreases cfg.maxRetries - i
  {
    if i < cfg.maxRetries {
      AloneIsLoop(cfg, Asked(b, script[i].askAt), ok, script, i + 1);
    }
  }

  predicate LeftInBackoff(cfg: Config, script: seq<Attempt>, i: nat)
    requires i <= |script|
  {
    i > 0 && cfg.backoff > 0 && script[i - 1].abandonedInBackoff
  }

  /** Where an action concerns call c, it is what the script says: nothing is asked of other calls. */
  ghost predicate Obeys(cfg: Config, ok: seq<bool>, script: seq<Attempt>, w: World, c: nat, a: Action)
    requires Enabled(w, a) && |ok| == |script|
  {
    (a in {Cancel(c), Ask(c)} || (a.Answer? && a.c == c)) && w.calls[c].attempt < |script| ==>
      var i := w.calls[c].attempt;
      var gone := script[i].abandoned || LeftInBackoff(cfg, script, i);
      match a
      case Cancel(_) => gone
      case Ask(_) => !gone && ok[i] == Admits(w.breaker, w.now)
      case Answer(_, signal, retryable) =>
        var resp := DoCall(cfg.policy, script[i].exchange);
        signal == SignalOf(resp.err) && retryable == ShouldRetry(cfg, resp)
      case _ => true
  }

  ghost predicate Obedient(cfg: Config, ok: seq<bool>, script: seq<Attempt>, w: World, r: Run, c: nat)
    requires |ok| == |script|
  {
    && Valid(w, r)
    && (r.After? ==> Obedient(cfg, ok, script, w, r.past, c) && Obeys(cfg, ok, script, Final(w, r.past), c, r.last))
  }

  /** Attempts of call c let through since it began. */
  function AdmissionsOf(w: World, r: Run, c: nat): nat {
    match r
    case Nothing => 0
    case After(past, a) =>
      if a == Begin(c) then 0
      else AdmissionsOf(w, past, c) + if a == Ask(c) && Lets(Final(w, past), a) then 1 else 0
  }

  /** The loop's outcome, seen from attempt i with i dispatches made. */
  function Onward(cfg: Config, ok: seq<bool>, script: seq<Attempt>, i: nat): Ending
    requires i <= cfg.maxRetries < |script| == |ok|
  {
    if LeftInBackoff(cfg, script, i) then Ending(Refusal(Canceled), i)
    else
      var rest := Loop(cfg, ok, script, i);
      Ending(rest.resp, i + rest.dispatched)
  }

  /** Where the loop is, by the state of its call. */
  ghost predicate InLoop(cfg: Config, ok: seq<bool>, script: seq<Attempt>, call: Call, admitted: nat)
    requires cfg.maxRetries < |script| == |ok|
  {
    var all := Loop(cfg, ok, script, 0);
    match call
    case Ready(i) => i <= cfg.maxRetries && admitted == i && all == Onward(cfg, ok, script, i)
    case InFlight(i) =>
      && i <= cfg.maxRetries && admitted == i + 1 && all == Onward(cfg, ok, script, i)
      && ok[i] && !script[i].abandoned && !LeftInBackoff(cfg, script, i)
    case Reporting(signal) => signal == SignalOf(all.resp.err) && admitted == all.dispatched
  }

  lemma InLoopStep(cfg: Config, ok: seq<bool>, script: seq<Attempt>, w: World, a: Action, c: nat, admitted: nat)
    requires cfg.maxRetries < |script| == |ok| && w.maxRetries == cfg.maxRetries
    requires Enabled(w, a) && Obeys(cfg, ok, script, w, c, a)
    requires c in w.calls && InLoop(cfg, ok, script, w.calls[c], admitted) && c in Next(w, a).calls
    ensures InLoop(cfg, ok, script, Next(w, a).calls[c], admitted + if a == Ask(c) && Lets(w, a) then 1 else 0)
  {
    if a == Cancel(c) || a == Ask(c) || (a.Answer? && a.c == c) {
      var i := w.calls[c].attempt;
      assert Onward(cfg, ok, script, i) == Loop(cfg, ok, script, 0);
    } else {
      assert Next(w, a).calls[c] == w.calls[c];
    }
  }

  /**
   In every interleaving with any number of other calls, a call takes the steps of
   the loop: it is let through as often as the loop dispatches, and what it reports
   is the outcome the loop returns.
   */
  lemma {:induction false} LoopInAnyRun(cfg: Config, ok: seq<bool>, script: seq<Attempt>, w: World, r: Run, c: nat)
    requires cfg.maxRetries < |script| == |ok| && w.maxRetries == cfg.maxRetries && c !in w.calls
    requires Obedient(cfg, ok, script, w, r, c)
    ensures Final(w, r).maxRetries == cfg.maxRetries
    ensures c in Final(w, r).calls ==> InLoop(cfg, ok, script, Final(w, r).calls[c], AdmissionsOf(w, r, c))
  {
    if r.After? {
      LoopInAnyRun(cfg, ok, script, w, r.past, c);
      var m := Final(w, r.past);
      if c in m.calls && c in Final(w, r).calls {
        InLoopStep(cfg, ok, script, m, r.last, c, AdmissionsOf(w, r.past, c));
      }
    }
  }

  // ------------------------------- What real answers do to the breaker

  /** The client of this exchange stayed until its end. */
  predicate Patient(x: Exchange) {
    x != Failed(ClientGone) && !(x.Answered? && x.fault.ClientLeft?)
  }

  /** What exchange x says to the breaker and to the retry loop. */
  predicate Tells(cfg: Config, x: Exchange, signal: Signal, retryable: bool) {
    var resp := DoCall(cfg.policy, x);
    Patient(x) && signal == SignalOf(resp.err) && retryable == ShouldRetry(cfg, resp)
  }

  /** Every answer of the run is one some exchange gives under this configuration. */
  ghost predicate AllTold(cfg: Config, r: Run) {
    r.After? ==>
      AllTold(cfg, r.past) &&
      (r.last.Answer? ==> exists x :: Tells(cfg, x, r.last.signal, r.last.retryable))
  }

  /** Each signal can be given without a retry, and a failure with one if the method is idempotent. */
  lemma Teller(cfg: Config, signal: Signal, retryable: bool) returns (x: Exchange)
    requires retryable ==> signal == Failure && Idempotent(cfg.httpMethod)
    ensures Tells(cfg, x, signal, retryable)
  {
    x := if retryable then Failed(Network)
         else match signal
              case Success => Answered(301, map[], "", Complete)
              case Failure => Answered(200, map[], "", Broken)
              case NoSignal => Answered(200, map[], "", OutOfTime);
  }

  lemma {:induction false} ModestIsTold(cfg: Config, r: Run, retries: bool)
    requires Modest(r, retries) && (retries ==> Idempotent(cfg.httpMethod))
    ensures AllTold(cfg, r)
  {
    if r.After? {
      ModestIsTold(cfg, r.past, retries);
      if r.last.Answer? {
        var x := Teller(cfg, r.last.signal, r.last.retryable);
      }
    }
  }

  lemma {:induction false} NonIdempotentIsModest(cfg: Config, r: Run)
    requires AllTold(cfg, r) && !Idempotent(cfg.httpMethod)
    ensures Modest(r, false)
  {
    if r.After? {
      NonIdempotentIsModest(cfg, r.past);
    }
  }

  ghost predicate WedgedAfter(cfg: Config, w: World, r: Run) {
    Signalling(w, r) && AllTold(cfg, r) && Wedged(Final(w, r))
  }

  /**
   However calls overlap, a history in which every admitted call signals can wedge
   the breaker for good if and only if the upstream's calls are ever retried: the
   policy allows a retry and the method is idempotent.
   */
  lemma WedgeReachableExactly(cfg: Config, threshold: int, resetTimeout: int)
    ensures var w := NewWorld(threshold, resetTimeout, cfg.maxRetries);
            (exists r :: WedgedAfter(cfg, w, r)) <==> cfg.maxRetries >= 1 && Idempotent(cfg.httpMethod)
  {
    var w := NewWorld(threshold, resetTimeout, cfg.maxRetries);
    if cfg.maxRetries >= 1 && Idempotent(cfg.httpMethod) {
      var r := WedgeRun(threshold, resetTimeout, cfg.maxRetries, 2);
      ModestIsTold(cfg, r, true);
      assert WedgedAfter(cfg, w, r);
    } else {
      forall r | WedgedAfter(cfg, w, r) ensures false {
        if !Idempotent(cfg.httpMethod) {
          NonIdempotentIsModest(cfg, r);
        }
        NoRetryRecovers(threshold, resetTimeout, cfg.maxRetries, r);
      }
    }
  }

  /** With at most atOnce calls at a time: two retries, or one retry and two calls, are needed. */
  lemma WedgeReachableAtOnce(cfg: Config, threshold: int, resetTimeout: int, atOnce: nat)
    requires atOnce >= 1
    ensures var w := NewWorld(threshold, resetTimeout, cfg.maxRetries);
            (exists r :: WedgedAfter(cfg, w, r) && Limited(w, r, atOnce)) <==>
            Idempotent(cfg.httpMethod) && (cfg.maxRetries >= 2 || (cfg.maxRetries >= 1 && atOnce >= 2))
  {
    var w := NewWorld(threshold, resetTimeout, cfg.maxRetries);
    if Idempotent(cfg.httpMethod) && (cfg.maxRetries >= 2 || (cfg.maxRetries >= 1 && atOnce >= 2)) {
      var r := WedgeRun(threshold, resetTimeout, cfg.maxRetries, atOnce);
      ModestIsTold(cfg, r, true);
      assert WedgedAfter(cfg, w, r) && Limited(w, r, atOnce);
    } else {
      forall r | WedgedAfter(cfg, w, r) && Limited(w, r, atOnce) ensures false {
        if cfg.maxRetries == 1 && atOnce == 1 {
          AtMostOneRetryRecovers(threshold, resetTimeout, cfg.maxRetries, r);
        } else {
          if !Idempotent(cfg.httpMethod) {
            NonIdempotentIsModest(cfg, r);
          }
          NoRetryRecovers(threshold, resetTimeout, cfg.maxRetries, r);
        }
      }
    }
  }

  /**
   Without the assumption that admitted calls signal, every configuration can be
   wedged, one call at a time and with every client staying: two probes whose bodies
   stall past the deadline are enough.
   */
  lemma StalledBodiesWedge(cfg: Config, threshold: int, resetTimeout: int) returns (r: Run)
    ensures var w := NewWorld(threshold, resetTimeout, cfg.maxRetries);
            Valid(w, r) && Limited(w, r, 1) && AllTold(cfg, r) && Wedged(Final(w, r))
  {
    r := SilentProbesWedge(threshold, resetTimeout, cfg.maxRetries);
    ModestIsTold(cfg, r, false);
  }

  ghost predicate LateSuccessAfter(cfg: Config, w: World, r: Run, c: nat, atOnce: nat) {
    Valid(w, r) && AllTold(cfg, r) && Limited(w, r, atOnce) && LateSuccess(Final(w, r), c)
  }

  /** A success can reach an open breaker if and only if two calls may be under way at once. */
  lemma LateSuccessExactly(cfg: Config, threshold: int, resetTimeout: int, atOnce: nat)
    ensures var w := NewWorld(threshold, resetTimeout, cfg.maxRetries);
            (exists r, c :: LateSuccessAfter(cfg, w, r, c, atOnce)) <==> atOnce >= 2
  {
    var w := NewWorld(threshold, resetTimeout, cfg.maxRetries);
    if atOnce >= 2 {
      var r := LateSuccessRun(threshold, resetTimeout, cfg.maxRetries, atOnce);
      ModestIsTold(cfg, r, false);
      assert LateSuccessAfter(cfg, w, r, 0, atOnce);
    } else {
      forall r, c | LateSuccessAfter(cfg, w, r, c, atOnce) ensures false {
        NoLateSuccess(w, r, c, atOnce);
      }
    }
  }

  // ------------------------------------------------------ The whole call

  function Reported(b: Option<State>, signal: Signal, now: int): Option<State> {
    match b
    case None => None
    case Some(s) =>
      match signal
      case NoSignal => b
      case Success => Some(AfterSuccess(s))
      case Failure => Some(AfterFailure(s, now))
  }

  function ApplyPolicy(p: Policy, resp: Response): Response {
    if resp.err.Some? && !PropsOf(resp.err.value).hasBody then resp
    else if !(p.requireBody && resp.body == "") then resp
    else if resp.err.None? || resp.err.value in {ClientError, Redirect} then
      resp.(err := Some(PolicyViolation))
    else resp
  }

  method Call(cfg: Config, breaker: CircuitBreaker?, script: seq<Attempt>, reportAt: int)
    returns (resp: Response, dispatched: nat)
    requires cfg.maxRetries < |script|
    modifies breaker
    ensures var o := RetryFrom(cfg, old(ValueOf(breaker)), script, 0);
            && resp == ApplyPolicy(cfg.policy, o.resp)
            && dispatched == o.dispatched
            && ValueOf(breaker) == Reported(o.breaker, SignalOf(o.resp.err), reportAt)
  {
    resp, dispatched := CallWithRetry(cfg, breaker, script);
    if breaker != null {
      match SignalOf(resp.err) {
        case Failure => breaker.OnFailure(reportAt);
        case Success => breaker.OnSuccess();
        case NoSignal =>
      }
    }
    // After the breaker update: a missing body is no sign of an unhealthy upstream.
    resp := ApplyPolicy(cfg.policy, resp);
  }

  /** A whole call, from its start to its report, as a run of the interleaved system. */
  lemma CallIsRun(cfg: Config, w: World, r: Run, c: nat, script: seq<Attempt>, reportAt: int)
    returns (r': Run)
    requires cfg.maxRetries < |script|
    requires Valid(w, r) && Final(w, r).maxRetries == cfg.maxRetries && c !in Final(w, r).calls
    requires Punctual(Final(w, r).now, reportAt, script, 0)
    ensures var before := Final(w, r);
            var o := RetryFrom(cfg, Some(before.breaker), script, 0);
            && Valid(w, r')
            && Admissions(w, r') == Admissions(w, r) + o.dispatched
            && Final(w, r').calls == before.calls
            && Some(Final(w, r').breaker) == Reported(o.breaker, SignalOf(o.resp.err), reportAt)
  {
    var before := Final(w, r);
    r' := Extend(w, r, Begin(c));
    assert before.now <= script[0].askAt <= reportAt;
    r' := LoopIsRun(cfg, w, r', c, script, 0, reportAt);
    r' := Extend(w, r', Tick(reportAt));
    r' := Extend(w, r', Report(c));
    assert Final(w, r').calls == before.calls;
  }

  /**
   Every response an upstream call can hand to the aggregator: its error kind
   agrees with its status.
   */
  predicate WellFormed(resp: Response) {
    match resp.err
    case None => resp.status < 300
    case Some(ClientError) => 400 <= resp.status < 500
    case Some(Redirect) => 300 <= resp.status < 400
    case Some(BadStatus) => resp.status >= 500
    case _ => true
  }

  lemma CallIsWellFormed(cfg: Config, b: Option<State>, script: seq<Attempt>)
    requires cfg.maxRetries < |script|
    ensures WellFormed(ApplyPolicy(cfg.policy, RetryFrom(cfg, b, script, 0).resp))
  {
    DispatchCount(cfg, b, script, 0);
  }
}
