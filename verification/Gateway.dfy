/**
 The response a client receives (router.go): a single upstream's answer proxied
 as it is, or several answers aggregated and reduced to one status.
 */
module Gateway {
  import opened Options
  import opened Breaker
  import opened BreakerCalls
  import opened UpstreamErrors
  import opened Upstream
  import opened ErrorStatus
  import opened MapMerge
  import opened Aggregation
  import opened AggregationMeaning

  datatype Body =
    | Empty
    | Problem(errors: seq<Code>, title: Code, status: int)
    | Proxied(bytes: string)
    | Payload(data: Data)

  datatype HttpResponse = HttpResponse(status: int, body: Body, partialErrors: seq<Code>)

  // ------------------------------------------------------ One upstream

  function BuildProxyResponse(resp: Response): HttpResponse {
    if resp.err.None? || PropsOf(resp.err.value).propagatable then
      HttpResponse(resp.status, Proxied(resp.body), [])
    else
      var code := CodeOf(resp.err);
      var status := StatusFromErrors([code]);
      HttpResponse(status, Problem([code], Primary([code]), status), [])
  }

  /** A real answer the policy accepts. */
  predicate Forwardable(p: Policy, x: Exchange) {
    && x.Answered? && x.status < 500
    && x.fault.Complete?
    && (p.maxBody > 0 ==> |x.delivered| <= p.maxBody)
    && (p.requireBody ==> x.delivered != "")
  }

  /** The code an exchange is reported under, told from the exchange alone; None for a clean success. */
  function Verdict(p: Policy, x: Exchange): Option<Code> {
    match x
    case Unbuildable => Some(InternalError)
    case Failed(ClientGone) => Some(Aborted)
    case Failed(_) => Some(UpstreamUnavailable)
    case Answered(status, _, delivered, fault) =>
      if p.maxBody > 0 && |delivered| > p.maxBody then Some(UpstreamBodyTooLarge)
      else if fault.Broken? then Some(InternalError)
      else if !fault.Complete? then Some(Aborted)
      else if status >= 500 then Some(UpstreamError)
      else if p.requireBody && delivered == "" then Some(UpstreamMalformed)
      else if status >= 400 then Some(UpstreamClientError)
      else if status >= 300 then Some(UpstreamRedirect)
      else None
  }

  lemma VerdictMeaning(p: Policy, x: Exchange)
    ensures var resp := ApplyPolicy(p, DoCall(p, x));
            && (resp.err.None? <==> Verdict(p, x).None?)
            && (resp.err.Some? ==> Verdict(p, x) == Some(CodeOf(resp.err)))
  {
  }

  /** The fault lies with the gateway: no request could be built, or the body broke off within the limit. */
  predicate OwnFault(p: Policy, x: Exchange) {
    x.Unbuildable? || (Verdict(p, x) != Some(UpstreamBodyTooLarge) && x.Answered? && x.fault.Broken?)
  }

  /** The client left, or time ran out inside the body, within the limit. */
  predicate CutShort(p: Policy, x: Exchange) {
    || x == Failed(ClientGone)
    || (Verdict(p, x) != Some(UpstreamBodyTooLarge) && x.Answered? && x.fault in {OutOfTime, ClientLeft})
  }

  /** The problem document for one error. */
  ghost predicate ProblemFor(c: Code, status: int, out: HttpResponse) {
    out == HttpResponse(status, Problem([c], c, status), [])
  }

  ghost predicate GatewayProblem(out: HttpResponse) {
    out.body.Problem? && out.status == out.body.status && out.status in {500, 502, 503}
  }

  lemma ExchangeMeaning(p: Policy, x: Exchange)
    ensures var out := BuildProxyResponse(ApplyPolicy(p, DoCall(p, x)));
            if Forwardable(p, x) then out == HttpResponse(x.status, Proxied(x.delivered), [])
            else
              && Verdict(p, x).Some?
              && ProblemFor(Verdict(p, x).value, if OwnFault(p, x) then 500 else if CutShort(p, x) then 503 else 502, out)
  {
    var resp := ApplyPolicy(p, DoCall(p, x));
    if !Forwardable(p, x) {
      assert resp.err.Some? && !PropsOf(resp.err.value).propagatable;
      VerdictMeaning(p, x);
      SingletonStatus(CodeOf(resp.err));
    }
  }

  /**
   The same deadline, told apart by whether the headers had arrived. Before them it
   is a timeout: a failure for the breaker, retried if the method is idempotent, and
   502 for the client. Inside the body it passes for a cancellation: no signal, no
   retry, and 503.
   */
  lemma DeadlineMeaning(cfg: Config, x: Exchange)
    requires x == Failed(Deadline) || (x.Answered? && x.fault.OutOfTime?)
    requires x.Answered? && cfg.policy.maxBody > 0 ==> |x.delivered| <= cfg.policy.maxBody
    ensures var resp := DoCall(cfg.policy, x);
            var out := BuildProxyResponse(ApplyPolicy(cfg.policy, resp));
            && SignalOf(resp.err) == (if x.Failed? then Failure else NoSignal)
            && (ShouldRetry(cfg, resp) <==> x.Failed? && Idempotent(cfg.httpMethod))
            && out.status == (if x.Failed? then 502 else 503)
  {
    SingletonStatus(UpstreamUnavailable);
    SingletonStatus(Aborted);
  }

  /**
   A single-upstream flow, end to end: the client gets the upstream's own status
   and body exactly when the loop returns an answer and that answer is
   forwardable; otherwise a problem document with status 500, 502 or 503.
   */
  lemma ProxyMeaning(cfg: Config, b: Option<State>, script: seq<Attempt>)
    requires cfg.maxRetries < |script|
    ensures var o := RetryFrom(cfg, b, script, 0);
            var out := BuildProxyResponse(ApplyPolicy(cfg.policy, o.resp));
            && (if o.answer.Some? && Forwardable(cfg.policy, o.answer.value) then
                  out == HttpResponse(o.answer.value.status, Proxied(o.answer.value.delivered), [])
                else GatewayProblem(out))
            && (o.answer.None? && b.None? ==> ProblemFor(Aborted, 503, out))
            && (o.answer.None? && Undisturbed(script) ==> ProblemFor(UpstreamUnavailable, 502, out))
  {
    DispatchCount(cfg, b, script, 0);
    var o := RetryFrom(cfg, b, script, 0);
    if o.answer.Some? {
      ExchangeMeaning(cfg.policy, o.answer.value);
    } else {
      SingletonStatus(Aborted);
      SingletonStatus(UpstreamUnavailable);
    }
  }

  // ---------------------------------------------------- Many upstreams

  function ResolveStatus(a: Aggregated): int {
    if a.partial then 206
    else if a.status != 0 then a.status
    else StatusFromErrors(a.errors)
  }

  function BuildResponse(a: Aggregated): HttpResponse {
    var status := ResolveStatus(a);
    if status == 204 || status == 304 then HttpResponse(status, Empty, [])
    else if a.errors != [] && !a.partial then
      HttpResponse(status, Problem(a.errors, Primary(a.errors), status), [])
    else HttpResponse(status, Payload(a.data), if a.partial then a.errors else [])
  }

  /** Every status an aggregating flow can end with. */
  predicate Expected(status: int) {
    status in {200, 206, 409, 500, 502, 503} || 400 <= status < 500
  }

  lemma {:induction false} ProblemsMeaning(decode: Decoder, rs: seq<Response>)
    ensures forall c | c in Problems(decode, rs) :: FromUpstream(c)
    ensures Problems(decode, rs) != [] <==> SomeTrouble(decode, rs)
  {
    if rs != [] {
      var rest, r := rs[..|rs| - 1], rs[|rs| - 1];
      ProblemsMeaning(decode, rest);
      assert rs == rest + [r];
      assert SomeTrouble(decode, rs) <==> SomeTrouble(decode, rest) || Troubled(decode)(r);
      assert UpstreamMalformed == CodeOf(Some(PolicyViolation));
      if r.err.Some? {
        assert CodeOf(r.err) == CodeOf(Some(r.err.value));
      }
    }
  }

  /** Codes of upstream failures reduce to 500, 502 or 503, before and after deduplication. */
  lemma DedupedStatuses(es: seq<Code>)
    requires forall c | c in es :: FromUpstream(c)
    ensures StatusFromErrors(Deduped(es)) == StatusFromErrors(es)
    ensures es != [] ==> Deduped(es) != [] && StatusFromErrors(es) in {500, 502, 503}
  {
    DedupeKeepsStatus(es);
    if es != [] {
      DedupeKeepsPrimary(es);
      UpstreamStatuses(es);
    }
  }

  lemma SingletonStatus(c: Code)
    ensures StatusFromErrors([c]) == StatusFor(c)
  {
  }

  lemma FailedStatus(rs: seq<Response>)
    requires AllWellFormed(rs) && SomeFailed(rs)
    ensures ResolveStatus(AllFailed(rs)) ==
            if SharedStatus(rs) != 0 then SharedStatus(rs) else StatusFromErrors(Codes(rs))
    ensures StatusFromErrors(Codes(rs)) in {500, 502, 503}
    ensures AllFailed(rs).errors != []
  {
    CodesExist(rs);
    DedupedStatuses(Codes(rs));
  }

  /**
   Array strategy, best effort off, something failed: the status is the client
   error s exactly when every failed upstream answered s; otherwise it is the
   status of the highest-priority error among all failures, deduplicated or not.
   */
  lemma ArrayStatus(plan: Plan, rs: seq<Response>, encodes: bool, s: int)
    requires AllWellFormed(rs) && !plan.bestEffort && SomeFailed(rs)
    requires 400 <= s < 500
    ensures var status := ResolveStatus(Arrayed(plan, rs, encodes));
            && (status == s <==> AllClientErrors(rs, s))
            && (!(400 <= status < 500) ==> status == StatusFromErrors(Codes(rs)))
  {
    FailedStatus(rs);
    SharedStatusMeaning(rs, s);
    var r :| r in rs && r.err.Some?;
  }

  /**
   Merging agrees with the array strategy on failures, unless an earlier upstream
   sent a malformed body or a conflicting key.
   */
  lemma MergeFailsLikeArray(decode: Decoder, plan: Plan, rs: seq<Response>, encodes: bool, a: Aggregated, i: int)
    requires !plan.bestEffort && IsMerged(decode, plan, rs, encodes, a)
    requires FirstBlock(decode, plan, rs, i)
    ensures rs[i].err.Some? ==> a == Arrayed(plan, rs, encodes)
    ensures rs[i].err.None? && Malformed(decode, rs[i]) ==> ProblemFor(UpstreamMalformed, 502, BuildResponse(a))
    ensures rs[i].err.None? && !Malformed(decode, rs[i]) ==> ProblemFor(ValueConflict, 409, BuildResponse(a))
  {
    var c :| CollectMeaning(decode, plan, rs, c) && a == MergeResult(rs, encodes, c);
    var j :| FirstBlock(decode, plan, rs, j) && c.resp == GivenUp(decode, rs, j);
    FirstBlockUnique(decode, plan, rs, i, j);
    SingletonStatus(UpstreamMalformed);
    SingletonStatus(ValueConflict);
    assert rs[i] in rs;
  }

  /** A merge that runs to its end: its status, told by what the upstreams answered. */
  lemma MergeStatus(decode: Decoder, plan: Plan, rs: seq<Response>, a: Aggregated)
    requires IsMerged(decode, plan, rs, true, a) && !Blocked(decode, plan, rs)
    ensures var trouble := SomeTrouble(decode, rs);
            && (ResolveStatus(a) == 206 <==> trouble && SomeSucceeded(rs))
            && (ResolveStatus(a) == 200 <==> !trouble)
            && (trouble && !SomeSucceeded(rs) ==>
                  ResolveStatus(a) == StatusFromErrors(Codes(rs)) && ResolveStatus(a) in {500, 502, 503})
  {
    BlockedExactly(decode, plan, rs);
    var c :| CollectMeaning(decode, plan, rs, c) && a == MergeResult(rs, true, c);
    ProblemsMeaning(decode, rs);
    if !SomeSucceeded(rs) {
      ProblemsOfFailures(decode, rs);
    }
    DedupedStatuses(Problems(decode, rs));
  }

  /** Namespacing, best effort off, something failed: like the array, but the first failure stands for all. */
  lemma NamespaceStatus(names: seq<string>, plan: Plan, rs: seq<Response>, encodes: bool, n: int, s: int)
    requires AllWellFormed(rs) && |names| == |rs| && !plan.bestEffort && 400 <= s < 500
    requires 0 <= n < |rs| && rs[n].err.Some? && !SomeFailed(rs[..n])
    ensures var a := Namespaced(names, plan, rs, encodes);
            && a.errors == [CodeOf(rs[n].err)] && a.data.NoData? && !a.partial
            && (ResolveStatus(a) == s <==> AllClientErrors(rs, s))
            && (!(400 <= ResolveStatus(a) < 500) ==>
                  ResolveStatus(a) == (if rs[n].err.value in {Internal, ReadError} then 500
                                       else if rs[n].err.value.Canceled? then 503 else 502))
  {
    assert rs[n] in rs;
    FirstCode(rs, n);
    SharedStatusMeaning(rs, s);
    SingletonStatus(CodeOf(rs[n].err));
  }

  /** Data the encoder rejects: an internal error, except that an array is taken for a malformed answer. */
  lemma UnencodableResponse(decode: Decoder, names: seq<string>, plan: Plan, rs: seq<Response>, a: Aggregated)
    requires AllWellFormed(rs) && |names| == |rs|
    requires Aggregates(decode, names, plan, rs, false, a)
    requires if plan.strategy.Merge? then !Blocked(decode, plan, rs)
             else plan.bestEffort || !SomeFailed(rs)
    ensures if plan.strategy.Array? then ProblemFor(UpstreamMalformed, 502, BuildResponse(a))
            else ProblemFor(InternalError, 500, BuildResponse(a))
  {
    SingletonStatus(UpstreamMalformed);
    SingletonStatus(InternalError);
    BlockedExactly(decode, plan, rs);
  }

  ghost predicate Sound(a: Aggregated) {
    var out := BuildResponse(a);
    && Expected(out.status)
    && (if a.errors != [] && !a.partial then out.body == Problem(a.errors, Primary(a.errors), out.status)
        else out.body == Payload(a.data))
    && out.partialErrors == (if a.partial then a.errors else [])
    && (out.status == 206 <==> a.partial)
    && (out.status == 200 <==> a.errors == [])
  }

  lemma FixedSound()
    ensures Sound(MALFORMED) && Sound(CONFLICT) && Sound(INTERNAL)
  {
    SingletonStatus(UpstreamMalformed);
    SingletonStatus(ValueConflict);
    SingletonStatus(InternalError);
  }

  /** What it takes for a result to be sound, in terms of its fields. */
  lemma {:induction false} SoundBy(data: Data, headers: Headers, es: seq<Code>, status: int, partial: bool)
    requires status == 0 || (es != [] && 400 <= status < 500)
    requires es != [] ==> StatusFromErrors(es) in {500, 502, 503}
    requires partial ==> es != []
    ensures Sound(Aggregated(data, headers, es, status, partial))
  {
    var out := BuildResponse(Aggregated(data, headers, es, status, partial));
    assert out.status == if partial then 206 else if status != 0 then status else StatusFromErrors(es);
  }

  lemma {:induction false} AllFailedSound(rs: seq<Response>)
    requires AllWellFormed(rs) && SomeFailed(rs)
    ensures Sound(AllFailed(rs))
    ensures Codes(rs) != [] && Sound(Aggregated(NoData, map[], [Codes(rs)[0]], SharedStatus(rs), false))
  {
    CodesExist(rs);
    DedupedStatuses(Codes(rs));
    SharedStatusMeaning(rs, 0);
    SoundBy(NoData, map[], Deduped(Codes(rs)), SharedStatus(rs), false);
    assert Codes(rs)[0] in Codes(rs);
    UpstreamStatuses([Codes(rs)[0]]);
    SoundBy(NoData, map[], [Codes(rs)[0]], SharedStatus(rs), false);
  }

  lemma {:induction false} CompleteSound(data: Data, headers: Headers, es: seq<Code>, succeeded: bool)
    requires forall c | c in es :: FromUpstream(c)
    ensures Sound(Aggregated(data, headers, Deduped(es), 0, es != [] && succeeded))
  {
    DedupedStatuses(es);
    SoundBy(data, headers, Deduped(es), 0, es != [] && succeeded);
  }

  lemma MergedSound(decode: Decoder, plan: Plan, rs: seq<Response>, encodes: bool, c: Collected)
    requires AllWellFormed(rs) && CollectMeaning(decode, plan, rs, c)
    ensures Sound(MergeResult(rs, encodes, c))
  {
    FixedSound();
    if c.Early? {
      var i :| FirstBlock(decode, plan, rs, i) && c.resp == GivenUp(decode, rs, i);
      assert rs[i] in rs;
      if rs[i].err.Some? {
        AllFailedSound(rs);
      }
    } else {
      ProblemsMeaning(decode, rs);
      CompleteSound(Merged(Flat(c.fields)), Override(SuccessfulHeaders(rs)), c.errors, c.succeeded);
    }
  }

  /**
   Every strategy, every mix of answers: the status is one of the expected ones,
   so the branch for bodyless statuses is dead, and the body is a problem document
   exactly when there are errors and the result is not partial.
   */
  lemma FinalResponse(decode: Decoder, names: seq<string>, plan: Plan, rs: seq<Response>, encodes: bool,
                      a: Aggregated)
    requires AllWellFormed(rs) && |names| == |rs|
    requires Aggregates(decode, names, plan, rs, encodes, a)
    ensures var out := BuildResponse(a);
            && Expected(out.status)
            && (if a.errors != [] && !a.partial then out.body == Problem(a.errors, Primary(a.errors), out.status)
                else out.body == Payload(a.data))
            && out.partialErrors == (if a.partial then a.errors else [])
            && (out.status == 206 <==> a.partial)
            && (out.status == 200 <==> a.errors == [])
  {
    if plan.strategy.Merge? {
      var c :| CollectMeaning(decode, plan, rs, c) && a == MergeResult(rs, encodes, c);
      MergedSound(decode, plan, rs, encodes, c);
    } else {
      FixedSound();
      CodesExist(rs);
      CompleteSound(a.data, a.headers, Codes(rs), SomeSucceeded(rs));
      if SomeFailed(rs) {
        AllFailedSound(rs);
      }
    }
    assert Sound(a);
  }
}
