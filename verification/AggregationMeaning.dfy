/**
 What an aggregating flow hands back, spelled out over the upstreams' responses:
 which values stand where in the merged object, in the array and under the names,
 which errors are listed, and which headers are kept.
 */
module AggregationMeaning {
  import opened Options
  import opened Json
  import opened UpstreamErrors
  import opened Upstream
  import opened ErrorStatus
  import opened MapMerge
  import opened Aggregation

  // ------------------------------------------------------ Lists in order

  function Count(rs: seq<Response>, wanted: Response -> bool): nat {
    if rs == [] then 0 else Count(rs[..|rs| - 1], wanted) + if wanted(rs[|rs| - 1]) then 1 else 0
  }

  predicate Holds<T(==)>(out: seq<T>, at: nat, v: T) {
    at < |out| && out[at] == v
  }

  /** out has one entry per wanted response, each at the place its response has among the wanted ones. */
  ghost predicate Lists<T>(rs: seq<Response>, wanted: Response -> bool, value: Response -> T, out: seq<T>) {
    && |out| == Count(rs, wanted)
    && forall n | 0 <= n < |rs| && wanted(rs[n]) :: Holds(out, Count(rs[..n], wanted), value(rs[n]))
  }

  lemma ListsSnoc<T>(rs: seq<Response>, wanted: Response -> bool, value: Response -> T, out: seq<T>, out': seq<T>)
    requires rs != [] && Lists(rs[..|rs| - 1], wanted, value, out)
    requires var r := rs[|rs| - 1]; out' == out + if wanted(r) then [value(r)] else []
    ensures Lists(rs, wanted, value, out')
  {
    var rest := rs[..|rs| - 1];
    forall n | 0 <= n < |rs| && wanted(rs[n]) ensures Holds(out', Count(rs[..n], wanted), value(rs[n])) {
      if n < |rest| {
        assert rs[n] == rest[n] && rs[..n] == rest[..n];
        assert Holds(out, Count(rest[..n], wanted), value(rest[n]));
      }
    }
  }

  predicate Filled(r: Response) { r.err.None? && r.body != "" }

  predicate Failing(r: Response) { r.err.Some? }

  function BodyOf(r: Response): string { r.body }

  function ErrorOf(r: Response): Code { CodeOf(r.err) }

  /** The array holds the non-empty bodies of the successful responses, in the order of the upstreams. */
  lemma {:induction false} BodiesInOrder(rs: seq<Response>)
    ensures Lists(rs, Filled, BodyOf, Bodies(rs))
  {
    if rs != [] {
      BodiesInOrder(rs[..|rs| - 1]);
      ListsSnoc(rs, Filled, BodyOf, Bodies(rs[..|rs| - 1]), Bodies(rs));
    }
  }

  lemma {:induction false} CodesInOrder(rs: seq<Response>)
    ensures Lists(rs, Failing, ErrorOf, Codes(rs))
  {
    if rs != [] {
      var n := |rs| - 1;
      CodesInOrder(rs[..n]);
      PrefixSnoc(rs, n);
      assert rs[..n + 1] == rs;
      ListsSnoc(rs, Failing, ErrorOf, Codes(rs[..n]), Codes(rs));
    }
  }

  /** It failed, or it says something that is no JSON object. */
  function Troubled(decode: Decoder): Response -> bool {
    (r: Response) => r.err.Some? || (r.body != "" && decode(r.body).None?)
  }

  /** A body that is no JSON object counts as a malformed answer. */
  function TroubleOf(r: Response): Code {
    if r.err.Some? then CodeOf(r.err) else UpstreamMalformed
  }

  lemma {:induction false} ProblemsInOrder(decode: Decoder, rs: seq<Response>)
    ensures Lists(rs, Troubled(decode), TroubleOf, Problems(decode, rs))
  {
    if rs != [] {
      ProblemsInOrder(decode, rs[..|rs| - 1]);
      ListsSnoc(rs, Troubled(decode), TroubleOf, Problems(decode, rs[..|rs| - 1]), Problems(decode, rs));
    }
  }

  // -------------------------------------------------------------- Headers

  predicate HasHeader(rs: seq<Response>, k: string, i: int) {
    0 <= i < |rs| && rs[i].err.None? && k in rs[i].headers
  }

  /** Response i is the last successful one with header k, and v its value. */
  ghost predicate LastHeader(rs: seq<Response>, k: string, i: int, v: seq<string>) {
    HasHeader(rs, k, i) && v == rs[i].headers[k] && forall j | i < j :: !HasHeader(rs, k, j)
  }

  ghost predicate HeadersFrom(rs: seq<Response>, h: Headers) {
    forall k ::
      && (k in h <==> exists i :: HasHeader(rs, k, i))
      && (k in h ==> exists i :: LastHeader(rs, k, i, h[k]))
  }

  lemma HeadersMeaning(rs: seq<Response>)
    ensures HeadersFrom(rs, Override(SuccessfulHeaders(rs)))
  {
    var hs := SuccessfulHeaders(rs);
    var h := Override(hs);
    forall k
      ensures k in h <==> exists i :: HasHeader(rs, k, i)
      ensures k in h ==> exists i :: LastHeader(rs, k, i, h[k])
    {
      assert forall i :: Contributes(hs, k, i) <==> HasHeader(rs, k, i);
      OverrideMeaning(hs, k);
      if k in h {
        var i :| Wins(Rule(Overwrite, -1), hs, k, i) && h[k] == hs[i][k];
        assert Contributes(hs, k, i) && LastHeader(rs, k, i, h[k]);
      }
    }
  }

  // ------------------------------------------------------- What comes back

  /** The parts every flow that runs to its end has in common. */
  ghost predicate Completed(rs: seq<Response>, errors: seq<Code>, a: Aggregated) {
    && HeadersFrom(rs, a.headers)
    && a.errors == Deduped(errors) && a.status == 0
    && a.partial == (errors != [] && SomeSucceeded(rs))
  }

  /** Response r is a JSON object with key k. */
  predicate Offers(decode: Decoder, r: Response, k: string) {
    r.err.None? && r.body != "" && decode(r.body).Some? && k in decode(r.body).value
  }

  /** The data of a merging flow: the union of the offered keys, each with its winner's value. */
  ghost predicate MergedFrom(decode: Decoder, rule: Rule, rs: seq<Response>, fields: map<string, Json>) {
    forall k ::
      && (k in fields <==> exists i :: 0 <= i < |rs| && Offers(decode, rs[i], k))
      && (k in fields ==> exists i :: Wins(rule, Contributions(decode, rs), k, i) &&
                                      Offers(decode, rs[i], k) && fields[k] == decode(rs[i].body).value[k])
  }

  /** Two upstreams offer the same key. */
  ghost predicate Shared(decode: Decoder, rs: seq<Response>) {
    exists i, j, k :: 0 <= i < j < |rs| && Offers(decode, rs[i], k) && Offers(decode, rs[j], k)
  }

  ghost predicate SomeTrouble(decode: Decoder, rs: seq<Response>) {
    exists r :: r in rs && Troubled(decode)(r)
  }

  /** The merge cannot be made: trouble without best effort, or policy `error` and a shared key. */
  ghost predicate Blocked(decode: Decoder, plan: Plan, rs: seq<Response>) {
    || (!plan.bestEffort && SomeTrouble(decode, rs))
    || (plan.rule.conflict.Fail? && Shared(decode, rs))
  }

  lemma ContributesOffers(decode: Decoder, rs: seq<Response>, k: string, i: int)
    ensures Contributes(Contributions(decode, rs), k, i) <==> 0 <= i < |rs| && Offers(decode, rs[i], k)
  {
  }

  lemma ClashesShared(decode: Decoder, rs: seq<Response>)
    ensures (exists i :: 0 <= i < |rs| && Clashes(Contributions(decode, rs), i)) <==> Shared(decode, rs)
  {
    var objs := Contributions(decode, rs);
    if i :| 0 <= i < |rs| && Clashes(objs, i) {
      var j, k :| j < i && Contributes(objs, k, i) && Contributes(objs, k, j);
      ContributesOffers(decode, rs, k, i);
      ContributesOffers(decode, rs, k, j);
    }
    if Shared(decode, rs) {
      var i, j, k :| 0 <= i < j < |rs| && Offers(decode, rs[i], k) && Offers(decode, rs[j], k);
      ContributesOffers(decode, rs, k, i);
      ContributesOffers(decode, rs, k, j);
      assert Clashes(objs, j);
    }
  }

  lemma BlockedExactly(decode: Decoder, plan: Plan, rs: seq<Response>)
    ensures (exists i :: 0 <= i < |rs| && Blocks(decode, plan, rs, i)) <==> Blocked(decode, plan, rs)
  {
    var objs := Contributions(decode, rs);
    ClashesShared(decode, rs);
    if i :| 0 <= i < |rs| && Blocks(decode, plan, rs, i) {
      assert rs[i] in rs;
    }
    if !plan.bestEffort && SomeTrouble(decode, rs) {
      var r :| r in rs && Troubled(decode)(r);
      var i :| 0 <= i < |rs| && rs[i] == r;
      assert Blocks(decode, plan, rs, i);
    }
    if plan.rule.conflict.Fail? && Shared(decode, rs) {
      var i :| 0 <= i < |rs| && Clashes(objs, i);
      assert Blocks(decode, plan, rs, i);
    }
  }

  /** A merging flow gives data exactly when it is not blocked. */
  lemma MergeSucceedsExactly(decode: Decoder, plan: Plan, rs: seq<Response>, a: Aggregated)
    requires IsMerged(decode, plan, rs, true, a)
    ensures a.data.Merged? <==> !Blocked(decode, plan, rs)
    ensures Blocked(decode, plan, rs) ==> a.data.NoData? && !a.partial
  {
    var c :| CollectMeaning(decode, plan, rs, c) && a == MergeResult(rs, true, c);
    BlockedExactly(decode, plan, rs);
    if c.Early? {
      var i :| FirstBlock(decode, plan, rs, i) && c.resp == GivenUp(decode, rs, i);
      assert Blocks(decode, plan, rs, i);
    }
  }

  /** A merging flow that is not blocked. */
  lemma MergedMeaning(decode: Decoder, plan: Plan, rs: seq<Response>, a: Aggregated)
    requires IsMerged(decode, plan, rs, true, a) && !Blocked(decode, plan, rs)
    ensures a.data.Merged? && MergedFrom(decode, plan.rule, rs, a.data.fields)
    ensures exists es :: Lists(rs, Troubled(decode), TroubleOf, es) && Completed(rs, es, a)
  {
    MergeSucceedsExactly(decode, plan, rs, a);
    var c :| CollectMeaning(decode, plan, rs, c) && a == MergeResult(rs, true, c);
    var objs := Contributions(decode, rs);
    forall k
      ensures k in a.data.fields <==> exists i :: 0 <= i < |rs| && Offers(decode, rs[i], k)
      ensures k in a.data.fields ==>
                exists i :: Wins(plan.rule, objs, k, i) && Offers(decode, rs[i], k) &&
                            a.data.fields[k] == decode(rs[i].body).value[k]
    {
      assert FieldMeaning(plan.rule, objs, k, c.fields);
      assert forall i | 0 <= i < |rs| :: Contributes(objs, k, i) <==> Offers(decode, rs[i], k);
      if k in c.fields {
        var i := c.fields[k].owner;
        assert Contributes(objs, k, i) && Offers(decode, rs[i], k);
      }
    }
    HeadersMeaning(rs);
    ProblemsInOrder(decode, rs);
    assert Completed(rs, Problems(decode, rs), a);
  }

  /** An array flow that is not failed as a whole. */
  lemma ArrayedMeaning(plan: Plan, rs: seq<Response>)
    requires plan.bestEffort || !SomeFailed(rs)
    ensures var a := Arrayed(plan, rs, true);
            && a.data.Listed? && Lists(rs, Filled, BodyOf, a.data.items)
            && exists es :: Lists(rs, Failing, ErrorOf, es) && Completed(rs, es, a)
  {
    BodiesInOrder(rs);
    CodesInOrder(rs);
    CodesExist(rs);
    HeadersMeaning(rs);
    assert Completed(rs, Codes(rs), Arrayed(plan, rs, true));
  }

  predicate Answers(names: seq<string>, rs: seq<Response>, name: string, i: int)
    requires |names| == |rs|
  {
    0 <= i < |rs| && names[i] == name && rs[i].err.None?
  }

  /** Response i is the last successful one under its name, and body what it is shown as. */
  ghost predicate LastAnswer(names: seq<string>, rs: seq<Response>, name: string, i: int, body: string)
    requires |names| == |rs|
  {
    && Answers(names, rs, name, i)
    && body == (if rs[i].body == "" then "null" else rs[i].body)
    && forall j | i < j :: !Answers(names, rs, name, j)
  }

  /** A namespacing flow that is not failed as a whole. */
  lemma NamespacedMeaning(names: seq<string>, plan: Plan, rs: seq<Response>)
    requires |names| == |rs|
    requires plan.bestEffort || !SomeFailed(rs)
    ensures var a := Namespaced(names, plan, rs, true);
            && a.data.Named?
            && (forall name ::
                  && (name in a.data.bodies <==> exists i :: Answers(names, rs, name, i))
                  && (name in a.data.bodies ==>
                        exists i :: LastAnswer(names, rs, name, i, a.data.bodies[name])))
            && exists es :: Lists(rs, Failing, ErrorOf, es) && Completed(rs, es, a)
  {
    var a, objs := Namespaced(names, plan, rs, true), NamedBodies(names, rs);
    forall name
      ensures name in a.data.bodies <==> exists i :: Answers(names, rs, name, i)
      ensures name in a.data.bodies ==> exists i :: LastAnswer(names, rs, name, i, a.data.bodies[name])
    {
      assert forall i :: Contributes(objs, name, i) <==> Answers(names, rs, name, i);
      OverrideMeaning(objs, name);
      if name in a.data.bodies {
        var i :| Wins(Rule(Overwrite, -1), objs, name, i) && a.data.bodies[name] == objs[i][name];
        assert Contributes(objs, name, i) && LastAnswer(names, rs, name, i, a.data.bodies[name]);
      }
    }
    CodesInOrder(rs);
    CodesExist(rs);
    HeadersMeaning(rs);
    assert Completed(rs, Codes(rs), a);
  }

  /** Where nothing succeeded, what a merge complains about is what failed. */
  lemma {:induction false} ProblemsOfFailures(decode: Decoder, rs: seq<Response>)
    requires !SomeSucceeded(rs)
    ensures Problems(decode, rs) == Codes(rs)
  {
    if rs != [] {
      var n := |rs| - 1;
      PrefixSnoc(rs, n);
      assert rs[..n + 1] == rs && rs[n] in rs;
      ProblemsOfFailures(decode, rs[..n]);
    }
  }

  // ------------------------------------- The status of a failed flow

  ghost predicate SomeKind(rs: seq<Response>, k: Kind) {
    exists r :: r in rs && r.err == Some(k)
  }

  /** A call was canceled, and what failed before it failed inside the gateway or by its size. */
  ghost predicate CanceledFirst(rs: seq<Response>) {
    exists i :: 0 <= i < |rs| && rs[i].err == Some(Canceled) && Minor(rs[..i])
  }

  ghost predicate Minor(rs: seq<Response>) {
    forall r | r in rs && r.err.Some? :: r.err.value in {Internal, ReadError, BodyTooLarge}
  }

  lemma CodesMembers(rs: seq<Response>, c: Code)
    ensures c in Codes(rs) <==> exists r :: r in rs && r.err.Some? && CodeOf(r.err) == c
  {
    FailuresMeaning(rs);
    var fs := Failures(rs);
    if c in Codes(rs) {
      var i :| 0 <= i < |Codes(rs)| && Codes(rs)[i] == c;
      assert fs[i] in fs;
    }
    if r :| r in rs && r.err.Some? && CodeOf(r.err) == c {
      var i :| 0 <= i < |fs| && fs[i] == r;
      assert Codes(rs)[i] == c;
    }
  }

  lemma MinorExactly(rs: seq<Response>)
    ensures Minor(rs) <==> NoneOf(Codes(rs), UPSTREAM)
  {
    forall c | c in UPSTREAM ensures c in Codes(rs) <==> exists r :: r in rs && r.err.Some? && CodeOf(r.err) == c {
      CodesMembers(rs, c);
    }
  }

  lemma FirstOfSnoc(es: seq<Code>, e: Code, rivals: set<Code>, c: Code)
    ensures FirstOf(es + [e], rivals, c) <==> FirstOf(es, rivals, c) || (e == c && c in rivals && NoneOf(es, rivals))
  {
    var all := es + [e];
    if FirstOf(es, rivals, c) {
      var i :| 0 <= i < |es| && es[i] == c && forall j | 0 <= j < i :: es[j] !in rivals;
      assert all[i] == c && forall j | 0 <= j < i :: all[j] == es[j];
    }
    if e == c && NoneOf(es, rivals) {
      assert all[|es|] == c && forall j | 0 <= j < |es| :: all[j] == es[j] && es[j] in es;
    }
    if FirstOf(all, rivals, c) {
      var i :| 0 <= i < |all| && all[i] == c && forall j | 0 <= j < i :: all[j] !in rivals;
      forall j | 0 <= j < |es| && j < i ensures es[j] !in rivals {
        assert all[j] == es[j];
      }
    }
  }

  lemma CanceledFirstSnoc(rs: seq<Response>, n: nat)
    requires n + 1 == |rs|
    ensures CanceledFirst(rs) <==> CanceledFirst(rs[..n]) || (rs[n].err == Some(Canceled) && Minor(rs[..n]))
  {
    assert forall i | 0 <= i <= n :: rs[..n][..i] == rs[..i];
    if CanceledFirst(rs[..n]) {
      var i :| 0 <= i < n && rs[..n][i].err == Some(Canceled) && Minor(rs[..n][..i]);
      assert rs[i].err == Some(Canceled) && Minor(rs[..i]);
    }
    if CanceledFirst(rs) {
      var i :| 0 <= i < |rs| && rs[i].err == Some(Canceled) && Minor(rs[..i]);
      assert i < n ==> rs[..n][i].err == Some(Canceled) && Minor(rs[..n][..i]);
    }
  }

  lemma {:induction false} CanceledFirstExactly(rs: seq<Response>)
    ensures CanceledFirst(rs) <==> FirstOf(Codes(rs), UPSTREAM, Aborted)
  {
    if rs != [] {
      var n := |rs| - 1;
      CanceledFirstExactly(rs[..n]);
      MinorExactly(rs[..n]);
      PrefixSnoc(rs, n);
      assert rs[..n + 1] == rs;
      CanceledFirstSnoc(rs, n);
      if rs[n].err.Some? {
        FirstOfSnoc(Codes(rs[..n]), CodeOf(rs[n].err), UPSTREAM, Aborted);
        assert CodeOf(rs[n].err) == Aborted <==> rs[n].err == Some(Canceled);
      } else {
        assert Codes(rs) == Codes(rs[..n]);
      }
    }
  }

  /**
   The status of a flow whose upstreams failed, told by how they failed: 500 exactly
   when all failed inside the gateway, 503 exactly when none was over the size limit
   and the first failure from outside was a cancellation, otherwise 502.
   */
  lemma FailureStatus(rs: seq<Response>)
    requires SomeFailed(rs)
    ensures var s := StatusFromErrors(Codes(rs));
            && (s == 500 <==> forall r | r in rs && r.err.Some? :: r.err.value in {Internal, ReadError})
            && (s == 503 <==> !SomeKind(rs, BodyTooLarge) && CanceledFirst(rs))
            && s in {500, 502, 503}
  {
    CodesExist(rs);
    UpstreamStatuses(Codes(rs));
    StatusMeaning(Codes(rs));
    CanceledFirstExactly(rs);
    AllInternal(rs);
    NoneOutranks(rs);
  }

  lemma AllInternal(rs: seq<Response>)
    ensures (forall e | e in Codes(rs) :: e == InternalError) <==>
            forall r | r in rs && r.err.Some? :: r.err.value in {Internal, ReadError}
  {
    if forall e | e in Codes(rs) :: e == InternalError {
      forall r | r in rs && r.err.Some? ensures r.err.value in {Internal, ReadError} {
        CodesMembers(rs, CodeOf(r.err));
      }
    } else {
      var e :| e in Codes(rs) && e != InternalError;
      CodesMembers(rs, e);
    }
  }

  /** Of the codes above the upstreams' own, only the size limit can come from an upstream. */
  lemma NoneOutranks(rs: seq<Response>)
    ensures NoneOf(Codes(rs), {RateLimitExceeded, Unauthorized, ValueConflict} + OVERSIZED) <==>
            !SomeKind(rs, BodyTooLarge)
  {
    forall e | e in Codes(rs) && e in {RateLimitExceeded, Unauthorized, ValueConflict} + OVERSIZED
      ensures SomeKind(rs, BodyTooLarge)
    {
      CodesMembers(rs, e);
    }
    CodesMembers(rs, UpstreamBodyTooLarge);
  }
}
