/**
 Fanning out to several upstreams and combining their answers
 (scatter.go, aggregator.go).

 Decoding a body is a function parameter: a map of fields, or None when the body
 is not a JSON object. Whether the encoder accepts the combined data is the
 parameter `encodes`.
 */
module Aggregation {
  import opened Options
  import opened Json
  import opened UpstreamErrors
  import opened Upstream
  import opened ErrorStatus
  import opened MapMerge

  type Decoder = string -> Option<map<string, Json>>

  datatype Strategy = Merge | Array | Namespace

  datatype Plan = Plan(strategy: Strategy, bestEffort: bool, rule: Rule)

  datatype Data =
    | NoData
    | Merged(fields: map<string, Json>)
    | Listed(items: seq<string>)
    | Named(bodies: map<string, string>)

  datatype Aggregated = Aggregated(data: Data, headers: Headers, errors: seq<Code>, status: int, partial: bool)

  // ------------------------------------------------------------- Scatter

  /**
   Every goroutine writes its own slot, in whatever order they finish; after the
   wait group the slots hold exactly what the upstreams answered.
   */
  method Scatter(answers: seq<Response>) returns (results: array<Response>)
    ensures results[..] == answers
  {
    results := new Response[|answers|](_ => Response(0, map[], "", None));
    var running: set<nat> := {};
    for i := 0 to |answers|
      invariant forall j: nat :: j in running <==> j < i
    {
      running := running + {i};
    }
    while running != {}
      invariant forall i | i in running :: 0 <= i < |answers|
      invariant results.Length == |answers|
      invariant forall i | 0 <= i < |answers| && i !in running :: results[i] == answers[i]
      decreases |running|
    {
      var i :| i in running;
      results[i] := answers[i];
      running := running - {i};
    }
  }

  // -------------------------------------------------- Failed upstreams

  function Failures(rs: seq<Response>): seq<Response> {
    if rs == [] then [] else
    Failures(rs[..|rs| - 1]) + if rs[|rs| - 1].err.Some? then [rs[|rs| - 1]] else []
  }

  lemma {:induction false} FailuresMeaning(rs: seq<Response>)
    ensures forall r :: r in Failures(rs) <==> r in rs && r.err.Some?
  {
    if rs != [] {
      FailuresMeaning(rs[..|rs| - 1]);
      assert rs == rs[..|rs| - 1] + [rs[|rs| - 1]];
    }
  }

  function Codes(rs: seq<Response>): seq<Code> {
    seq(|Failures(rs)|, i requires 0 <= i < |Failures(rs)| => CodeOf(Failures(rs)[i].err))
  }

  /** Every failed upstream answered with client error s. */
  ghost predicate AllClientErrors(rs: seq<Response>, s: int) {
    forall r | r in rs && r.err.Some? :: r.err == Some(ClientError) && r.status == s
  }

  ghost predicate SomeFailed(rs: seq<Response>) {
    exists r :: r in rs && r.err.Some?
  }

  ghost predicate AllWellFormed(rs: seq<Response>) {
    forall r | r in rs :: WellFormed(r)
  }

  method SharedFailureStatus(rs: seq<Response>) returns (status: int)
    requires AllWellFormed(rs)
    ensures status == 0 || 400 <= status < 500
    ensures status != 0 ==> SomeFailed(rs) && AllClientErrors(rs, status)
    ensures status == 0 && SomeFailed(rs) ==> forall s :: !AllClientErrors(rs, s)
  {
    status := 0;
    for k := 0 to |rs|
      invariant status == 0 || 400 <= status < 500
      invariant status == 0 <==> !SomeFailed(rs[..k])
      invariant AllClientErrors(rs[..k], status)
    {
      var r := rs[k];
      assert r in rs;
      assert rs[..k + 1] == rs[..k] + [r];
      if r.err.Some? {
        if r.err != Some(ClientError) {
          return 0;
        }
        if status == 0 {
          status := r.status;
        } else if status != r.status {
          var q :| q in rs[..k] && q.err.Some?;
          assert q in rs;
          return 0;
        }
        assert r in rs[..k + 1];
      } else {
        assert forall q | q in rs[..k] :: q in rs[..k + 1];
      }
    }
    assert rs[..|rs|] == rs;
  }

  /** The same status, as a function of the responses. */
  ghost function SharedStatus(rs: seq<Response>): (status: int) {
    if SomeFailed(rs) && exists s :: AllClientErrors(rs, s)
    then var s :| AllClientErrors(rs, s); s
    else 0
  }

  lemma SharedStatusMeaning(rs: seq<Response>, s: int)
    requires AllWellFormed(rs)
    ensures 400 <= s < 500 && SomeFailed(rs) && AllClientErrors(rs, s) ==> SharedStatus(rs) == s
    ensures SharedStatus(rs) != 0 ==>
              400 <= SharedStatus(rs) < 500 && SomeFailed(rs) && AllClientErrors(rs, SharedStatus(rs))
    ensures SharedStatus(rs) == 0 && SomeFailed(rs) ==> !AllClientErrors(rs, s)
  {
    if SomeFailed(rs) {
      var r :| r in rs && r.err.Some?;
    }
  }

  method CollectErrors(rs: seq<Response>) returns (errs: seq<Code>)
    ensures errs == Codes(rs)
  {
    errs := [];
    for k := 0 to |rs|
      invariant errs == Codes(rs[..k])
    {
      assert rs[..k + 1][..k] == rs[..k] && rs[..k + 1][k] == rs[k];
      if rs[k].err.Some? {
        errs := errs + [CodeOf(rs[k].err)];
      }
      assert errs == Codes(rs[..k + 1]);
    }
    assert rs[..|rs|] == rs;
  }

  /** The response of a flow that does not tolerate failed upstreams. */
  ghost function AllFailed(rs: seq<Response>): Aggregated {
    Aggregated(NoData, map[], Deduped(Codes(rs)), SharedStatus(rs), false)
  }

  method FailAll(rs: seq<Response>) returns (a: Aggregated)
    requires AllWellFormed(rs)
    ensures a == AllFailed(rs)
  {
    var errs := CollectErrors(rs);
    errs := DedupeErrors(errs);
    var status := SharedFailureStatus(rs);
    SharedStatusMeaning(rs, status);
    a := Aggregated(NoData, map[], errs, status, false);
  }

  // -------------------------------------------------------------- Headers

  function HeadersOf(r: Response): Headers {
    if r.err.Some? then map[] else r.headers
  }

  function SuccessfulHeaders(rs: seq<Response>): seq<Headers> {
    seq(|rs|, i requires 0 <= i < |rs| => HeadersOf(rs[i]))
  }

  /** Copies every header over, in whatever order the map yields them. */
  method CopyHeaders(from: Headers, into: Headers) returns (out: Headers)
    ensures out == into + from
  {
    out := into;
    var pending := from.Keys;
    while pending != {}
      invariant pending <= from.Keys
      invariant out.Keys == into.Keys + (from.Keys - pending)
      invariant forall k | k in out :: out[k] == if k in from && k !in pending then from[k] else into[k]
      decreases |pending|
    {
      var k :| k in pending;
      out := out[k := from[k]];
      pending := pending - {k};
    }
  }

  lemma HeadersSnoc(rs: seq<Response>, n: nat)
    requires n < |rs|
    ensures Override(SuccessfulHeaders(rs[..n + 1])) == Override(SuccessfulHeaders(rs[..n])) + HeadersOf(rs[n])
  {
    var hs := SuccessfulHeaders(rs[..n + 1]);
    assert hs[..n] == SuccessfulHeaders(rs[..n]) && hs[n] == HeadersOf(rs[n]);
  }

  method MergeSuccessfulHeaders(rs: seq<Response>) returns (merged: Headers)
    ensures merged == Override(SuccessfulHeaders(rs))
  {
    merged := map[];
    for n := 0 to |rs|
      invariant merged == Override(SuccessfulHeaders(rs[..n]))
    {
      HeadersSnoc(rs, n);
      if rs[n].err.Some? {
        continue;
      }
      merged := CopyHeaders(rs[n].headers, merged);
    }
    assert rs[..|rs|] == rs;
  }

  // ---------------------------------------------------------------- Merge

  /** A successful answer whose body is not a JSON object. */
  predicate Malformed(decode: Decoder, r: Response) {
    r.err.None? && r.body != "" && decode(r.body).None?
  }

  /** What one upstream contributes to the merge. */
  function Contribution(decode: Decoder, r: Response): map<string, Json> {
    if r.err.None? && r.body != "" && decode(r.body).Some? then decode(r.body).value else map[]
  }

  function Contributions(decode: Decoder, rs: seq<Response>): seq<map<string, Json>> {
    seq(|rs|, i requires 0 <= i < |rs| => Contribution(decode, rs[i]))
  }

  lemma ContributionsSnoc(decode: Decoder, rs: seq<Response>, k: nat)
    requires k < |rs|
    ensures Contributions(decode, rs[..k + 1]) == Contributions(decode, rs[..k]) + [Contribution(decode, rs[k])]
  {
  }

  /** The error codes a merge records, upstream by upstream. */
  function Problems(decode: Decoder, rs: seq<Response>): seq<Code> {
    if rs == [] then [] else
    var r := rs[|rs| - 1];
    Problems(decode, rs[..|rs| - 1]) +
    if r.err.Some? then [CodeOf(r.err)] else if Malformed(decode, r) then [UpstreamMalformed] else []
  }

  ghost predicate SomeSucceeded(rs: seq<Response>) {
    exists r :: r in rs && r.err.None?
  }

  /** Upstream i makes the merge give up. */
  ghost predicate Blocks(decode: Decoder, plan: Plan, rs: seq<Response>, i: int)
    requires 0 <= i < |rs|
  {
    || (!plan.bestEffort && (rs[i].err.Some? || Malformed(decode, rs[i])))
    || (plan.rule.conflict.Fail? && Clashes(Contributions(decode, rs), i))
  }

  ghost predicate FirstBlock(decode: Decoder, plan: Plan, rs: seq<Response>, i: int) {
    && 0 <= i < |rs| && Blocks(decode, plan, rs, i)
    && forall j | 0 <= j < i :: !Blocks(decode, plan, rs, j)
  }

  const MALFORMED := Aggregated(NoData, map[], [UpstreamMalformed], 0, false)
  const CONFLICT := Aggregated(NoData, map[], [ValueConflict], 0, false)
  const INTERNAL := Aggregated(NoData, map[], [InternalError], 0, false)

  ghost function GivenUp(decode: Decoder, rs: seq<Response>, i: int): Aggregated
    requires 0 <= i < |rs|
  {
    if rs[i].err.Some? then AllFailed(rs)
    else if Malformed(decode, rs[i]) then MALFORMED
    else CONFLICT
  }

  datatype Collected =
    | Early(resp: Aggregated)
    | Fields(fields: map<string, Field<Json>>, errors: seq<Code>, succeeded: bool)

  ghost predicate CollectMeaning(decode: Decoder, plan: Plan, rs: seq<Response>, c: Collected) {
    match c
    case Early(resp) => exists i :: FirstBlock(decode, plan, rs, i) && resp == GivenUp(decode, rs, i)
    case Fields(fields, errors, succeeded) =>
      && (forall i | 0 <= i < |rs| :: !Blocks(decode, plan, rs, i))
      && Merges(plan.rule, Contributions(decode, rs), fields)
      && errors == Problems(decode, rs)
      && succeeded == SomeSucceeded(rs)
  }

  lemma ClashesPrefix(decode: Decoder, rs: seq<Response>, n: nat)
    requires n < |rs|
    ensures Clashes(Contributions(decode, rs[..n + 1]), n) <==> Clashes(Contributions(decode, rs), n)
  {
    var p, all := Contributions(decode, rs[..n + 1]), Contributions(decode, rs);
    assert forall k, j | j <= n :: Contributes(p, k, j) <==> Contributes(all, k, j);
  }

  lemma NothingToMerge(rule: Rule, objs: seq<map<string, Json>>, fields: map<string, Field<Json>>)
    requires Merges(rule, objs, fields)
    ensures Merges(rule, objs + [map[]], fields) && !Clashes(objs + [map[]], |objs|)
  {
    forall k ensures FieldMeaning(rule, objs + [map[]], k, fields) {
      assert FieldMeaning(rule, objs, k, fields);
      KeyAbsent(rule, objs, map[], k, fields);
    }
  }

  /** The state of the loop before upstream n. */
  ghost predicate Collecting(decode: Decoder, plan: Plan, rs: seq<Response>, n: int, c: Collected)
    requires 0 <= n <= |rs| && c.Fields?
  {
    && (forall i | 0 <= i < n :: !Blocks(decode, plan, rs, i))
    && Merges(plan.rule, Contributions(decode, rs[..n]), c.fields)
    && c.errors == Problems(decode, rs[..n])
    && c.succeeded == SomeSucceeded(rs[..n])
  }

  lemma Advance(decode: Decoder, plan: Plan, rs: seq<Response>, n: int, c: Collected, c': Collected)
    requires 0 <= n < |rs| && c.Fields? && c'.Fields? && Collecting(decode, plan, rs, n, c)
    requires !(!plan.bestEffort && (rs[n].err.Some? || Malformed(decode, rs[n])))
    requires var objs := Contributions(decode, rs[..n]) + [Contribution(decode, rs[n])];
             Merges(plan.rule, objs, c'.fields) && !(plan.rule.conflict.Fail? && Clashes(objs, n))
    requires c'.errors == c.errors + if rs[n].err.Some? then [CodeOf(rs[n].err)]
                                     else if Malformed(decode, rs[n]) then [UpstreamMalformed] else []
    requires c'.succeeded == (c.succeeded || rs[n].err.None?)
    ensures Collecting(decode, plan, rs, n + 1, c')
  {
    ContributionsSnoc(decode, rs, n);
    ClashesPrefix(decode, rs, n);
    assert rs[..n + 1][..n] == rs[..n] && rs[..n + 1] == rs[..n] + [rs[n]];
    if c'.succeeded {
      if c.succeeded {
        var r :| r in rs[..n] && r.err.None?;
        assert r in rs[..n + 1];
      } else {
        assert rs[n] in rs[..n + 1];
      }
    }
  }

  lemma ClashBlocks(decode: Decoder, plan: Plan, rs: seq<Response>, n: int, c: Collected)
    requires 0 <= n < |rs| && c.Fields? && Collecting(decode, plan, rs, n, c)
    requires plan.rule.conflict.Fail?
    requires Clashes(Contributions(decode, rs[..n]) + [Contribution(decode, rs[n])], n)
    ensures FirstBlock(decode, plan, rs, n)
  {
    ContributionsSnoc(decode, rs, n);
    ClashesPrefix(decode, rs, n);
  }

  /**
   Whatever order the keys of each object come in, the collected fields are the
   declarative merge of the contributions, and the merge gives up exactly at the
   first upstream that blocks it.
   */
  method CollectFields(decode: Decoder, plan: Plan, rs: seq<Response>) returns (c: Collected)
    requires AllWellFormed(rs)
    ensures CollectMeaning(decode, plan, rs, c)
  {
    var fields: map<string, Field<Json>> := map[];
    var errors: seq<Code> := [];
    var succeeded := false;
    for n := 0 to |rs|
      invariant Collecting(decode, plan, rs, n, Fields(fields, errors, succeeded))
    {
      var r := rs[n];
      ghost var objs, before := Contributions(decode, rs[..n]), Fields(fields, errors, succeeded);
      if r.err.Some? {
        if !plan.bestEffort {
          assert FirstBlock(decode, plan, rs, n);
          var failed := FailAll(rs);
          return Early(failed);
        }
        errors := errors + [CodeOf(r.err)];
        NothingToMerge(plan.rule, objs, fields);
      } else {
        succeeded := true;
        if r.body == "" {
          NothingToMerge(plan.rule, objs, fields);
        } else {
          match decode(r.body) {
            case None =>
              if !plan.bestEffort {
                assert FirstBlock(decode, plan, rs, n);
                return Early(MALFORMED);
              }
              errors := errors + [UpstreamMalformed];
              NothingToMerge(plan.rule, objs, fields);
            case Some(obj) =>
              var clash;
              fields, clash := MergeObject(plan.rule, objs, obj, n, fields);
              if clash {
                ClashBlocks(decode, plan, rs, n, before);
                return Early(CONFLICT);
              }
          }
        }
      }
      Advance(decode, plan, rs, n, before, Fields(fields, errors, succeeded));
    }
    assert rs[..|rs|] == rs;
    c := Fields(fields, errors, succeeded);
  }

  /**
   A best-effort merge, spelled out: it fails exactly when policy `error` meets a
   key two upstreams share; otherwise its keys are the union of the contributed
   keys, each owned by the upstream its policy names.
   */
  lemma BestEffortMeaning(decode: Decoder, plan: Plan, rs: seq<Response>, c: Collected)
    requires plan.bestEffort && CollectMeaning(decode, plan, rs, c)
    ensures var objs := Contributions(decode, rs);
            && (c.Early? <==> plan.rule.conflict.Fail? &&
                              exists i, j, k :: i < j && Contributes(objs, k, i) && Contributes(objs, k, j))
            && (c.Early? ==> c.resp == CONFLICT)
            && (c.Fields? ==> forall k ::
                  && (k in c.fields <==> exists i :: Contributes(objs, k, i))
                  && (k in c.fields ==> Wins(plan.rule, objs, k, c.fields[k].owner) &&
                                        c.fields[k].value == objs[c.fields[k].owner][k]))
  {
    var objs := Contributions(decode, rs);
    match c
    case Early(resp) =>
      var i :| FirstBlock(decode, plan, rs, i) && resp == GivenUp(decode, rs, i);
      assert Clashes(objs, i);
      var j, k :| j < i && Contributes(objs, k, i) && Contributes(objs, k, j);
      assert j < i && Contributes(objs, k, j) && Contributes(objs, k, i);
    case Fields(fields, _, _) =>
      forall i, j, k | plan.rule.conflict.Fail? && i < j && Contributes(objs, k, i)
        ensures !Contributes(objs, k, j)
      {
        if Contributes(objs, k, j) {
          assert Clashes(objs, j);
          assert Blocks(decode, plan, rs, j);
        }
      }
      forall k
        ensures k in fields <==> exists i :: Contributes(objs, k, i)
        ensures k in fields ==> Wins(plan.rule, objs, k, fields[k].owner) &&
                                fields[k].value == objs[fields[k].owner][k]
      {
        assert FieldMeaning(plan.rule, objs, k, fields);
      }
  }

  function Flat(fields: map<string, Field<Json>>): map<string, Json> {
    map k | k in fields :: fields[k].value
  }

  function MergeResult(rs: seq<Response>, encodes: bool, c: Collected): Aggregated {
    if c.Early? then c.resp
    else if !encodes then INTERNAL
    else Aggregated(Merged(Flat(c.fields)), Override(SuccessfulHeaders(rs)),
                    Deduped(c.errors), 0, c.errors != [] && c.succeeded)
  }

  /** What a merging flow may return. */
  ghost predicate IsMerged(decode: Decoder, plan: Plan, rs: seq<Response>, encodes: bool, a: Aggregated) {
    exists c :: CollectMeaning(decode, plan, rs, c) && a == MergeResult(rs, encodes, c)
  }

  method MergeResponses(decode: Decoder, plan: Plan, rs: seq<Response>, encodes: bool) returns (a: Aggregated)
    requires AllWellFormed(rs)
    ensures IsMerged(decode, plan, rs, encodes, a)
  {
    var c := CollectFields(decode, plan, rs);
    if c.Early? {
      return c.resp;
    }
    if !encodes {
      return INTERNAL;
    }
    var headers := MergeSuccessfulHeaders(rs);
    var errors := DedupeErrors(c.errors);
    a := Aggregated(Merged(Flat(c.fields)), headers, errors, 0, c.errors != [] && c.succeeded);
  }

  lemma FirstBlockUnique(decode: Decoder, plan: Plan, rs: seq<Response>, i: int, j: int)
    requires FirstBlock(decode, plan, rs, i) && FirstBlock(decode, plan, rs, j)
    ensures i == j
  {
  }

  /** A merge has one possible result, however the maps are iterated. */
  lemma MergeIsDeterministic(decode: Decoder, plan: Plan, rs: seq<Response>, encodes: bool,
                             a: Aggregated, b: Aggregated)
    requires IsMerged(decode, plan, rs, encodes, a) && IsMerged(decode, plan, rs, encodes, b)
    ensures a == b
  {
    var c :| CollectMeaning(decode, plan, rs, c) && a == MergeResult(rs, encodes, c);
    var d :| CollectMeaning(decode, plan, rs, d) && b == MergeResult(rs, encodes, d);
    if c.Fields? && d.Fields? {
      MergesUnique(plan.rule, Contributions(decode, rs), c.fields, d.fields);
    } else if c.Early? && d.Early? {
      var i :| FirstBlock(decode, plan, rs, i) && c.resp == GivenUp(decode, rs, i);
      var j :| FirstBlock(decode, plan, rs, j) && d.resp == GivenUp(decode, rs, j);
      FirstBlockUnique(decode, plan, rs, i, j);
    }
  }

  // ------------------------------------------------- Array and namespace

  function Bodies(rs: seq<Response>): seq<string> {
    if rs == [] then [] else
    var r := rs[|rs| - 1];
    Bodies(rs[..|rs| - 1]) + if r.err.None? && r.body != "" then [r.body] else []
  }

  /** What an array flow returns. */
  ghost function Arrayed(plan: Plan, rs: seq<Response>, encodes: bool): Aggregated {
    if !plan.bestEffort && SomeFailed(rs) then AllFailed(rs)
    else if !encodes then MALFORMED
    else Aggregated(Listed(Bodies(rs)), Override(SuccessfulHeaders(rs)),
                    Deduped(Codes(rs)), 0, SomeFailed(rs) && SomeSucceeded(rs))
  }

  lemma PrefixSnoc(rs: seq<Response>, n: int)
    requires 0 <= n < |rs|
    ensures rs[..n + 1] == rs[..n] + [rs[n]] && rs[..n + 1][..n] == rs[..n]
    ensures Codes(rs[..n + 1]) == Codes(rs[..n]) + if rs[n].err.Some? then [CodeOf(rs[n].err)] else []
    ensures SomeFailed(rs[..n + 1]) <==> SomeFailed(rs[..n]) || rs[n].err.Some?
    ensures SomeSucceeded(rs[..n + 1]) <==> SomeSucceeded(rs[..n]) || rs[n].err.None?
  {
    assert forall r :: r in rs[..n + 1] <==> r in rs[..n] || r == rs[n];
  }

  lemma CodesExist(rs: seq<Response>)
    ensures Codes(rs) != [] <==> SomeFailed(rs)
    ensures forall c | c in Codes(rs) :: FromUpstream(c)
  {
    FailuresMeaning(rs);
    var fs := Failures(rs);
    if fs != [] {
      assert fs[0] in fs;
    }
    forall c | c in Codes(rs) ensures FromUpstream(c) {
      var i :| 0 <= i < |Codes(rs)| && Codes(rs)[i] == c;
      assert fs[i] in fs;
      assert c == CodeOf(Some(fs[i].err.value));
    }
  }

  method ArrayResponses(plan: Plan, rs: seq<Response>, encodes: bool) returns (a: Aggregated)
    requires AllWellFormed(rs)
    ensures a == Arrayed(plan, rs, encodes)
  {
    var arr, errors, succeeded := [], [], false;
    for n := 0 to |rs|
      invariant arr == Bodies(rs[..n])
      invariant errors == Codes(rs[..n])
      invariant succeeded == SomeSucceeded(rs[..n])
      invariant plan.bestEffort || !SomeFailed(rs[..n])
    {
      PrefixSnoc(rs, n);
      if rs[n].err.Some? {
        if !plan.bestEffort {
          assert rs[n] in rs;
          a := FailAll(rs);
          return;
        }
        errors := errors + [CodeOf(rs[n].err)];
      } else {
        succeeded := true;
        if rs[n].body != "" {
          arr := arr + [rs[n].body];
        }
      }
    }
    assert rs[..|rs|] == rs;
    CodesExist(rs);
    if !encodes {
      return MALFORMED;
    }
    var headers := MergeSuccessfulHeaders(rs);
    var deduped := DedupeErrors(errors);
    a := Aggregated(Listed(arr), headers, deduped, 0, errors != [] && succeeded);
  }

  function NamedBody(name: string, r: Response): map<string, string> {
    if r.err.Some? then map[] else map[name := if r.body == "" then "null" else r.body]
  }

  function NamedBodies(names: seq<string>, rs: seq<Response>): seq<map<string, string>>
    requires |names| == |rs|
  {
    seq(|rs|, i requires 0 <= i < |rs| => NamedBody(names[i], rs[i]))
  }

  /** What a namespacing flow returns. */
  ghost function Namespaced(names: seq<string>, plan: Plan, rs: seq<Response>, encodes: bool): Aggregated
    requires |names| == |rs|
  {
    CodesExist(rs);
    if !plan.bestEffort && SomeFailed(rs) then
      Aggregated(NoData, map[], [Codes(rs)[0]], SharedStatus(rs), false)
    else if !encodes then INTERNAL
    else Aggregated(Named(Override(NamedBodies(names, rs))), Override(SuccessfulHeaders(rs)),
                    Deduped(Codes(rs)), 0, SomeFailed(rs) && SomeSucceeded(rs))
  }

  lemma {:induction false} CodesGrow(rs: seq<Response>, n: int)
    requires 0 <= n <= |rs|
    ensures Codes(rs[..n]) <= Codes(rs)
    decreases |rs| - n
  {
    if n < |rs| {
      PrefixSnoc(rs, n);
      CodesGrow(rs, n + 1);
    } else {
      assert rs[..n] == rs;
    }
  }

  lemma FirstCode(rs: seq<Response>, n: int)
    requires 0 <= n < |rs| && rs[n].err.Some? && !SomeFailed(rs[..n])
    ensures Codes(rs) != [] && Codes(rs)[0] == CodeOf(rs[n].err)
  {
    PrefixSnoc(rs, n);
    CodesExist(rs[..n]);
    CodesGrow(rs, n + 1);
  }

  lemma NamedSnoc(names: seq<string>, rs: seq<Response>, n: int)
    requires |names| == |rs| && 0 <= n < |rs|
    ensures var before := Override(NamedBodies(names[..n], rs[..n]));
            Override(NamedBodies(names[..n + 1], rs[..n + 1])) ==
            if rs[n].err.Some? then before
            else before[names[n] := if rs[n].body == "" then "null" else rs[n].body]
  {
    var next := NamedBodies(names[..n + 1], rs[..n + 1]);
    assert next[..n] == NamedBodies(names[..n], rs[..n]) && next[n] == NamedBody(names[n], rs[n]);
  }

  method NamespaceResponses(names: seq<string>, plan: Plan, rs: seq<Response>, encodes: bool)
    returns (a: Aggregated)
    requires AllWellFormed(rs) && |names| == |rs|
    ensures a == Namespaced(names, plan, rs, encodes)
  {
    var result: map<string, string> := map[];
    var errors, succeeded := [], false;
    for n := 0 to |rs|
      invariant result == Override(NamedBodies(names[..n], rs[..n]))
      invariant errors == Codes(rs[..n])
      invariant succeeded == SomeSucceeded(rs[..n])
      invariant plan.bestEffort || !SomeFailed(rs[..n])
    {
      PrefixSnoc(rs, n);
      NamedSnoc(names, rs, n);
      if rs[n].err.Some? {
        if !plan.bestEffort {
          assert rs[n] in rs;
          FirstCode(rs, n);
          var status := SharedFailureStatus(rs);
          SharedStatusMeaning(rs, status);
          return Aggregated(NoData, map[], [CodeOf(rs[n].err)], status, false);
        }
        errors := errors + [CodeOf(rs[n].err)];
      } else {
        succeeded := true;
        var body := if rs[n].body == "" then "null" else rs[n].body;
        result := result[names[n] := body];
      }
    }
    assert rs[..|rs|] == rs && names[..|rs|] == names;
    CodesExist(rs);
    if !encodes {
      return INTERNAL;
    }
    var headers := MergeSuccessfulHeaders(rs);
    var deduped := DedupeErrors(errors);
    a := Aggregated(Named(result), headers, deduped, 0, errors != [] && succeeded);
  }

  // -------------------------------------------------------- All strategies

  /** a is a possible result of aggregating rs under the plan. */
  ghost predicate Aggregates(decode: Decoder, names: seq<string>, plan: Plan, rs: seq<Response>, encodes: bool,
                             a: Aggregated)
    requires |names| == |rs|
  {
    match plan.strategy
    case Merge => IsMerged(decode, plan, rs, encodes, a)
    case Array => a == Arrayed(plan, rs, encodes)
    case Namespace => a == Namespaced(names, plan, rs, encodes)
  }

  method Aggregate(decode: Decoder, names: seq<string>, plan: Plan, rs: seq<Response>, encodes: bool)
    returns (a: Aggregated)
    requires AllWellFormed(rs) && |names| == |rs|
    ensures Aggregates(decode, names, plan, rs, encodes, a)
  {
    match plan.strategy {
      case Merge => a := MergeResponses(decode, plan, rs, encodes);
      case Array => a := ArrayResponses(plan, rs, encodes);
      case Namespace => a := NamespaceResponses(names, plan, rs, encodes);
    }
  }
}
