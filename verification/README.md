# Aastro gateway: a verified model

This project models, in Dafny, the parts of the aastro API gateway that keep state or
transform data, and proves what they do over whole runs, all interleavings and all inputs.
`dafny verify dfyconfig.toml` checks everything.

The network, the clock, the client's patience, Go's map iteration order and goroutine
scheduling are arbitrary: scripts, parameters, or nondeterministic choices.

| files | subject |
|---|---|
| `Breaker.dfy`, `BreakerCalls.dfy` | the circuit breaker as an object, as a history of events, and under interleaved calls |
| `UpstreamErrors.dfy`, `Upstream.dfy` | one exchange, the retry loop, the report to the breaker, the response policy |
| `LoadBalancer.dfy` | least-connections and round-robin host selection |
| `RateLimit.dfy` | the sliding-window limiter against a plain admission log |
| `MapMerge.dfy`, `Aggregation.dfy`, `AggregationMeaning.dfy`, `ErrorStatus.dfy`, `Gateway.dfy` | scatter, merge, array and namespace aggregation, and the final response |
| `OpenApi.dfy`, `OpenApiImport.dfy`, `OpenApiRoundTrip.dfy`, `OpenApiMeaning.dfy` | exporting a configuration as OpenAPI and reading it back, and what both directions report |
| `YamlPrune.dfy`, `YamlReading.dfy`, `YamlNodes.dfy` | dropping zero values from a YAML tree, as a function, for a typed reader, and in place on linked nodes |
| `KeyCasing.dfy`, `JsonKeys.dfy` | the camelify and snakeify plugins, on keys and on whole trees |
| `Json.dfy`, `Options.dfy`, `Arith.dfy` | JSON values; optional values; a few facts about division |

## What turned out

- A half-open episode admits two attempts, not one: opening the trial window does not spend the
  trial (circuitbreaker.go:43-47). The bound of two attempts per elapsed reset timeout is exact.
- `Allow` is asked per attempt but the outcome is reported per call. So a breaker can end half-open
  with its trial spent and nobody left to report, and it then refuses every request for ever. With
  every admitted call giving a signal, this is reachable if and only if the method is idempotent and
  the retry policy allows one retry or more; if calls never overlap, two or more.
- A deadline that strikes inside the body counts as a cancellation, although the request did reach
  the upstream (the comment at upstream.go:199-202 says otherwise): the breaker hears nothing. Two
  probes with stalled bodies therefore wedge it under every configuration, and no client has to leave.
- The comment on `breakerOutcomeFor` (upstream_error.go:143-146) says that any complete HTTP response
  proves the upstream alive; the table counts 5xx as failures, except when the body is over the
  size limit. The comment in `OnSuccess` (circuitbreaker.go:98) says a success while open should not
  happen; a late one can, exactly when two calls may be under way at once, and it is ignored. The
  export describes 409 as "different values" (export.go:422); the merge conflicts on any shared key.
  The model follows the code.
- Twice the limit can pass the rate limiter within one window length, and never more; it does happen
  in some run exactly when the limit is below the number of clock ticks in a window.
- snakeify undoes camelify on a key exactly when the key has no upper-case letter and, at each
  underscore, the next character is a lower-case letter, something precedes, and either the character
  before the underscore is a lower-case letter or digit that did not itself follow an underscore, or
  the second character after it is a lower-case letter and no newline is before it. So `user_id` comes back; `_id`, `line_1`,
  `a__b` and `a_b_c` do not.
- Round-robin keeps its balance across a wrap of the 64-bit counter exactly when the number of hosts
  divides 2^64.
- Pruning is not as safe as the comment on `pruneZeroNodes` says: the zero test ignores the tag, so an entry
  whose value is the text `0`, `false` or `0s` is dropped and comes back empty. In a configuration written in
  the types it is read back in, without duplicate keys, that is the only thing pruning can change. To a reader
  who takes every zero spelling for nothing it changes a reading exactly when it drops an entry that was
  masking a later, readable entry with the same key; a marshalled configuration has no duplicate keys.
- A document is reproduced by import and re-export exactly when a schema version is set, the flows
  that were written have no plugins or middlewares, have hosts everywhere and no transport that sets
  only http2, and the flows that were skipped left neither a path nor an authentication scheme behind.

## Model

| member | source | states |
|---|---|---|
| `Breaker.CircuitBreaker.constructor` | internal/circuitbreaker/circuitbreaker.go:27-35 | a new breaker is closed with no failures |
| `Breaker.CircuitBreaker.Allow` | internal/circuitbreaker/circuitbreaker.go:37-64 | the decision and the whole new state, in all three phases |
| `Breaker.CircuitBreaker.OnFailure` | internal/circuitbreaker/circuitbreaker.go:66-85 | the whole new state after a failure signal |
| `Breaker.CircuitBreaker.OnSuccess` | internal/circuitbreaker/circuitbreaker.go:87-100 | the whole new state after a success signal |
| `Breaker.EpisodesAreSpaced` | internal/circuitbreaker/circuitbreaker.go:37-85 | in every run, closing or not, any two half-open episodes start at least resetTimeout apart and each admits one or two attempts |
| `Breaker.AdmissionsMetered` | internal/circuitbreaker/circuitbreaker.go:37-85 | while the breaker does not close, the number of episodes and of admissions is metered by the time since the failure that opened it |
| `Breaker.AdmissionBound` | internal/circuitbreaker/circuitbreaker.go:37-100 | from a failure at T0, while the breaker does not close, at most 2·⌊d/resetTimeout⌋ attempts are admitted by T0+d, for any sequence of events including late outcomes |
| `Breaker.AdmissionBoundIsTight` | internal/circuitbreaker/circuitbreaker.go:37-100 | for every d some run admits exactly that many |
| `Breaker.CounterMeaning` | internal/circuitbreaker/circuitbreaker.go:66-100 | in every run the closed counter is the number of failures since the last success and is below the threshold; otherwise it equals the threshold; lastFailureAt is the latest failure |
| `Breaker.Transitions` | internal/circuitbreaker/circuitbreaker.go:41-99 | each phase change, both ways, told by the history alone |
| `BreakerCalls.RunProjects` | upstream.go:113-206 | a run of interleaved calls drives the breaker through exactly its Allow and report events, in time order, with the same admissions |
| `BreakerCalls.CallAdmissionBound` | upstream.go:113-206 | the admission bound for every interleaving of any number of calls |
| `BreakerCalls.WedgedForever` | internal/circuitbreaker/circuitbreaker.go:51-58 | half-open, trial spent, nobody left to report: every continuation admits nothing and changes nothing |
| `BreakerCalls.EscapeRun` | internal/circuitbreaker/circuitbreaker.go:37-100 | from every other state some continuation admits an attempt |
| `BreakerCalls.WedgedExactly` | internal/circuitbreaker/circuitbreaker.go:37-100 | the wedged states are exactly those no continuation recovers from |
| `BreakerCalls.NoRetryRecovers` | upstream.go:113-153 | where nothing is retried, no run in which every admitted call signals wedges the breaker, however many calls overlap |
| `BreakerCalls.AtMostOneRetryRecovers` | upstream.go:113-153 | with one retry and never more than one call under way, no such run wedges it |
| `BreakerCalls.SecondAttemptWedges` | upstream.go:113-153 | with two retries or more, a probing call whose two admitted attempts fail retryably wedges the breaker |
| `BreakerCalls.SecondCallWedges` | upstream.go:113-153 | with one retry or more, two overlapping calls whose first attempts fail retryably wedge it |
| `BreakerCalls.WedgeRun` | upstream.go:113-206 | such a run from a new breaker, for every threshold and timeout, in which only failures are retried |
| `BreakerCalls.SilentProbesWedge` | upstream.go:188-206 | two probes that end without a signal wedge the breaker for every retry count, one call at a time |
| `BreakerCalls.OneAtATimeIsPrompt` | internal/circuitbreaker/circuitbreaker.go:87-100 | with one call at a time, an admitted call finds the breaker not open until it has reported |
| `BreakerCalls.NoLateSuccess` | internal/circuitbreaker/circuitbreaker.go:87-100 | so with fewer than two calls at once no success reaches an open breaker, in any run |
| `Upstream.ReadBody` | upstream.go:318-347 | the body is returned whole exactly when it was read without fault within the limit; an oversized body is rejected even if a fault lies further out |
| `Upstream.SignalMeaning` | upstream_error.go:86-153 | which exchanges count as success, failure or nothing for the breaker |
| `Upstream.AnswerMeaning` | upstream.go:282-362 | the status of every answer is kept; body and headers are passed on only if it was read whole, and then exactly the headers that are not blacklisted |
| `Upstream.RetryMeaning` | upstream.go:158-186 | which exchanges are retried: with an idempotent method, those cut off by deadline or network before the headers, and whole answers, not redirects, with a listed status |
| `Upstream.CallWithRetry` | upstream.go:98-156 | the loop's response, number of dispatches and new breaker state equal the recursive specification, for every script |
| `Upstream.DispatchCount` | upstream.go:113-177 | whenever an answer is returned, exactly 1 + min(maxRetries, longest prefix of retryable exchanges) dispatches were made and the last answer is returned; refusal and cancellation only shorten it, and neither is reported without a cause |
| `Upstream.UndisturbedIsAnswered` | upstream.go:113-153 | without cancellation, and with no breaker or a closed one, an answer is always returned |
| `Upstream.NonIdempotentDispatchesOnce` | upstream.go:158-186 | a method that is not idempotent (section 9.2.2 of RFC 9110, with QUERY counted as idempotent) is dispatched at most once |
| `Upstream.LoopIsRun` | upstream.go:113-153 | run on its own beside waiting calls, the loop is a sequence of steps of the interleaved system; dispatches equal admissions |
| `Upstream.AloneIsLoop` | upstream.go:113-153 | the loop with a breaker is the loop given that breaker's answers |
| `Upstream.LoopInAnyRun` | upstream.go:98-206 | in every interleaving with any other calls, a call is admitted as often as the loop dispatches and reports the outcome the loop returns |
| `Upstream.Call` | upstream.go:81-96 | response after policy, dispatches, and the breaker state after one report, which precedes the policy |
| `Upstream.CallIsRun` | upstream.go:81-206 | a whole call, uninterrupted, is a run of the interleaved system that reports exactly once |
| `Upstream.Teller` | upstream.go:158-177 | under every configuration each signal can be given without a retry, and a failure with one if the method is idempotent |
| `Upstream.NonIdempotentIsModest` | upstream.go:158-186 | a method that is not idempotent is never retried in any run |
| `Upstream.WedgeReachableExactly` | upstream.go:113-206 | under every interleaving, from a new breaker a run in which every admitted call signals and every answer is one the code gives can wedge it if and only if maxRetries is at least 1 and the method is idempotent |
| `Upstream.WedgeReachableAtOnce` | upstream.go:113-206 | with at most k calls at once it can if and only if the method is idempotent and maxRetries is at least 2, or at least 1 and k at least 2 |
| `Upstream.StalledBodiesWedge` | upstream.go:318-336 | under every configuration two probes whose bodies stall past the deadline wedge the breaker, one call at a time and with every client staying |
| `Upstream.LateSuccessExactly` | internal/circuitbreaker/circuitbreaker.go:87-100 | for every configuration and threshold, a success can reach an open breaker if and only if two calls may be under way at once |
| `Upstream.CallIsWellFormed` | upstream.go:210-243 | the error kind of every returned response agrees with its status |
| `LoadBalancer.SelectLeastConns` | upstream.go:446-455 | the first host with the smallest scanned count is chosen |
| `LoadBalancer.ConnectionsConserved` | upstream.go:245-254 | in every interleaving of scans, increments and decrements each counter equals the calls in flight on its host, is never negative and is zero when idle; each choice is in range and smallest among the values read |
| `LoadBalancer.CallsProceed` | upstream.go:245-254 | in every interleaving no call is ever stuck: each can arrive, read the next counter, be dispatched to the host it chose, and leave |
| `LoadBalancer.ArrivalKeepsBalance` | upstream.go:446-455 | one more arrival turns the loads of m calls into those of m+1 |
| `LoadBalancer.OneByOneIsBalanced` | upstream.go:433-463 | in every run of the step system that dispatches each arrival before the next and loses none, m calls leave exactly ⌊m/n⌋ or ⌊m/n⌋+1 calls per host, earlier hosts first |
| `LoadBalancer.RoundRobin.SelectHost` | upstream.go:434-445 | the counter advances modulo 2^64 and the chosen host is its remainder; a lone host leaves it alone |
| `LoadBalancer.RoundRobin.SelectMany` | upstream.go:433-445 | the hosts given to any m consecutive selections and the counter after them, wrapping included |
| `LoadBalancer.RoundRobinBalance` | upstream.go:440-445 | over any m consecutive selections without wraparound, or when n divides 2^64, each of n hosts is chosen ⌊m/n⌋ or ⌈m/n⌉ times |
| `LoadBalancer.EvenForeverExactly` | upstream.go:440-445 | selections stay that even across every wrap of the 64-bit counter if and only if n divides 2^64 |
| `RateLimit.RateLimiter.constructor` | internal/ratelimit/ratelimit.go:32-47 | a new limiter knows no key |
| `RateLimit.RateLimiter.Allow` | internal/ratelimit/ratelimit.go:75-113 | decision and new map, equal to the value-level step |
| `RateLimit.RateLimiter.Cleanup` | internal/ratelimit/ratelimit.go:115-126 | exactly the entries older than two windows are dropped, in whatever order the map is walked |
| `RateLimit.RolledMeaning` | internal/ratelimit/ratelimit.go:81-100 | after rolling forward, the two counters are the log's counts for the current and previous aligned windows |
| `RateLimit.CountersAreTheLog` | internal/ratelimit/ratelimit.go:75-126 | in every run with cleanups anywhere, the map agrees with the admission log for every key |
| `RateLimit.DecidesAsLog` | internal/ratelimit/ratelimit.go:75-126 | Allow admits exactly when the plain log would: previous·(w−e) + current·w < limit·w |
| `RateLimit.CleanupIsUnobservable` | internal/ratelimit/ratelimit.go:115-126 | removing all cleanups from a run changes no answer |
| `RateLimit.KeysAreIndependent` | internal/ratelimit/ratelimit.go:75-90 | removing all requests for other keys changes no answer |
| `RateLimit.WindowCapped` | internal/ratelimit/ratelimit.go:102-112 | no aligned window admits more than the limit |
| `RateLimit.IntervalBound` | internal/ratelimit/ratelimit.go:90-112 | in any interval of length w ending at offset e, N·w < (limit+1)·w + P·e with P ≤ limit; N ≤ limit at a boundary, N ≤ 2·limit always |
| `RateLimit.BurstAdmitted` | internal/ratelimit/ratelimit.go:102-112 | where there is room for n more, every request of a burst of n is admitted and counted |
| `RateLimit.TwiceTheLimitExactly` | internal/ratelimit/ratelimit.go:90-112 | some run lets 2·limit through within one window length if and only if the limit is below the ticks in a window |
| `MapMerge.MergeObject` | aggregator.go:138-173 | folding one object in, keys in any order, gives the declarative merge of all objects so far; a clash is reported exactly when policy `error` meets a shared key |
| `MapMerge.MergesUnique` | aggregator.go:138-173 | the merge is determined by the objects alone |
| `MapMerge.OverrideMeaning` | aggregator.go:282-296 | plain map writes are the merge under `overwrite`: the last writer wins |
| `Aggregation.Scatter` | scatter.go:54-68 | for every finishing order, slot i holds what upstream i answered |
| `Aggregation.SharedFailureStatus` | aggregator.go:315-338 | the status every failed upstream shares as a client error, or zero when there is none |
| `Aggregation.CollectErrors` | aggregator.go:270-280 | the codes of all failed responses, in order |
| `Aggregation.MergeSuccessfulHeaders` | aggregator.go:282-296 | each header comes from the last successful response that has it |
| `Aggregation.CollectFields` | aggregator.go:90-146 | for every iteration order: the declarative merge, the recorded errors, and giving up exactly at the first upstream that blocks |
| `Aggregation.BestEffortMeaning` | aggregator.go:90-173 | a best-effort merge fails exactly when `error` meets a shared key; otherwise its keys are the union and each value is the one its policy names |
| `Aggregation.MergeResponses` | aggregator.go:63-85 | data, headers, deduplicated errors and partial flag of a merging flow |
| `Aggregation.MergeIsDeterministic` | aggregator.go:63-146 | a merging flow has one possible result, whatever the iteration orders |
| `Aggregation.ArrayResponses` | aggregator.go:175-220 | the non-empty bodies in order, or the combined failure |
| `Aggregation.NamespaceResponses` | aggregator.go:222-266 | each name's last successful body (null when empty), or the first failure's code with the shared status |
| `AggregationMeaning.MergeSucceedsExactly` | aggregator.go:90-173 | a merging flow gives data exactly when neither trouble without best effort nor a key shared under policy `error` stands in the way |
| `AggregationMeaning.MergedMeaning` | aggregator.go:63-146 | a merge that is not blocked returns the union of the keys its upstreams offer, each with the value its policy picks; the errors in order, each once; the kept headers; partial exactly when something succeeded and something did not |
| `AggregationMeaning.BodiesInOrder` | aggregator.go:182-206 | the array has one item per successful non-empty answer, each at its place in the order of the upstreams |
| `AggregationMeaning.ArrayedMeaning` | aggregator.go:175-220 | the same for the whole result of an array flow, with errors, headers and partial flag |
| `AggregationMeaning.NamespacedMeaning` | aggregator.go:222-266 | under each name stands the body of its last successful upstream, null when empty, and no other name occurs |
| `AggregationMeaning.CodesInOrder` | aggregator.go:270-280 | one code per failed upstream, in their order |
| `AggregationMeaning.ProblemsInOrder` | aggregator.go:90-146 | one code per failed or malformed answer, in their order |
| `AggregationMeaning.HeadersMeaning` | aggregator.go:282-296 | a header is present exactly when a successful answer has it, with the value of the last one |
| `AggregationMeaning.FailureStatus` | router.go:499-537 | the status of failed upstreams by how they failed: 500 exactly when all failed inside the gateway, 503 exactly when none was oversized and the first failure from outside was a cancellation, otherwise 502 |
| `Aggregation.Aggregate` | aggregator.go:43-55 | dispatch to the strategy |
| `ErrorStatus.SelectPrimaryError` | router.go:499-512 | the first error of the highest priority, which is the one every status below is computed from |
| `ErrorStatus.PrimaryUnique` | router.go:499-512 | there is only one such code |
| `ErrorStatus.Primary` | router.go:499-512 | the same choice as a function, for every non-empty list |
| `ErrorStatus.PrimaryByRank` | router.go:683-702 | the choice without numbers: the first code of the highest of six ranks that occurs |
| `ErrorStatus.StatusMeaning` | router.go:514-537 | for every list of errors, exactly when it becomes 429, 401, 413, 409, 503 or 500; otherwise 502 |
| `ErrorStatus.DedupeErrors` | aggregator.go:298-313 | each code once, in order of first appearance |
| `ErrorStatus.DedupedMeaning` | aggregator.go:298-313 | the same codes, each once, ordered by where they first appear |
| `ErrorStatus.DedupeKeepsPrimary` | aggregator.go:298-313 | deduplication never changes which error is chosen |
| `ErrorStatus.UpstreamStatuses` | router.go:514-537 | failures of upstreams alone reduce to 500, 502 or 503 |
| `Gateway.VerdictMeaning` | upstream_error.go:86-177 | the error code of every exchange after policy, told from the exchange alone |
| `Gateway.ExchangeMeaning` | router.go:334-384 | one exchange after policy is forwarded verbatim exactly when it is a complete answer below 500, within the size limit and non-empty if a body is required; else a problem document naming its code, with 500 if the gateway is at fault, 503 if it was cut short, 502 otherwise |
| `Gateway.ProxyMeaning` | router.go:334-384 | the same for a whole single-upstream call with retries and breaker; otherwise the status is 500, 502 or 503; refused by the breaker it is 502, canceled 503 |
| `Gateway.DeadlineMeaning` | upstream.go:244-386 | a deadline before the headers is a failure for the breaker, retried if idempotent, and 502; one inside the body is no signal, never retried, and 503 |
| `Gateway.ArrayStatus` | router.go:467-491 | best effort off: the status is client error s exactly when every failed upstream answered s, otherwise that of the highest-priority error |
| `Gateway.MergeFailsLikeArray` | aggregator.go:98-146 | merge agrees with array unless an earlier upstream sent a malformed body (502) or a conflict (409), reported under its own code |
| `Gateway.MergeStatus` | router.go:467-491 | a merge that runs to its end gives 206 exactly when something succeeded and something went wrong, 200 exactly when nothing did, and the array's status when nothing succeeded |
| `Gateway.NamespaceStatus` | aggregator.go:231-240 | namespacing, best effort off: the shared client error as for the array, otherwise the first failure's code decides |
| `Gateway.UnencodableResponse` | aggregator.go:74-77 | data the encoder rejects gives 500, from an array 502 |
| `Gateway.FinalResponse` | router.go:427-491 | for every strategy the status is expected, 204 and 304 never occur; the body is a problem document with all errors and the primary one as title exactly when there are errors and the result is not partial, else the data, with the errors beside it when partial |
| `OpenApi.AttachOperation` | internal/openapi/export.go:152-190 | the slot is filled if it exists and is free, with the matching warning otherwise |
| `OpenApi.FromConfig` | internal/openapi/export.go:58-139 | the exported document and its warnings, or an error for an unknown version |
| `OpenApiImport.ReconstructFlow` | internal/openapi/import.go:163-260 | the rebuilt flow and its warnings, upstream by upstream |
| `OpenApiImport.SortedPaths` | internal/openapi/import.go:415-424 | the paths in strictly ascending order, whatever the map order |
| `OpenApiImport.AscendingUnique` | internal/openapi/import.go:415-424 | that order is unique, so the import is deterministic |
| `OpenApiImport.ToConfig` | internal/openapi/import.go:59-142 | the imported configuration and warnings; errors for an unknown mode and for no operations |
| `OpenApiRoundTrip.FlowRoundTrip` | internal/openapi/export.go:616-707 | every flow, exported and rebuilt, comes back in its normal form |
| `OpenApiRoundTrip.SilentExactly` | internal/openapi/import.go:190-257 | the importer says nothing about a flow exactly when it has hosts and no TLS, plugins or middlewares |
| `OpenApiRoundTrip.TransportExactly` | internal/openapi/export.go:697-707 | exactly which transports survive a round trip and a second export |
| `OpenApiRoundTrip.SlotsFilled` | internal/openapi/export.go:91-112 | a slot is filled exactly when a flow asks for it and the method is supported |
| `OpenApiRoundTrip.SlotHolds` | internal/openapi/export.go:152-190 | with distinct flows each slot holds its own flow's operation |
| `OpenApiRoundTrip.ExportSkipsExactly` | internal/openapi/export.go:152-190 | a flow is reported skipped exactly when a method is unsupported or a slot is asked for twice |
| `OpenApiRoundTrip.FirstHolds` | internal/openapi/export.go:91-190 | for every list of flows, each slot holds the operation of the first flow that asks for it |
| `OpenApiRoundTrip.ImportedFlows` | internal/openapi/import.go:76-105 | importing the export of any configuration yields the normal form of the first supported flow of each slot, no slot twice |
| `OpenApiRoundTrip.RoundTrip` | internal/openapi/import.go:59-142 | for every configuration: those flows in normal form as a multiset, the same rate-limiter flag, the same schema or v1; an error if there are none |
| `OpenApiRoundTrip.FlowsKeptExactly` | internal/openapi/import.go:163-304 | only TLS details and transport.http2 may differ, exactly when every upstream has hosts and a transport and there are no plugins or middlewares |
| `OpenApiRoundTrip.StableExactly` | internal/openapi/export.go:616-707 | a flow's extension is reproduced exactly when it has hosts, no plugins or middlewares, and each transport is empty or sets something besides http2 |
| `OpenApiRoundTrip.SamePathsExactly` | internal/openapi/export.go:91-112 | the paths are reproduced if and only if the written flows are of that kind and every path has one |
| `OpenApiRoundTrip.ExportIsStable` | internal/openapi/export.go:58-139 | export after import after export is the first document if and only if, besides, a schema version is set and no flow, skipped or not, asks for authentication |
| `OpenApiMeaning.DocumentMeaning` | internal/openapi/export.go:58-139 | version, title, API version, servers, schema, generator, tags, problem schemas and auth scheme of the document, told from configuration and options |
| `OpenApiMeaning.FindAuthMeaning` | internal/openapi/export.go:574-583 | authentication is that of the first built-in auth middleware |
| `OpenApiMeaning.OperationMeaning` | internal/openapi/export.go:91-97 | what an operation shows of its flow, upstream by upstream |
| `OpenApiMeaning.OmittedParts` | internal/openapi/export.go:662-707 | which parts of an upstream an extension leaves out |
| `OpenApiMeaning.ExportWarningsExactly` | internal/openapi/export.go:152-190 | each exporter warning is given exactly when it is due |
| `OpenApiMeaning.AbsentParts` | internal/openapi/import.go:175-232 | the values that stand in for parts an extension leaves out and for durations nobody can read |
| `OpenApiMeaning.ImportedHead` | internal/openapi/import.go:426-440 | schema, service name, flows and rate-limiter flag of an imported configuration, whatever the document |
| `OpenApiMeaning.DocumentRead` | internal/openapi/import.go:76-105 | for any document, exported or not: the flows read are exactly what its operations become, and a limiter is seen exactly when one mentions 429 |
| `OpenApiMeaning.ExtensionWarningsExactly` | internal/openapi/import.go:163-260 | each importer warning about any extension is given exactly when it is due |
| `OpenApiMeaning.FlowWarningsExactly` | internal/openapi/import.go:163-260 | each importer warning about an exported flow is given exactly when it is due |
| `OpenApiMeaning.ImportWarningsExactly` | internal/openapi/import.go:59-142 | over a whole import of an export, in any path order, exactly those and the rate limiter's |
| `OpenApiMeaning.ImportIsSorted` | internal/openapi/import.go:90-105 | the flows of an imported export stand in order of path, and within a path of slot |
| `OpenApiMeaning.DocumentWarningsExactly` | internal/openapi/import.go:107-142 | beyond its operations a document is warned about exactly when it is our own and lacks extensions, and when a limiter was seen |
| `YamlReading.ZeroSpellings` | cmd/aastroctl/openapi.go:256-276 | a scalar is dropped exactly when it is null or spells the zero of a boolean, integer, duration or text |
| `YamlReading.PruneDropsSpellings` | cmd/aastroctl/openapi.go:231-245 | no such entry is left in any mapping at any depth |
| `YamlReading.TypedReadingExactly` | cmd/aastroctl/openapi.go:223-276 | for every tree, path and expected type: a reading survives if and only if its path takes no dropped entry, or what stood there and what comes to light both read like an absent field |
| `YamlReading.ConfigurationKeptExactly` | cmd/aastroctl/openapi.go:223-276 | a well-typed configuration without duplicate keys reads the same at every path if and only if no text entry is spelled `0`, `false` or `0s` |
| `YamlReading.TextIsLost` | cmd/aastroctl/openapi.go:263-268 | the text `false` comes back empty |
| `YamlPrune.PrunePreservesReadingExactly` | cmd/aastroctl/openapi.go:223-276 | for every tree and a reader who takes each zero spelling for nothing: all key/index paths read the same before and after if and only if no dropped entry masks a later readable one with its key |
| `YamlPrune.PrunePreservesReading` | cmd/aastroctl/openapi.go:223-276 | so they do in every tree without duplicate keys, such as the marshalled configuration |
| `YamlPrune.ShadowedValueAppears` | cmd/aastroctl/openapi.go:231-245 | a tree where an entry is masked, and the path that changes |
| `YamlPrune.PruneCleans` | cmd/aastroctl/openapi.go:226-254 | no mapping keeps a zero value at any depth |
| `YamlPrune.PruneFixpoints` | cmd/aastroctl/openapi.go:226-254 | a tree is left alone exactly when it is clean; a second pass changes nothing |
| `YamlNodes.YamlNode.IsZeroNode` | cmd/aastroctl/openapi.go:256-276 | the zero test on a linked node |
| `YamlNodes.YamlNode.PruneZeroNodes` | cmd/aastroctl/openapi.go:226-254 | rewriting linked nodes in place leaves a tree that is the pruned value of the old one |
| `KeyCasing.SnakeToCamel` | builtin/plugins/camelify/camelify.go:87-97 | first piece as it is, the others capitalised, glued together |
| `KeyCasing.CaseMeaning` | builtin/plugins/camelify/camelify.go:87-97 | which characters have a case, and their counterparts |
| `KeyCasing.CamelIsOnePass` | builtin/plugins/camelify/camelify.go:87-97 | for every string, splitting, capitalising and joining is one pass that drops underscores and capitalises what follows one |
| `KeyCasing.TwoPassesAreOne` | builtin/plugins/snakeify/snakeify.go:90-98 | the two regular-expression passes insert exactly the breaks of one simple rule |
| `KeyCasing.CamelToSnakeMeaning` | builtin/plugins/snakeify/snakeify.go:95-100 | camelToSnake as one pass, for every string |
| `KeyCasing.KeyRoundTripExactly` | builtin/plugins/snakeify/snakeify.go:90-100 | for every string, snakeify undoes camelify if and only if there is no upper case and after every underscore comes a lower-case letter that snakeify will break before |
| `KeyCasing.KeyRoundTrip` | builtin/plugins/snakeify/snakeify.go:90-100 | on a key of snake words, if and only if no inner one-letter word is followed by a word without a letter in second place |
| `KeyCasing.LeadingUnderscore` | builtin/plugins/camelify/camelify.go:87-97 | a key with a leading underscore never comes back: `_id` becomes `id` |
| `KeyCasing.KeyNeverGrows` | builtin/plugins/snakeify/snakeify.go:90-100 | through both plugins a key loses its upper case, and one without never gets longer and changes only by getting shorter |
| `JsonKeys.TransformKeys` | builtin/plugins/snakeify/snakeify.go:69-88 | the result is one the map iteration order allows, at every depth |
| `JsonKeys.TreeRoundTrip` | builtin/plugins/camelify/camelify.go:66-85 | on every tree and for every iteration order, snakeify after camelify gives the tree back if and only if every key does come back; then no two keys collide |
| `JsonKeys.SnakeTreeRoundTrip` | builtin/plugins/camelify/camelify.go:66-85 | so every tree of such snake keys comes back |
| `JsonKeys.CasingIsIdempotent` | builtin/plugins/camelify/camelify.go:87-97 | both key functions leave their own output alone |
| `JsonKeys.TransformTwice` | builtin/plugins/snakeify/snakeify.go:69-100 | each plugin is the identity on its own output trees |

## Left out

- HTTP clients and servers, TLS handshakes, certificate loading, plugin loading and chi routing: library behaviour; an exchange with an upstream is arbitrary.
- Metrics, tracing, logging, request identifiers and fingerprints: no effect on the modelled results.
- JSON and YAML bytes: values are taken as parsed; decoding is a parameter, and whether an encoder accepts the result is a parameter.
- Duration text: a printed duration is represented by the duration, so printing and parsing are inverse by construction.
- Floating-point rounding in the limiter: the estimate is kept as an exact scaled integer; a window of zero or less is not modelled.
- A negative retry count (the loop body is skipped and a nil response dereferenced), and a breaker threshold below one in the statements about the counter.
- An upstream error kind outside the table, and a body reader that returns its last bytes together with an error.
- Non-ASCII letters in keys: case is that of ASCII, and camelify's byte-wise capital of a multi-byte character is not modelled.
- The difference between a nil and an empty list in configurations, gateway ports, and TLS and HTTP2 validation.
- Scaffolding of flows from foreign documents: a function parameter of the importer.
- Headers the gateway itself sets on responses, hop-by-hop filtering, streaming flows, request body limits and plugin execution order.
- Forwarding headers, client IP extraction, JWT, CORS, compression, logging and masking: thin wrappers or single-branch checks.
- Integer and duration parsing in the typed reader of YAML: any parsers that agree with Go's on the four zero spellings; the tag matters to it only where it is null.
- YAML aliases are leaves: the model, like the pruning, does not follow them, and a node that is reachable twice is not modelled.
