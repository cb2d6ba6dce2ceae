/** Reading a document back into a configuration (internal/openapi/import.go). */
module OpenApiImport {
  import opened Options
  import opened OpenApi

  // ----------------------------------------------------- One operation

  /** parseDurationOr with fallback zero. */
  function ParsedOrZero(t: DurationText): int {
    if t.Printed? then t.d else 0
  }

  function Complaint(t: DurationText, upstream: string): seq<Warning> {
    if t.Unreadable? then [Unparsable(upstream)] else []
  }

  function ReconstructedPolicy(p: PolicyExt): PolicyConfig {
    PolicyConfig(
      p.blacklist, p.requireBody, p.maxBody, p.followRedirects,
      (match p.retry
       case None => NO_RETRY
       case Some(r) => RetryConfig(r.maxRetries, r.statuses, ParsedOrZero(r.backoff))),
      (match p.breaker
       case None => NO_BREAKER
       case Some(b) => BreakerConfig(b.enabled, b.maxFailures, ParsedOrZero(b.resetTimeout))),
      p.loadBalancing)
  }

  function PolicyWarnings(p: PolicyExt, upstream: string): seq<Warning> {
    (if p.retry.Some? then Complaint(p.retry.value.backoff, upstream) else []) +
    (if p.breaker.Some? then Complaint(p.breaker.value.resetTimeout, upstream) else [])
  }

  function ReconstructedUpstream(u: UpstreamExt): UpstreamConfig {
    UpstreamConfig(
      u.name, if u.hosts == [] then [PLACEHOLDER_HOST] else u.hosts, u.path, u.httpMethod,
      ParsedOrZero(u.timeout), u.forwardHeaders, u.forwardQueries, u.forwardParams,
      (match u.policy case None => NO_POLICY case Some(p) => ReconstructedPolicy(p)),
      (match u.transport
       case None => DEFAULT_TRANSPORT
       case Some(t) => TransportConfig(t.maxIdle, t.maxIdlePerHost, ParsedOrZero(t.idleTimeout), "")),
      TlsConfig(u.tlsEnabled, ""))
  }

  function UpstreamWarnings(u: UpstreamExt): seq<Warning> {
    (if u.hosts == [] then [HostsMissing(u.name)] else []) +
    Complaint(u.timeout, u.name) +
    (if u.policy.Some? then PolicyWarnings(u.policy.value, u.name) else []) +
    (if u.transport.Some? then Complaint(u.transport.value.idleTimeout, u.name) else []) +
    (if u.tlsEnabled then [TlsWithSystemRoots(u.name)] else [])
  }

  function ReconstructedUpstreams(us: seq<UpstreamExt>): seq<UpstreamConfig> {
    seq(|us|, i requires 0 <= i < |us| => ReconstructedUpstream(us[i]))
  }

  function AllUpstreamWarnings(us: seq<UpstreamExt>): seq<Warning> {
    if us == [] then [] else AllUpstreamWarnings(us[..|us| - 1]) + UpstreamWarnings(us[|us| - 1])
  }

  function ReconstructedFlow(path: string, httpMethod: string, ext: FlowExt): FlowConfig {
    FlowConfig(path, httpMethod, ext.streaming, ext.aggregation, ReconstructedUpstreams(ext.upstreams), [], [])
  }

  function FlowWarnings(ext: FlowExt): seq<Warning> {
    AllUpstreamWarnings(ext.upstreams) +
    (if ext.plugins != [] then [PluginsDropped(ext.plugins)] else []) +
    (if ext.middlewares != [] then [MiddlewaresDropped(ext.middlewares)] else [])
  }

  method ReconstructFlow(path: string, httpMethod: string, ext: FlowExt)
    returns (flow: FlowConfig, warnings: seq<Warning>)
    ensures flow == ReconstructedFlow(path, httpMethod, ext)
    ensures warnings == FlowWarnings(ext)
  {
    var upstreams: seq<UpstreamConfig> := [];
    warnings := [];
    for n := 0 to |ext.upstreams|
      invariant upstreams == ReconstructedUpstreams(ext.upstreams[..n])
      invariant warnings == AllUpstreamWarnings(ext.upstreams[..n])
    {
      assert ext.upstreams[..n + 1][..n] == ext.upstreams[..n];
      upstreams := upstreams + [ReconstructedUpstream(ext.upstreams[n])];
      warnings := warnings + UpstreamWarnings(ext.upstreams[n]);
    }
    assert ext.upstreams[..|ext.upstreams|] == ext.upstreams;
    if ext.plugins != [] {
      warnings := warnings + [PluginsDropped(ext.plugins)];
    }
    if ext.middlewares != [] {
      warnings := warnings + [MiddlewaresDropped(ext.middlewares)];
    }
    flow := FlowConfig(path, httpMethod, ext.streaming, ext.aggregation, upstreams, [], []);
  }

  // ----------------------------------------------------- All operations

  /** How an operation without extensions becomes a flow; not part of this model. */
  type Scaffold = (string, string, Operation) -> (FlowConfig, seq<Warning>)

  function Convert(scaffold: Scaffold, path: string, httpMethod: string, op: Operation): (FlowConfig, seq<Warning>) {
    match op.ext
    case Some(ext) => (ReconstructedFlow(path, httpMethod, ext), FlowWarnings(ext))
    case None => scaffold(path, httpMethod, op)
  }

  datatype Gathered = Gathered(flows: seq<FlowConfig>, warnings: seq<Warning>, limited: bool, extended: bool)

  const NOTHING := Gathered([], [], false, false)

  function Handle(scaffold: Scaffold, g: Gathered, path: string, httpMethod: string, op: Operation): Gathered {
    var (flow, ws) := Convert(scaffold, path, httpMethod, op);
    Gathered(g.flows + [flow], g.warnings + ws, g.limited || op.has429, g.extended || op.ext.Some?)
  }

  /** Having read the first n slots of the item at `path`. */
  function GatherSlots(scaffold: Scaffold, g: Gathered, path: string, item: PathItem, n: nat): Gathered
    requires n <= |METHODS|
  {
    if n == 0 then g else
    var before, m := GatherSlots(scaffold, g, path, item, n - 1), METHODS[n - 1];
    if m in item then Handle(scaffold, before, path, m, item[m]) else before
  }

  function GatherPaths(scaffold: Scaffold, paths: map<string, PathItem>, order: seq<string>): Gathered {
    if order == [] then NOTHING else
    var before, p := GatherPaths(scaffold, paths, order[..|order| - 1]), order[|order| - 1];
    GatherSlots(scaffold, before, p, ItemAt(paths, p), |METHODS|)
  }

  datatype ImportResult =
    | UnsupportedMode
    | NoOperations(warnings: seq<Warning>)
    | Imported(cfg: Config, warnings: seq<Warning>)

  function ImportFrom(doc: Document, g: Gathered): ImportResult {
    if g.flows == [] then NoOperations(g.warnings)
    else
      Imported(
        Config(Coalesce(doc.schema, "v1"), Coalesce(doc.title, "aastro"), g.limited, g.flows),
        g.warnings +
        (if "aastroctl/" <= doc.generator && !g.extended then [ExtensionsMissing] else []) +
        (if g.limited then [RateLimiterDefaulted] else []))
  }

  // ------------------------------------------------------- Sorted paths

  /** Byte-wise order of strings. */
  predicate Less(a: string, b: string) {
    b != "" && (a == "" || a[0] < b[0] || (a[0] == b[0] && Less(a[1..], b[1..])))
  }

  lemma {:induction false} LessTransitive(a: string, b: string, c: string)
    requires Less(a, b) && Less(b, c)
    ensures Less(a, c)
  {
    if a != "" && a[0] == b[0] == c[0] {
      LessTransitive(a[1..], b[1..], c[1..]);
    }
  }

  lemma {:induction false} LessTotal(a: string, b: string)
    ensures Less(a, b) || a == b || Less(b, a)
    ensures !(Less(a, b) && Less(b, a)) && !Less(a, a)
  {
    if a != "" {
      LessTotal(a[1..], a[1..]);
      if b != "" {
        LessTotal(a[1..], b[1..]);
        assert a[0] == b[0] && a[1..] == b[1..] ==> a == [a[0]] + a[1..] == [b[0]] + b[1..] == b;
      }
    }
  }

  ghost predicate Ascending(s: seq<string>) {
    forall i, j | 0 <= i < j < |s| :: Less(s[i], s[j])
  }

  ghost predicate Enumerates(order: seq<string>, keys: set<string>) {
    && (forall p :: p in order <==> p in keys)
    && (forall i, j | 0 <= i < j < |order| :: order[i] != order[j])
  }

  method InsertPath(s: seq<string>, p: string) returns (t: seq<string>)
    requires Ascending(s) && p !in s
    ensures Ascending(t) && forall q :: q in t <==> q in s || q == p
  {
    var i := 0;
    while i < |s| && Less(s[i], p)
      invariant 0 <= i <= |s|
      invariant forall j | 0 <= j < i :: Less(s[j], p)
    {
      i := i + 1;
    }
    t := s[..i] + [p] + s[i..];
    forall j | i <= j < |s| ensures Less(p, s[j]) {
      LessTotal(s[i], p);
      assert s[i] in s;
      if i < j {
        LessTransitive(p, s[i], s[j]);
      }
    }
    assert s == s[..i] + s[i..];
  }

  /** The paths in ascending order, whatever order the map yields them in. */
  method SortedPaths(paths: map<string, PathItem>) returns (order: seq<string>)
    ensures Ascending(order) && Enumerates(order, paths.Keys)
  {
    order := [];
    var pending := paths.Keys;
    while pending != {}
      invariant pending <= paths.Keys
      invariant Ascending(order)
      invariant forall p :: p in order <==> p in paths && p !in pending
      decreases |pending|
    {
      var p :| p in pending;
      order := InsertPath(order, p);
      pending := pending - {p};
    }
    forall i, j | 0 <= i < j < |order| ensures order[i] != order[j] {
      LessTotal(order[i], order[j]);
    }
  }

  lemma HeadIsLeast(s: seq<string>)
    requires Ascending(s) && s != []
    ensures s[0] !in s[1..] && Ascending(s[1..])
  {
    LessTotal(s[0], s[0]);
  }

  /** There is only one ascending order, so the import is deterministic. */
  lemma {:induction false} AscendingUnique(s: seq<string>, t: seq<string>)
    requires Ascending(s) && Ascending(t) && forall p :: p in s <==> p in t
    ensures s == t
  {
    assert |t| > 0 ==> t[0] in t;
    if s != [] {
      assert s[0] in s;
      var i :| 0 <= i < |t| && t[i] == s[0];
      var j :| 0 <= j < |s| && s[j] == t[0];
      LessTotal(s[0], t[0]);
      assert s[0] == t[0];
      HeadIsLeast(s);
      HeadIsLeast(t);
      assert s == [s[0]] + s[1..] && t == [t[0]] + t[1..];
      forall p ensures p in s[1..] <==> p in t[1..] {
        assert p in s <==> p in t;
      }
      AscendingUnique(s[1..], t[1..]);
    }
  }

  // ---------------------------------------------------------- ToConfig

  method ToConfig(doc: Document, mode: string, scaffold: Scaffold) returns (r: ImportResult)
    ensures mode !in {"", "proxy", "streaming"} ==> r == UnsupportedMode
    ensures mode in {"", "proxy", "streaming"} ==>
              exists order :: Ascending(order) && Enumerates(order, doc.paths.Keys) &&
                              r == ImportFrom(doc, GatherPaths(scaffold, doc.paths, order))
  {
    if mode !in {"", "proxy", "streaming"} {
      return UnsupportedMode;
    }
    var order := SortedPaths(doc.paths);
    var g := NOTHING;
    for k := 0 to |order|
      invariant g == GatherPaths(scaffold, doc.paths, order[..k])
    {
      assert order[..k + 1][..k] == order[..k];
      assert order[k] in order;
      var path, item, start := order[k], doc.paths[order[k]], g;
      for n := 0 to |METHODS|
        invariant g == GatherSlots(scaffold, start, path, item, n)
      {
        if METHODS[n] in item {
          var op := item[METHODS[n]];
          var flow, ws;
          if op.ext.Some? {
            flow, ws := ReconstructFlow(path, METHODS[n], op.ext.value);
          } else {
            var (f, w) := scaffold(path, METHODS[n], op);
            flow, ws := f, w;
          }
          g := Gathered(g.flows + [flow], g.warnings + ws, g.limited || op.has429, g.extended || op.ext.Some?);
        }
      }
    }
    assert order[..|order|] == order;
    r := ImportFrom(doc, g);
  }
}
