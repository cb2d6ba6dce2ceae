/**
 Gateway configurations and OpenAPI documents with x-aastro extensions: what the
 exporter writes and what the importer reads back (internal/openapi).

 A duration's printed form is represented by the duration it denotes. The prose of
 an operation (summary, description, parameters, response descriptions) is
 represented by the parts of the flow it is computed from.
 */
module OpenApi {
  import opened Options

  // ------------------------------------------------------- Configuration

  datatype RetryConfig = RetryConfig(maxRetries: int, statuses: seq<int>, backoff: int)

  datatype BreakerConfig = BreakerConfig(enabled: bool, maxFailures: int, resetTimeout: int)

  datatype PolicyConfig = PolicyConfig(
    blacklist: seq<string>, requireBody: bool, maxBody: int, followRedirects: bool,
    retry: RetryConfig, breaker: BreakerConfig, loadBalancing: string)

  datatype TransportConfig = TransportConfig(maxIdle: int, maxIdlePerHost: int, idleTimeout: int, http2: string)

  datatype TlsConfig = TlsConfig(enabled: bool, details: string)

  datatype UpstreamConfig = UpstreamConfig(
    name: string, hosts: seq<string>, path: string, httpMethod: string, timeout: int,
    forwardHeaders: seq<string>, forwardQueries: seq<string>, forwardParams: seq<string>,
    policy: PolicyConfig, transport: TransportConfig, tls: TlsConfig)

  datatype OnConflict = OnConflict(policy: string, upstream: string)

  datatype AggregationConfig = AggregationConfig(bestEffort: bool, strategy: string, onConflict: Option<OnConflict>)

  datatype Extra = Extra(name: string, source: string, config: string)

  datatype FlowConfig = FlowConfig(
    path: string, httpMethod: string, streaming: bool, aggregation: Option<AggregationConfig>,
    upstreams: seq<UpstreamConfig>, plugins: seq<Extra>, middlewares: seq<Extra>)

  datatype Config = Config(schema: string, service: string, rateLimited: bool, flows: seq<FlowConfig>)

  const NO_RETRY := RetryConfig(0, [], 0)
  const NO_BREAKER := BreakerConfig(false, 0, 0)
  const NO_POLICY := PolicyConfig([], false, 0, false, NO_RETRY, NO_BREAKER, "")
  const NO_TRANSPORT := TransportConfig(0, 0, 0, "")
  const SECOND: int := 1_000_000_000
  const DEFAULT_TRANSPORT := TransportConfig(100, 50, 90 * SECOND, "auto")
  const PLACEHOLDER_HOST := "https://CHANGE-ME.internal"

  // ------------------------------------------------------------ Document

  datatype DurationText = Blank | Printed(d: int) | Unreadable(raw: string)

  datatype RetryExt = RetryExt(maxRetries: int, statuses: seq<int>, backoff: DurationText)

  datatype BreakerExt = BreakerExt(enabled: bool, maxFailures: int, resetTimeout: DurationText)

  datatype PolicyExt = PolicyExt(
    blacklist: seq<string>, requireBody: bool, maxBody: int, followRedirects: bool,
    retry: Option<RetryExt>, breaker: Option<BreakerExt>, loadBalancing: string)

  datatype TransportExt = TransportExt(maxIdle: int, maxIdlePerHost: int, idleTimeout: DurationText)

  datatype UpstreamExt = UpstreamExt(
    name: string, hosts: seq<string>, path: string, httpMethod: string, timeout: DurationText,
    forwardHeaders: seq<string>, forwardQueries: seq<string>, forwardParams: seq<string>,
    tlsEnabled: bool, policy: Option<PolicyExt>, transport: Option<TransportExt>)

  datatype FlowExt = FlowExt(
    streaming: bool, aggregation: Option<AggregationConfig>, upstreams: seq<UpstreamExt>,
    middlewares: seq<string>, plugins: seq<string>)

  datatype UpstreamProse = UpstreamProse(name: string, queries: seq<string>, headers: seq<string>)

  /** Everything the human-readable part of an operation depends on. */
  datatype Prose = Prose(
    path: string, httpMethod: string, streaming: bool, aggregation: Option<AggregationConfig>,
    upstreams: seq<UpstreamProse>, auth: Option<Extra>)

  datatype Operation = Operation(prose: Prose, has429: bool, ext: Option<FlowExt>)

  /** One optional operation per method. */
  type PathItem = map<string, Operation>

  datatype Document = Document(
    openapi: string, title: string, version: string, servers: seq<string>,
    schema: string, generator: string,
    tagged: set<string>, problemSchemas: bool, authScheme: bool,
    paths: map<string, PathItem>)

  /** The slots of a path item in the order they are read back, QUERY last. */
  const METHODS: seq<string> := ["GET", "PUT", "POST", "DELETE", "OPTIONS", "HEAD", "PATCH", "QUERY"]

  // --------------------------------------------------------- Exporting

  function PolicyExtension(p: PolicyConfig): Option<PolicyExt> {
    if p == NO_POLICY then None
    else Some(PolicyExt(
      p.blacklist, p.requireBody, p.maxBody, p.followRedirects,
      if p.retry == NO_RETRY then None
      else Some(RetryExt(p.retry.maxRetries, p.retry.statuses, Printed(p.retry.backoff))),
      if p.breaker == NO_BREAKER then None
      else Some(BreakerExt(p.breaker.enabled, p.breaker.maxFailures, Printed(p.breaker.resetTimeout))),
      p.loadBalancing))
  }

  function TransportExtension(t: TransportConfig): Option<TransportExt> {
    if t == NO_TRANSPORT || t == DEFAULT_TRANSPORT then None
    else Some(TransportExt(t.maxIdle, t.maxIdlePerHost, Printed(t.idleTimeout)))
  }

  function UpstreamExtension(u: UpstreamConfig): UpstreamExt {
    UpstreamExt(u.name, u.hosts, u.path, u.httpMethod, Printed(u.timeout),
                u.forwardHeaders, u.forwardQueries, u.forwardParams, u.tls.enabled,
                PolicyExtension(u.policy), TransportExtension(u.transport))
  }

  function Names(es: seq<Extra>): seq<string> {
    seq(|es|, i requires 0 <= i < |es| => es[i].name)
  }

  function FlowExtension(f: FlowConfig): FlowExt {
    FlowExt(f.streaming, f.aggregation,
            seq(|f.upstreams|, i requires 0 <= i < |f.upstreams| => UpstreamExtension(f.upstreams[i])),
            Names(f.middlewares), Names(f.plugins))
  }

  /** The first built-in auth middleware. */
  function FindAuth(ms: seq<Extra>): Option<Extra> {
    if ms == [] then None
    else if ms[0].name == "auth" && ms[0].source == "builtin" then Some(ms[0])
    else FindAuth(ms[1..])
  }

  function ProseOf(f: FlowConfig): Prose {
    Prose(f.path, f.httpMethod, f.streaming, f.aggregation,
          seq(|f.upstreams|, i requires 0 <= i < |f.upstreams| =>
              UpstreamProse(f.upstreams[i].name, f.upstreams[i].forwardQueries, f.upstreams[i].forwardHeaders)),
          FindAuth(f.middlewares))
  }

  function BuildOperation(f: FlowConfig, rateLimited: bool, extensions: bool): Operation {
    Operation(ProseOf(f), rateLimited, if extensions then Some(FlowExtension(f)) else None)
  }

  datatype Warning =
    | QueryAsExtension(httpMethod: string, path: string)
    | DuplicateSkipped(httpMethod: string, path: string)
    | UnsupportedSkipped(httpMethod: string, path: string)
    | HostsMissing(upstream: string)
    | Unparsable(upstream: string)
    | TlsWithSystemRoots(upstream: string)
    | PluginsDropped(names: seq<string>)
    | MiddlewaresDropped(names: seq<string>)
    | RateLimiterDefaulted
    | ExtensionsMissing

  /** Puts an operation into its slot, unless the slot is taken or does not exist. */
  method AttachOperation(item: PathItem, f: FlowConfig, op: Operation)
    returns (item': PathItem, warnings: seq<Warning>)
    ensures item' == Attached(item, f, op)
    ensures warnings == AttachWarnings(item, f)
  {
    if f.httpMethod == "QUERY" {
      if "QUERY" !in item {
        return item["QUERY" := op], [QueryAsExtension(f.httpMethod, f.path)];
      }
      return item, [DuplicateSkipped(f.httpMethod, f.path)];
    }
    if f.httpMethod !in METHODS {
      return item, [UnsupportedSkipped(f.httpMethod, f.path)];
    }
    if f.httpMethod in item {
      return item, [DuplicateSkipped(f.httpMethod, f.path)];
    }
    return item[f.httpMethod := op], [];
  }

  function Attached(item: PathItem, f: FlowConfig, op: Operation): PathItem {
    if f.httpMethod in METHODS && f.httpMethod !in item then item[f.httpMethod := op] else item
  }

  function AttachWarnings(item: PathItem, f: FlowConfig): seq<Warning> {
    if f.httpMethod !in METHODS then [UnsupportedSkipped(f.httpMethod, f.path)]
    else if f.httpMethod in item then [DuplicateSkipped(f.httpMethod, f.path)]
    else if f.httpMethod == "QUERY" then [QueryAsExtension(f.httpMethod, f.path)]
    else []
  }

  function ItemAt(paths: map<string, PathItem>, path: string): PathItem {
    if path in paths then paths[path] else map[]
  }

  /** The paths section after these flows, in order. */
  function PathsOf(flows: seq<FlowConfig>, rateLimited: bool, ext: bool): map<string, PathItem> {
    if flows == [] then map[] else
    var f, paths := flows[|flows| - 1], PathsOf(flows[..|flows| - 1], rateLimited, ext);
    paths[f.path := Attached(ItemAt(paths, f.path), f, BuildOperation(f, rateLimited, ext))]
  }

  function ExportWarnings(flows: seq<FlowConfig>, rateLimited: bool, ext: bool): seq<Warning> {
    if flows == [] then [] else
    var f, rest := flows[|flows| - 1], flows[..|flows| - 1];
    ExportWarnings(rest, rateLimited, ext) + AttachWarnings(ItemAt(PathsOf(rest, rateLimited, ext), f.path), f)
  }

  /** The paths tags are drawn from, and whether some flow carries the auth middleware. */
  function Tagged(flows: seq<FlowConfig>): set<string> {
    if flows == [] then {} else Tagged(flows[..|flows| - 1]) + {flows[|flows| - 1].path}
  }

  predicate NeedsAuth(flows: seq<FlowConfig>) {
    flows != [] && (NeedsAuth(flows[..|flows| - 1]) || FindAuth(flows[|flows| - 1].middlewares).Some?)
  }

  datatype ExportOptions = ExportOptions(
    oasVersion: string, title: string, apiVersion: string, servers: seq<string>,
    extensions: bool, generatorVersion: string)

  function ResolveVersion(v: string): Option<string> {
    if v == "" || v == "3.1" then Some("3.1.0")
    else if v == "3.0" then Some("3.0.3")
    else None
  }

  function Coalesce(a: string, b: string): string {
    if a != "" then a else b
  }

  function ExportedDocument(cfg: Config, opts: ExportOptions, version: string): Document {
    Document(
      version,
      Coalesce(Coalesce(opts.title, cfg.service), "aastro gateway"),
      Coalesce(opts.apiVersion, "0.0.0"),
      opts.servers, cfg.schema,
      "aastroctl/" + Coalesce(opts.generatorVersion, "dev"),
      Tagged(cfg.flows), cfg.flows != [], NeedsAuth(cfg.flows),
      PathsOf(cfg.flows, cfg.rateLimited, opts.extensions))
  }

  lemma ExportSnoc(flows: seq<FlowConfig>, n: nat, rl: bool, ext: bool)
    requires n < |flows|
    ensures var f, before, after := flows[n], flows[..n], flows[..n + 1];
            var item := ItemAt(PathsOf(before, rl, ext), f.path);
            && PathsOf(after, rl, ext) ==
               PathsOf(before, rl, ext)[f.path := Attached(item, f, BuildOperation(f, rl, ext))]
            && ExportWarnings(after, rl, ext) == ExportWarnings(before, rl, ext) + AttachWarnings(item, f)
            && Tagged(after) == Tagged(before) + {f.path}
            && (NeedsAuth(after) <==> NeedsAuth(before) || FindAuth(f.middlewares).Some?)
  {
    assert flows[..n + 1][..n] == flows[..n];
  }

  method FromConfig(cfg: Config, opts: ExportOptions) returns (doc: Option<Document>, warnings: seq<Warning>)
    ensures doc.Some? <==> ResolveVersion(opts.oasVersion).Some?
    ensures doc.Some? ==>
              && doc.value == ExportedDocument(cfg, opts, ResolveVersion(opts.oasVersion).value)
              && warnings == ExportWarnings(cfg.flows, cfg.rateLimited, opts.extensions)
  {
    var version := ResolveVersion(opts.oasVersion);
    if version.None? {
      return None, [];
    }
    var paths: map<string, PathItem> := map[];
    var tagged: set<string> := {};
    var auth := false;
    warnings := [];
    for n := 0 to |cfg.flows|
      invariant paths == PathsOf(cfg.flows[..n], cfg.rateLimited, opts.extensions)
      invariant warnings == ExportWarnings(cfg.flows[..n], cfg.rateLimited, opts.extensions)
      invariant tagged == Tagged(cfg.flows[..n]) && auth == NeedsAuth(cfg.flows[..n])
    {
      var f := cfg.flows[n];
      ExportSnoc(cfg.flows, n, cfg.rateLimited, opts.extensions);
      var op := BuildOperation(f, cfg.rateLimited, opts.extensions);
      auth := auth || FindAuth(f.middlewares).Some?;
      tagged := tagged + {f.path};
      var item, ws := AttachOperation(ItemAt(paths, f.path), f, op);
      paths := paths[f.path := item];
      warnings := warnings + ws;
    }
    assert cfg.flows[..|cfg.flows|] == cfg.flows;
    doc := Some(Document(
      version.value,
      Coalesce(Coalesce(opts.title, cfg.service), "aastro gateway"),
      Coalesce(opts.apiVersion, "0.0.0"),
      opts.servers, cfg.schema,
      "aastroctl/" + Coalesce(opts.generatorVersion, "dev"),
      tagged, |cfg.flows| > 0, auth, paths));
  }
}
