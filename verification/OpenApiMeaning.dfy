/**
 What an exported document says and what both directions warn about, told from the
 configuration (internal/openapi/export.go, internal/openapi/import.go).
 */
module OpenApiMeaning {
  import opened Options
  import opened OpenApi
  import opened OpenApiImport
  import opened OpenApiRoundTrip

  // ------------------------------------------------- The document's head

  predicate IsAuth(m: Extra) {
    m.name == "auth" && m.source == "builtin"
  }

  /** Its authentication is that of the first built-in auth middleware. */
  lemma {:induction false} FindAuthMeaning(ms: seq<Extra>)
    ensures FindAuth(ms).None? <==> forall m | m in ms :: !IsAuth(m)
    ensures FindAuth(ms).Some? ==>
              exists i :: 0 <= i < |ms| && IsAuth(ms[i]) && FindAuth(ms) == Some(ms[i]) &&
                          forall j | 0 <= j < i :: !IsAuth(ms[j])
  {
    if ms != [] {
      FindAuthMeaning(ms[1..]);
      assert ms == [ms[0]] + ms[1..];
      if !IsAuth(ms[0]) && FindAuth(ms).Some? {
        var i :| 0 <= i < |ms| - 1 && IsAuth(ms[1..][i]) && FindAuth(ms) == Some(ms[1..][i]) &&
                 forall j | 0 <= j < i :: !IsAuth(ms[1..][j]);
        assert forall j | 0 < j < i + 1 :: ms[j] == ms[1..][j - 1];
        assert ms[i + 1] == ms[1..][i] && forall j | 0 <= j < i + 1 :: !IsAuth(ms[j]);
      }
    }
  }

  /** s is the first of the two texts that is not empty, or else the last resort. */
  ghost predicate FirstGiven(s: string, wanted: string, fallback: string, resort: string) {
    && (wanted != "" ==> s == wanted)
    && (wanted == "" && fallback != "" ==> s == fallback)
    && (wanted == "" && fallback == "" ==> s == resort)
  }

  /** Everything outside the paths section. */
  lemma DocumentMeaning(cfg: Config, opts: ExportOptions)
    ensures ResolveVersion(opts.oasVersion).Some? <==> opts.oasVersion in {"", "3.0", "3.1"}
    ensures var version := ResolveVersion(opts.oasVersion);
            version.Some? ==>
              var doc := ExportedDocument(cfg, opts, version.value);
              && doc.openapi == (if opts.oasVersion == "3.0" then "3.0.3" else "3.1.0")
              && FirstGiven(doc.title, opts.title, cfg.service, "aastro gateway")
              && FirstGiven(doc.version, opts.apiVersion, "", "0.0.0")
              && doc.servers == opts.servers && doc.schema == cfg.schema
              && |doc.generator| >= 10 && doc.generator[..10] == "aastroctl/"
              && FirstGiven(doc.generator[10..], opts.generatorVersion, "", "dev")
              && (forall p :: p in doc.tagged <==> HasPath(cfg.flows, p))
              && (doc.problemSchemas <==> cfg.flows != [])
              && (doc.authScheme <==> exists f, m :: f in cfg.flows && m in f.middlewares && IsAuth(m))
  {
    forall p ensures p in Tagged(cfg.flows) <==> HasPath(cfg.flows, p) {
      TaggedMeaning(cfg.flows, p);
    }
    NoAuthExactly(cfg.flows);
    forall f | f in cfg.flows ensures FindAuth(f.middlewares).None? <==> forall m | m in f.middlewares :: !IsAuth(m) {
      FindAuthMeaning(f.middlewares);
    }
  }

  /** The operation in a slot, told from the flow it describes. */
  lemma OperationMeaning(f: FlowConfig, rl: bool, ext: bool, i: nat)
    ensures var op := BuildOperation(f, rl, ext);
            && op.has429 == rl && (op.ext.Some? <==> ext)
            && op.prose.path == f.path && op.prose.httpMethod == f.httpMethod
            && op.prose.streaming == f.streaming && op.prose.aggregation == f.aggregation
            && op.prose.auth == FindAuth(f.middlewares)
            && |op.prose.upstreams| == |f.upstreams|
            && (i < |f.upstreams| ==>
                  && op.prose.upstreams[i].name == f.upstreams[i].name
                  && op.prose.upstreams[i].queries == f.upstreams[i].forwardQueries
                  && op.prose.upstreams[i].headers == f.upstreams[i].forwardHeaders)
  {
  }

  /** What an extension leaves out: a policy, retry, breaker or transport with nothing set, and the default transport. */
  lemma OmittedParts(u: UpstreamConfig)
    ensures var e, p, t := UpstreamExtension(u), u.policy, u.transport;
            && (e.policy.None? <==>
                  && p.blacklist == [] && !p.requireBody && p.maxBody == 0 && !p.followRedirects && p.loadBalancing == ""
                  && p.retry == RetryConfig(0, [], 0) && p.breaker == BreakerConfig(false, 0, 0))
            && (e.policy.Some? ==> (e.policy.value.retry.None? <==> p.retry == RetryConfig(0, [], 0)))
            && (e.policy.Some? ==> (e.policy.value.breaker.None? <==> p.breaker == BreakerConfig(false, 0, 0)))
            && (e.transport.None? <==>
                  t == TransportConfig(0, 0, 0, "") || t == TransportConfig(100, 50, 90 * 1_000_000_000, "auto"))
  {
  }

  // --------------------------------------------- What the exporter reports

  /** Two flows ask for the same slot. */
  ghost predicate AskedTwice(flows: seq<FlowConfig>, p: string, m: string) {
    exists i, j :: 0 <= i < j < |flows| && Matches(flows[i], p, m) && Matches(flows[j], p, m)
  }

  lemma AskedTwiceSnoc(rest: seq<FlowConfig>, last: FlowConfig, p: string, m: string)
    ensures AskedTwice(rest + [last], p, m) <==>
            AskedTwice(rest, p, m) || (Wanted(rest, p, m) && Matches(last, p, m))
  {
    var all := rest + [last];
    if AskedTwice(rest, p, m) {
      var i, j :| 0 <= i < j < |rest| && Matches(rest[i], p, m) && Matches(rest[j], p, m);
      assert Matches(all[i], p, m) && Matches(all[j], p, m);
    }
    if Wanted(rest, p, m) && Matches(last, p, m) {
      var f :| f in rest && Matches(f, p, m);
      var i :| 0 <= i < |rest| && rest[i] == f;
      assert Matches(all[i], p, m) && Matches(all[|rest|], p, m);
    }
    if AskedTwice(all, p, m) {
      var i, j :| 0 <= i < j < |all| && Matches(all[i], p, m) && Matches(all[j], p, m);
      assert all[i] == rest[i] && rest[i] in rest;
    }
  }

  /** The methods a path item has a place for; QUERY's is an extension. */
  const PLACES: set<string> := {"GET", "PUT", "POST", "DELETE", "OPTIONS", "HEAD", "PATCH", "QUERY"}

  /** What the exporter should say about these flows. */
  ghost predicate Reported(flows: seq<FlowConfig>, w: Warning) {
    match w
    case QueryAsExtension(m, p) => m == "QUERY" && Wanted(flows, p, m)
    case DuplicateSkipped(m, p) => m in PLACES && AskedTwice(flows, p, m)
    case UnsupportedSkipped(m, p) => m !in PLACES && Wanted(flows, p, m)
    case _ => false
  }

  lemma PlacesAreSlots(m: string)
    ensures m in METHODS <==> m in PLACES
  {
  }

  /** What attaching one flow after others is reported as. */
  ghost predicate ReportedLast(rest: seq<FlowConfig>, last: FlowConfig, w: Warning) {
    var m, p := last.httpMethod, last.path;
    || (w == QueryAsExtension(m, p) && m == "QUERY" && !Wanted(rest, p, m))
    || (w == DuplicateSkipped(m, p) && m in PLACES && Wanted(rest, p, m))
    || (w == UnsupportedSkipped(m, p) && m !in PLACES)
  }

  lemma LastReported(rest: seq<FlowConfig>, last: FlowConfig, rl: bool, ext: bool, w: Warning)
    ensures w in AttachWarnings(ItemAt(PathsOf(rest, rl, ext), last.path), last) <==> ReportedLast(rest, last, w)
  {
    SlotsFilled(rest, rl, ext, last.path, last.httpMethod);
    PlacesAreSlots(last.httpMethod);
  }

  lemma ReportedSnoc(rest: seq<FlowConfig>, last: FlowConfig, w: Warning)
    ensures Reported(rest + [last], w) <==> Reported(rest, w) || ReportedLast(rest, last, w)
  {
    if w.QueryAsExtension? || w.DuplicateSkipped? || w.UnsupportedSkipped? {
      WantedSnoc(rest, last, w.path, w.httpMethod);
      AskedTwiceSnoc(rest, last, w.path, w.httpMethod);
    }
  }

  /** The exporter's warnings, each exactly when it is due. */
  lemma {:induction false} ExportWarningsExactly(flows: seq<FlowConfig>, rl: bool, ext: bool, w: Warning)
    ensures w in ExportWarnings(flows, rl, ext) <==> Reported(flows, w)
  {
    if flows != [] {
      var rest, last := flows[..|flows| - 1], flows[|flows| - 1];
      ExportWarningsExactly(rest, rl, ext, w);
      LastReported(rest, last, rl, ext, w);
      ReportedSnoc(rest, last, w);
      assert flows == rest + [last];
    }
  }

  // ------------------------------------------------ What the importer fills in

  /** Parts an extension leaves out, and durations nobody can read, get these values. */
  lemma AbsentParts(u: UpstreamExt)
    ensures var c := ReconstructedUpstream(u);
            && (u.hosts == [] ==> c.hosts == ["https://CHANGE-ME.internal"])
            && (!u.timeout.Printed? ==> c.timeout == 0)
            && (u.policy.None? ==>
                  c.policy == PolicyConfig([], false, 0, false, RetryConfig(0, [], 0), BreakerConfig(false, 0, 0), ""))
            && (u.policy.Some? && u.policy.value.retry.None? ==> c.policy.retry == RetryConfig(0, [], 0))
            && (u.policy.Some? && u.policy.value.breaker.None? ==> c.policy.breaker == BreakerConfig(false, 0, 0))
            && (u.transport.None? ==> c.transport == TransportConfig(100, 50, 90 * 1_000_000_000, "auto"))
  {
  }

  /** Whatever the document holds, the head of the configuration has a schema and a service name. */
  lemma ImportedHead(doc: Document, g: Gathered)
    requires g.flows != []
    ensures var r := ImportFrom(doc, g);
            && r.Imported? && r.cfg.flows == g.flows && r.cfg.rateLimited == g.limited
            && FirstGiven(r.cfg.schema, doc.schema, "", "v1")
            && FirstGiven(r.cfg.service, doc.title, "", "aastro")
  {
  }

  // -------------------------------------------------- Reading any document

  /** What an operation becomes: the flow its extension describes, or a scaffold. */
  ghost predicate Becomes(scaffold: Scaffold, p: string, m: string, op: Operation, f: FlowConfig) {
    f == if op.ext.Some? then ReconstructedFlow(p, m, op.ext.value) else scaffold(p, m, op).0
  }

  ghost predicate SlotGives(scaffold: Scaffold, p: string, item: PathItem, n: int, f: FlowConfig)
    requires n <= |METHODS|
  {
    exists k :: 0 <= k < n && METHODS[k] in item && Becomes(scaffold, p, METHODS[k], item[METHODS[k]], f)
  }

  ghost predicate SlotLimited(item: PathItem, n: int)
    requires n <= |METHODS|
  {
    exists k :: 0 <= k < n && METHODS[k] in item && item[METHODS[k]].has429
  }

  lemma {:induction false} SlotsGive(scaffold: Scaffold, g: Gathered, p: string, item: PathItem, n: nat, f: FlowConfig)
    requires n <= |METHODS|
    ensures var h := GatherSlots(scaffold, g, p, item, n);
            && (f in h.flows <==> f in g.flows || SlotGives(scaffold, p, item, n, f))
            && (h.limited <==> g.limited || SlotLimited(item, n))
  {
    if n > 0 {
      SlotsGive(scaffold, g, p, item, n - 1, f);
      var m := METHODS[n - 1];
      assert SlotGives(scaffold, p, item, n, f) <==>
             SlotGives(scaffold, p, item, n - 1, f) || (m in item && Becomes(scaffold, p, m, item[m], f));
      assert SlotLimited(item, n) <==> SlotLimited(item, n - 1) || (m in item && item[m].has429);
    }
  }

  ghost predicate DocumentGives(scaffold: Scaffold, paths: map<string, PathItem>, order: seq<string>, f: FlowConfig) {
    exists p :: p in order && SlotGives(scaffold, p, ItemAt(paths, p), |METHODS|, f)
  }

  ghost predicate DocumentLimited(paths: map<string, PathItem>, order: seq<string>) {
    exists p :: p in order && SlotLimited(ItemAt(paths, p), |METHODS|)
  }

  /**
   Any document, in any path order: the flows read are exactly what its operations
   become, and a limiter is seen exactly when some operation mentions 429.
   */
  lemma {:induction false} DocumentRead(scaffold: Scaffold, paths: map<string, PathItem>, order: seq<string>,
                                        f: FlowConfig)
    ensures var g := GatherPaths(scaffold, paths, order);
            && (f in g.flows <==> DocumentGives(scaffold, paths, order, f))
            && (g.limited <==> DocumentLimited(paths, order))
  {
    if order != [] {
      var rest, p := order[..|order| - 1], order[|order| - 1];
      DocumentRead(scaffold, paths, rest, f);
      SlotsGive(scaffold, GatherPaths(scaffold, paths, rest), p, ItemAt(paths, p), |METHODS|, f);
      assert order == rest + [p];
    }
  }

  // --------------------------------------------- What the importer reports

  ghost predicate NamesOf(es: seq<Extra>, names: seq<string>) {
    |names| == |es| && forall i | 0 <= i < |es| :: names[i] == es[i].name
  }

  /** Some duration of the upstream cannot be read. */
  predicate Garbled(u: UpstreamExt) {
    || u.timeout.Unreadable?
    || (u.policy.Some? && u.policy.value.retry.Some? && u.policy.value.retry.value.backoff.Unreadable?)
    || (u.policy.Some? && u.policy.value.breaker.Some? && u.policy.value.breaker.value.resetTimeout.Unreadable?)
    || (u.transport.Some? && u.transport.value.idleTimeout.Unreadable?)
  }

  /** What the importer should say about an upstream. */
  predicate NotedUpstream(u: UpstreamExt, w: Warning) {
    || (w == HostsMissing(u.name) && u.hosts == [])
    || (w == Unparsable(u.name) && Garbled(u))
    || (w == TlsWithSystemRoots(u.name) && u.tlsEnabled)
  }

  ghost predicate SomeNoted(us: seq<UpstreamExt>, w: Warning) {
    exists u :: u in us && NotedUpstream(u, w)
  }

  lemma SomeNotedSnoc(rest: seq<UpstreamExt>, last: UpstreamExt, w: Warning)
    ensures SomeNoted(rest + [last], w) <==> SomeNoted(rest, w) || NotedUpstream(last, w)
  {
    assert forall u :: u in rest + [last] <==> u in rest || u == last;
  }

  lemma UpstreamNoted(u: UpstreamExt, w: Warning)
    ensures w in UpstreamWarnings(u) <==> NotedUpstream(u, w)
  {
  }

  lemma {:induction false} UpstreamsNoted(us: seq<UpstreamExt>, w: Warning)
    ensures w in AllUpstreamWarnings(us) <==> SomeNoted(us, w)
  {
    if us != [] {
      var n := |us| - 1;
      UpstreamsNoted(us[..n], w);
      UpstreamNoted(us[n], w);
      SomeNotedSnoc(us[..n], us[n], w);
      assert us == us[..n] + [us[n]];
      assert AllUpstreamWarnings(us) == AllUpstreamWarnings(us[..n]) + UpstreamWarnings(us[n]);
    }
  }

  /** The importer's warnings about any extension, each exactly when it is due. */
  lemma ExtensionWarningsExactly(ext: FlowExt, w: Warning)
    ensures w in FlowWarnings(ext) <==>
            || SomeNoted(ext.upstreams, w)
            || (ext.plugins != [] && w == PluginsDropped(ext.plugins))
            || (ext.middlewares != [] && w == MiddlewaresDropped(ext.middlewares))
  {
    UpstreamsNoted(ext.upstreams, w);
  }

  /** What the importer should say about a flow that was exported. */
  ghost predicate Noted(f: FlowConfig, w: Warning) {
    match w
    case HostsMissing(name) => exists u :: u in f.upstreams && u.name == name && u.hosts == []
    case TlsWithSystemRoots(name) => exists u :: u in f.upstreams && u.name == name && u.tls.enabled
    case PluginsDropped(names) => f.plugins != [] && NamesOf(f.plugins, names)
    case MiddlewaresDropped(names) => f.middlewares != [] && NamesOf(f.middlewares, names)
    case _ => false
  }

  predicate Lacking(u: UpstreamConfig, w: Warning) {
    (w == HostsMissing(u.name) && u.hosts == []) || (w == TlsWithSystemRoots(u.name) && u.tls.enabled)
  }

  lemma ExportedUpstreamNoted(u: UpstreamConfig, w: Warning)
    ensures NotedUpstream(UpstreamExtension(u), w) <==> Lacking(u, w)
  {
    assert !Garbled(UpstreamExtension(u));
  }

  ghost predicate SomeLacking(us: seq<UpstreamConfig>, w: Warning) {
    exists u :: u in us && Lacking(u, w)
  }

  lemma ExportedUpstreamsNoted(f: FlowConfig, w: Warning)
    ensures SomeNoted(FlowExtension(f).upstreams, w) <==> SomeLacking(f.upstreams, w)
  {
    var us, es := f.upstreams, FlowExtension(f).upstreams;
    if SomeNoted(es, w) {
      var e :| e in es && NotedUpstream(e, w);
      var i :| 0 <= i < |es| && es[i] == e;
      ExportedUpstreamNoted(us[i], w);
      assert us[i] in us;
    }
    if SomeLacking(us, w) {
      var u :| u in us && Lacking(u, w);
      var i :| 0 <= i < |us| && us[i] == u;
      ExportedUpstreamNoted(u, w);
      assert es[i] in es && NotedUpstream(es[i], w);
    }
  }

  lemma LackingIsNoted(f: FlowConfig, w: Warning)
    ensures SomeLacking(f.upstreams, w) <==> Noted(f, w) && !w.PluginsDropped? && !w.MiddlewaresDropped?
  {
  }

  /** The importer's warnings about a flow that was exported, each exactly when it is due. */
  lemma FlowWarningsExactly(f: FlowConfig, w: Warning)
    ensures w in FlowWarnings(FlowExtension(f)) <==> Noted(f, w)
  {
    ExtensionWarningsExactly(FlowExtension(f), w);
    ExportedUpstreamsNoted(f, w);
    LackingIsNoted(f, w);
    assert |Names(f.plugins)| == |f.plugins| && |Names(f.middlewares)| == |f.middlewares|;
    if w.PluginsDropped? && NamesOf(f.plugins, w.names) {
      assert w.names == Names(f.plugins);
    }
    if w.MiddlewaresDropped? && NamesOf(f.middlewares, w.names) {
      assert w.names == Names(f.middlewares);
    }
  }

  /** Reading the slot gives rise to w. */
  ghost predicate SlotWarns(item: PathItem, m: string, w: Warning) {
    m in item && item[m].ext.Some? && w in FlowWarnings(item[m].ext.value)
  }

  ghost predicate SlotsWarn(item: PathItem, n: int, w: Warning)
    requires n <= |METHODS|
  {
    exists k :: 0 <= k < n && SlotWarns(item, METHODS[k], w)
  }

  lemma {:induction false} SlotsGather(scaffold: Scaffold, g: Gathered, p: string, item: PathItem, n: nat, w: Warning)
    requires n <= |METHODS| && forall m | m in item :: item[m].ext.Some?
    ensures w in GatherSlots(scaffold, g, p, item, n).warnings <==> w in g.warnings || SlotsWarn(item, n, w)
  {
    if n > 0 {
      SlotsGather(scaffold, g, p, item, n - 1, w);
      assert SlotsWarn(item, n, w) <==> SlotsWarn(item, n - 1, w) || SlotWarns(item, METHODS[n - 1], w);
    }
  }

  ghost predicate PathsWarn(paths: map<string, PathItem>, order: seq<string>, w: Warning) {
    exists p :: p in order && SlotsWarn(ItemAt(paths, p), |METHODS|, w)
  }

  lemma {:induction false} PathsGather(scaffold: Scaffold, paths: map<string, PathItem>, order: seq<string>, rl: bool,
                                       w: Warning)
    requires Uniform(paths, rl)
    ensures w in GatherPaths(scaffold, paths, order).warnings <==> PathsWarn(paths, order, w)
  {
    if order != [] {
      var rest, p := order[..|order| - 1], order[|order| - 1];
      PathsGather(scaffold, paths, rest, rl, w);
      var item := ItemAt(paths, p);
      forall m | m in item ensures item[m].ext.Some? {
        assert HasOp(paths, p, m);
      }
      SlotsGather(scaffold, GatherPaths(scaffold, paths, rest), p, item, |METHODS|, w);
      assert order == rest + [p];
    }
  }

  ghost predicate SomeFlowNoted(flows: seq<FlowConfig>, w: Warning) {
    exists f :: f in flows && Noted(f, w)
  }

  lemma ImportWarnings(flows: seq<FlowConfig>, rl: bool, order: seq<string>, w: Warning)
    requires Enumerates(order, PathsOf(flows, rl, true).Keys)
    ensures PathsWarn(PathsOf(flows, rl, true), order, w) <==> SomeFlowNoted(Firsts(flows), w)
  {
    var paths := PathsOf(flows, rl, true);
    if PathsWarn(paths, order, w) {
      var p :| p in order && SlotsWarn(ItemAt(paths, p), |METHODS|, w);
      var k :| 0 <= k < |METHODS| && SlotWarns(ItemAt(paths, p), METHODS[k], w);
      var f := OperationOrigin(flows, rl, true, p, METHODS[k]);
      FlowWarningsExactly(f, w);
    }
    if SomeFlowNoted(Firsts(flows), w) {
      var f :| f in Firsts(flows) && Noted(f, w);
      FirstsAreDistinct(flows);
      FirstHolds(flows, rl, true, f);
      FlowWarningsExactly(f, w);
      var k :| 0 <= k < |METHODS| && METHODS[k] == f.httpMethod;
      assert SlotWarns(ItemAt(paths, f.path), METHODS[k], w);
    }
  }

  /**
   Importing an export, in any path order: each written flow is complained about
   exactly as it should be, the rate limiter exactly when it was on, and nothing else.
   */
  lemma ImportWarningsExactly(cfg: Config, opts: ExportOptions, version: string, scaffold: Scaffold,
                              order: seq<string>, w: Warning)
    requires opts.extensions && Firsts(cfg.flows) != []
    requires Enumerates(order, ExportedDocument(cfg, opts, version).paths.Keys)
    ensures var doc := ExportedDocument(cfg, opts, version);
            var r := ImportFrom(doc, GatherPaths(scaffold, doc.paths, order));
            && r.Imported?
            && (w in r.warnings <==>
                  SomeFlowNoted(Firsts(cfg.flows), w) || (w == RateLimiterDefaulted && cfg.rateLimited))
  {
    var doc := ExportedDocument(cfg, opts, version);
    RoundTrip(cfg, opts, version, scaffold, order);
    ImportedFlows(cfg.flows, cfg.rateLimited, scaffold, order);
    ExportIsUniform(cfg.flows, cfg.rateLimited);
    PathsGather(scaffold, doc.paths, order, cfg.rateLimited, w);
    ImportWarnings(cfg.flows, cfg.rateLimited, order, w);
  }

  /**
   Whatever the operations of a document gave rise to, two warnings may be added: one
   if the document is our own but has no extensions, and one if a limiter was seen.
   */
  lemma DocumentWarningsExactly(doc: Document, g: Gathered, w: Warning)
    requires g.flows != []
    ensures var r := ImportFrom(doc, g);
            && r.Imported?
            && (w in r.warnings <==>
                  || w in g.warnings
                  || (w == ExtensionsMissing && !g.extended && |doc.generator| >= 10 && doc.generator[..10] == "aastroctl/")
                  || (w == RateLimiterDefaulted && g.limited))
  {
  }

  // ------------------------------------------ In which order flows come back

  ghost predicate EarlierSlot(m: string, n: string) {
    exists x, y :: 0 <= x < y < |METHODS| && METHODS[x] == m && METHODS[y] == n
  }

  /** In order of path, and within a path in the order of the slots. */
  ghost predicate Before(a: FlowConfig, b: FlowConfig) {
    || Less(a.path, b.path)
    || (a.path == b.path && EarlierSlot(a.httpMethod, b.httpMethod))
  }

  ghost predicate InOrder(flows: seq<FlowConfig>) {
    forall i, j | 0 <= i < j < |flows| :: Before(flows[i], flows[j])
  }

  lemma InOrderSnoc(flows: seq<FlowConfig>, last: FlowConfig)
    requires InOrder(flows) && forall f | f in flows :: Before(f, last)
    ensures InOrder(flows + [last])
  {
    forall i, j | 0 <= i < j < |flows| + 1 ensures Before((flows + [last])[i], (flows + [last])[j]) {
      if j == |flows| {
        assert flows[i] in flows;
      }
    }
  }

  lemma {:induction false} SlotsInOrder(scaffold: Scaffold, g: Gathered, p: string, item: PathItem, n: nat, rl: bool)
    requires n <= |METHODS| && Consistent(g, rl)
    requires forall m | m in item :: item[m].ext.Some? && item[m].has429 == rl
    requires InOrder(g.flows) && forall f | f in g.flows :: Less(f.path, p)
    ensures InOrder(GatherSlots(scaffold, g, p, item, n).flows)
  {
    if n > 0 {
      SlotsInOrder(scaffold, g, p, item, n - 1, rl);
      SlotsRead(scaffold, g, p, item, n - 1, rl);
      var before, m := GatherSlots(scaffold, g, p, item, n - 1), METHODS[n - 1];
      if m in item {
        var flow := ReconstructedFlow(p, m, item[m].ext.value);
        forall f | f in before.flows ensures Before(f, flow) {
          if f !in g.flows {
            var k :| 0 <= k < n - 1 && ReadFrom(item, p, METHODS[k], f);
            assert METHODS[k] == f.httpMethod && METHODS[n - 1] == flow.httpMethod;
          }
        }
        InOrderSnoc(before.flows, flow);
      }
    }
  }

  lemma AscendingDiffer(order: seq<string>)
    requires Ascending(order)
    ensures forall i, j | 0 <= i < j < |order| :: order[i] != order[j]
  {
    forall i, j | 0 <= i < j < |order| ensures order[i] != order[j] {
      LessTotal(order[i], order[j]);
    }
  }

  lemma {:induction false} PathsInOrder(scaffold: Scaffold, paths: map<string, PathItem>, order: seq<string>, rl: bool)
    requires Uniform(paths, rl) && Ascending(order)
    ensures InOrder(GatherPaths(scaffold, paths, order).flows)
  {
    if order != [] {
      var n := |order| - 1;
      var rest, p := order[..n], order[n];
      PathsInOrder(scaffold, paths, rest, rl);
      AscendingDiffer(rest);
      PathsRead(scaffold, paths, rest, rl);
      var before, item := GatherPaths(scaffold, paths, rest), ItemAt(paths, p);
      forall m | m in item ensures item[m].ext.Some? && item[m].has429 == rl {
        assert HasOp(paths, p, m);
      }
      forall f | f in before.flows ensures Less(f.path, p) {
        assert ReadAt(paths, rest, f);
        var i :| 0 <= i < n && order[i] == f.path;
      }
      SlotsInOrder(scaffold, before, p, item, |METHODS|, rl);
    }
  }

  /** The flows of an imported export stand in order of path, and within a path of slot. */
  lemma ImportIsSorted(flows: seq<FlowConfig>, rl: bool, scaffold: Scaffold, order: seq<string>)
    requires Ascending(order) && Enumerates(order, PathsOf(flows, rl, true).Keys)
    ensures InOrder(GatherPaths(scaffold, PathsOf(flows, rl, true), order).flows)
  {
    ExportIsUniform(flows, rl);
    PathsInOrder(scaffold, PathsOf(flows, rl, true), order, rl);
  }
}
