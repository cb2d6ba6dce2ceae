/** Exporting a configuration and importing it again gives the configuration back. */
module OpenApiRoundTrip {
  import opened Options
  import opened OpenApi
  import opened OpenApiImport

  // ---------------------------------------------------------- One flow

  function NormalTransport(t: TransportConfig): TransportConfig {
    if t == NO_TRANSPORT || t == DEFAULT_TRANSPORT then DEFAULT_TRANSPORT else t.(http2 := "")
  }

  function NormalUpstream(u: UpstreamConfig): UpstreamConfig {
    u.(hosts := if u.hosts == [] then [PLACEHOLDER_HOST] else u.hosts,
       transport := NormalTransport(u.transport),
       tls := TlsConfig(u.tls.enabled, ""))
  }

  /** What survives of a flow: everything but plugins, middlewares, TLS details and transport.http2. */
  function Normal(f: FlowConfig): FlowConfig {
    f.(upstreams := seq(|f.upstreams|, i requires 0 <= i < |f.upstreams| => NormalUpstream(f.upstreams[i])),
       plugins := [], middlewares := [])
  }

  /** Every flow, whatever it holds, comes back in its normal form. */
  lemma FlowRoundTrip(f: FlowConfig)
    ensures ReconstructedFlow(f.path, f.httpMethod, FlowExtension(f)) == Normal(f)
  {
    forall i | 0 <= i < |f.upstreams|
      ensures ReconstructedUpstream(UpstreamExtension(f.upstreams[i])) == NormalUpstream(f.upstreams[i])
    {
      UpstreamRoundTrip(f.upstreams[i]);
    }
    assert ReconstructedUpstreams(FlowExtension(f).upstreams) == Normal(f).upstreams;
  }

  lemma UpstreamRoundTrip(u: UpstreamConfig)
    ensures ReconstructedUpstream(UpstreamExtension(u)) == NormalUpstream(u)
  {
    var p := PolicyExtension(u.policy);
    assert (match p case None => NO_POLICY case Some(e) => ReconstructedPolicy(e)) == u.policy;
  }

  ghost predicate LosesNothingNoted(f: FlowConfig) {
    && (forall u | u in f.upstreams :: u.hosts != [] && !u.tls.enabled)
    && f.plugins == [] && f.middlewares == []
  }

  lemma {:induction false} NoUpstreamWarnings(us: seq<UpstreamExt>)
    ensures AllUpstreamWarnings(us) == [] <==> forall u | u in us :: UpstreamWarnings(u) == []
  {
    if us != [] {
      NoUpstreamWarnings(us[..|us| - 1]);
      assert us == us[..|us| - 1] + [us[|us| - 1]];
    }
  }

  lemma UpstreamSilent(u: UpstreamConfig)
    ensures UpstreamWarnings(UpstreamExtension(u)) == [] <==> u.hosts != [] && !u.tls.enabled
  {
    var e := UpstreamExtension(u);
    assert Complaint(e.timeout, e.name) == [];
    assert e.policy.Some? ==> PolicyWarnings(e.policy.value, e.name) == [];
    assert e.transport.Some? ==> Complaint(e.transport.value.idleTimeout, e.name) == [];
    if u.hosts == [] {
      assert UpstreamWarnings(e)[0] == HostsMissing(u.name);
    } else if u.tls.enabled {
      assert UpstreamWarnings(e) == [TlsWithSystemRoots(u.name)];
    }
  }

  lemma UpstreamsSilent(f: FlowConfig)
    ensures AllUpstreamWarnings(FlowExtension(f).upstreams) == [] <==>
            forall u | u in f.upstreams :: u.hosts != [] && !u.tls.enabled
  {
    var us := FlowExtension(f).upstreams;
    NoUpstreamWarnings(us);
    if forall u | u in us :: UpstreamWarnings(u) == [] {
      forall u | u in f.upstreams ensures u.hosts != [] && !u.tls.enabled {
        var i :| 0 <= i < |f.upstreams| && f.upstreams[i] == u;
        assert us[i] in us;
        UpstreamSilent(u);
      }
    }
    if forall u | u in f.upstreams :: u.hosts != [] && !u.tls.enabled {
      forall e | e in us ensures UpstreamWarnings(e) == [] {
        var i :| 0 <= i < |us| && us[i] == e;
        assert f.upstreams[i] in f.upstreams;
        UpstreamSilent(f.upstreams[i]);
      }
    }
  }

  /** The importer is silent about a flow exactly when it has hosts, no TLS, no plugins and no middlewares. */
  lemma SilentExactly(f: FlowConfig)
    ensures FlowWarnings(FlowExtension(f)) == [] <==> LosesNothingNoted(f)
  {
    UpstreamsSilent(f);
    assert |Names(f.plugins)| == |f.plugins| && |Names(f.middlewares)| == |f.middlewares|;
    var a := AllUpstreamWarnings(FlowExtension(f).upstreams);
    assert |FlowWarnings(FlowExtension(f))| ==
           |a| + (if f.plugins == [] then 0 else 1) + (if f.middlewares == [] then 0 else 1);
  }

  /** The parts the round trip is allowed to lose, blanked out. */
  function ErasedUpstream(u: UpstreamConfig): UpstreamConfig {
    u.(transport := u.transport.(http2 := ""), tls := u.tls.(details := ""))
  }

  function Erased(f: FlowConfig): FlowConfig {
    f.(upstreams := seq(|f.upstreams|, i requires 0 <= i < |f.upstreams| => ErasedUpstream(f.upstreams[i])))
  }

  /**
   Exactly which transports survive: the fields come back unless nothing was set at
   all, and a second export agrees unless only http2 was set.
   */
  lemma TransportExactly(t: TransportConfig)
    ensures NormalTransport(t).(http2 := "") == t.(http2 := "") <==> t != NO_TRANSPORT
    ensures TransportExtension(NormalTransport(t)) == TransportExtension(t) <==>
            t == NO_TRANSPORT || t.(http2 := "") != NO_TRANSPORT
  {
    assert DEFAULT_TRANSPORT.(http2 := "") != NO_TRANSPORT;
    assert t.(http2 := "") != DEFAULT_TRANSPORT;
    if t.(http2 := "") == NO_TRANSPORT {
      assert t != DEFAULT_TRANSPORT;
      assert t == NO_TRANSPORT <==> t.http2 == "";
    }
  }

  /** Nothing but TLS details and transport.http2 is lost. */
  ghost predicate Kept(f: FlowConfig) {
    && (forall u | u in f.upstreams :: u.hosts != [] && u.transport != NO_TRANSPORT)
    && f.plugins == [] && f.middlewares == []
  }

  /** A second export agrees with the first. */
  ghost predicate Stable(f: FlowConfig) {
    && (forall u | u in f.upstreams ::
          u.hosts != [] && (u.transport == NO_TRANSPORT || u.transport.(http2 := "") != NO_TRANSPORT))
    && f.plugins == [] && f.middlewares == []
  }

  lemma UpstreamExactly(u: UpstreamConfig)
    ensures ErasedUpstream(NormalUpstream(u)) == ErasedUpstream(u) <==>
            u.hosts != [] && u.transport != NO_TRANSPORT
    ensures UpstreamExtension(NormalUpstream(u)) == UpstreamExtension(u) <==>
            u.hosts != [] && (u.transport == NO_TRANSPORT || u.transport.(http2 := "") != NO_TRANSPORT)
  {
    TransportExactly(u.transport);
  }

  /** The flow comes back, but for what may be lost, exactly when it has hosts and transports and no extras. */
  lemma KeptExactly(f: FlowConfig)
    ensures Erased(Normal(f)) == Erased(f) <==> Kept(f)
  {
    var n, us := Normal(f), f.upstreams;
    if Kept(f) {
      forall i | 0 <= i < |us| ensures ErasedUpstream(n.upstreams[i]) == ErasedUpstream(us[i]) {
        assert us[i] in us;
        UpstreamExactly(us[i]);
      }
      assert Erased(n).upstreams == Erased(f).upstreams;
    }
    if Erased(n) == Erased(f) {
      forall u | u in us ensures u.hosts != [] && u.transport != NO_TRANSPORT {
        var i :| 0 <= i < |us| && us[i] == u;
        assert Erased(n).upstreams[i] == Erased(f).upstreams[i];
        UpstreamExactly(u);
      }
      assert Erased(n).plugins == Erased(f).plugins && Erased(n).middlewares == Erased(f).middlewares;
    }
  }

  lemma StableExactly(f: FlowConfig)
    ensures FlowExtension(Normal(f)) == FlowExtension(f) <==> Stable(f)
  {
    var n, us := Normal(f), f.upstreams;
    if Stable(f) {
      forall i | 0 <= i < |us| ensures UpstreamExtension(n.upstreams[i]) == UpstreamExtension(us[i]) {
        assert us[i] in us;
        UpstreamExactly(us[i]);
      }
      assert FlowExtension(n).upstreams == FlowExtension(f).upstreams;
    }
    if FlowExtension(n) == FlowExtension(f) {
      forall u | u in us
        ensures u.hosts != [] && (u.transport == NO_TRANSPORT || u.transport.(http2 := "") != NO_TRANSPORT)
      {
        var i :| 0 <= i < |us| && us[i] == u;
        assert FlowExtension(n).upstreams[i] == FlowExtension(f).upstreams[i];
        UpstreamExactly(u);
      }
      assert |Names(f.plugins)| == 0 && |Names(f.middlewares)| == 0;
    }
  }

  lemma StableOperation(f: FlowConfig, rl: bool)
    ensures BuildOperation(Normal(f), rl, true) == BuildOperation(f, rl, true) <==> Stable(f)
  {
    StableExactly(f);
    if Stable(f) {
      assert ProseOf(Normal(f)).upstreams == ProseOf(f).upstreams;
    }
  }

  // ------------------------------------------------ The paths section

  predicate Matches(f: FlowConfig, p: string, m: string) {
    f.path == p && f.httpMethod == m
  }

  ghost predicate Distinct(flows: seq<FlowConfig>) {
    forall i, j | 0 <= i < j < |flows| :: !Matches(flows[i], flows[j].path, flows[j].httpMethod)
  }

  ghost predicate Supported(flows: seq<FlowConfig>) {
    forall f | f in flows :: f.httpMethod in METHODS
  }

  predicate HasOp(paths: map<string, PathItem>, p: string, m: string) {
    m in ItemAt(paths, p)
  }

  ghost predicate Wanted(flows: seq<FlowConfig>, p: string, m: string) {
    exists f :: f in flows && Matches(f, p, m)
  }

  ghost predicate HasPath(flows: seq<FlowConfig>, p: string) {
    exists f :: f in flows && f.path == p
  }

  /** The effect of one more flow on every path. */
  lemma PathsSnoc(rest: seq<FlowConfig>, last: FlowConfig, rl: bool, ext: bool)
    ensures var a, b := PathsOf(rest + [last], rl, ext), PathsOf(rest, rl, ext);
            && a.Keys == b.Keys + {last.path}
            && ItemAt(a, last.path) == Attached(ItemAt(b, last.path), last, BuildOperation(last, rl, ext))
            && forall p | p != last.path :: ItemAt(a, p) == ItemAt(b, p)
  {
    assert (rest + [last])[..|rest|] == rest;
  }

  lemma WantedSnoc(rest: seq<FlowConfig>, last: FlowConfig, p: string, m: string)
    ensures Wanted(rest + [last], p, m) <==> Wanted(rest, p, m) || Matches(last, p, m)
  {
    assert forall f :: f in rest + [last] <==> f in rest || f == last;
  }

  /** A slot is filled exactly when some flow asks for it and it exists. */
  lemma {:induction false} SlotsFilled(flows: seq<FlowConfig>, rl: bool, ext: bool, p: string, m: string)
    ensures HasOp(PathsOf(flows, rl, ext), p, m) <==> m in METHODS && Wanted(flows, p, m)
    ensures p in PathsOf(flows, rl, ext) <==> HasPath(flows, p)
  {
    if flows != [] {
      var rest, last := flows[..|flows| - 1], flows[|flows| - 1];
      SlotsFilled(rest, rl, ext, p, m);
      assert flows == rest + [last];
      PathsSnoc(rest, last, rl, ext);
      WantedSnoc(rest, last, p, m);
    }
  }

  /** With distinct flows, each slot holds the operation of its own flow. */
  lemma {:induction false} SlotHolds(flows: seq<FlowConfig>, rl: bool, ext: bool, f: FlowConfig)
    requires Distinct(flows) && Supported(flows) && f in flows
    ensures HasOp(PathsOf(flows, rl, ext), f.path, f.httpMethod)
    ensures ItemAt(PathsOf(flows, rl, ext), f.path)[f.httpMethod] == BuildOperation(f, rl, ext)
  {
    var n := |flows| - 1;
    var rest, last := flows[..n], flows[n];
    assert flows == rest + [last];
    PathsSnoc(rest, last, rl, ext);
    LastIsNew(rest, last);
    if f in rest {
      assert forall g | g in rest :: g in flows;
      SlotHolds(rest, rl, ext, f);
      assert !Matches(f, last.path, last.httpMethod);
    } else {
      assert f == last && last in flows;
      SlotsFilled(rest, rl, ext, last.path, last.httpMethod);
    }
  }

  lemma LastIsNew(rest: seq<FlowConfig>, last: FlowConfig)
    requires Distinct(rest + [last])
    ensures Distinct(rest) && !Wanted(rest, last.path, last.httpMethod)
    ensures forall f | f in rest :: !Matches(f, last.path, last.httpMethod)
  {
    DistinctSnoc(rest, last, !Wanted(rest, last.path, last.httpMethod));
  }

  predicate Skip(w: Warning) {
    w.DuplicateSkipped? || w.UnsupportedSkipped?
  }

  ghost predicate NoSkips(ws: seq<Warning>) {
    forall w | w in ws :: !Skip(w)
  }

  lemma NoSkipsConcat(a: seq<Warning>, b: seq<Warning>)
    ensures NoSkips(a + b) <==> NoSkips(a) && NoSkips(b)
  {
    assert forall w :: w in a + b <==> w in a || w in b;
  }

  lemma AttachSkips(item: PathItem, f: FlowConfig)
    ensures NoSkips(AttachWarnings(item, f)) <==> f.httpMethod in METHODS && f.httpMethod !in item
  {
    var ws := AttachWarnings(item, f);
    if ws != [] {
      assert ws[0] in ws;
    }
  }

  lemma SupportedSnoc(rest: seq<FlowConfig>, last: FlowConfig)
    ensures Supported(rest + [last]) <==> Supported(rest) && last.httpMethod in METHODS
  {
    assert forall f :: f in rest + [last] <==> f in rest || f == last;
  }

  lemma LastSkips(rest: seq<FlowConfig>, last: FlowConfig, rl: bool, ext: bool)
    ensures NoSkips(AttachWarnings(ItemAt(PathsOf(rest, rl, ext), last.path), last)) <==>
            last.httpMethod in METHODS && !Wanted(rest, last.path, last.httpMethod)
  {
    AttachSkips(ItemAt(PathsOf(rest, rl, ext), last.path), last);
    SlotsFilled(rest, rl, ext, last.path, last.httpMethod);
  }

  /** The exporter reports a skipped flow exactly when a method is unsupported or a slot is asked for twice. */
  lemma {:induction false} ExportSkipsExactly(flows: seq<FlowConfig>, rl: bool, ext: bool)
    ensures NoSkips(ExportWarnings(flows, rl, ext)) <==> Distinct(flows) && Supported(flows)
  {
    if flows != [] {
      var rest, last := flows[..|flows| - 1], flows[|flows| - 1];
      ExportSkipsExactly(rest, rl, ext);
      NoSkipsConcat(ExportWarnings(rest, rl, ext), AttachWarnings(ItemAt(PathsOf(rest, rl, ext), last.path), last));
      LastSkips(rest, last, rl, ext);
      SupportedSnoc(rest, last);
      DistinctSnoc(rest, last, !Wanted(rest, last.path, last.httpMethod));
      assert flows == rest + [last];
    }
  }

  lemma DistinctSnoc(rest: seq<FlowConfig>, last: FlowConfig, free: bool)
    requires free <==> !Wanted(rest, last.path, last.httpMethod)
    ensures Distinct(rest + [last]) <==> Distinct(rest) && free
  {
    var flows := rest + [last];
    if Distinct(flows) {
      forall i, j | 0 <= i < j < |rest| ensures !Matches(rest[i], rest[j].path, rest[j].httpMethod) {
        assert flows[i] == rest[i] && flows[j] == rest[j];
      }
      forall f | f in rest ensures !Matches(f, last.path, last.httpMethod) {
        var i :| 0 <= i < |rest| && rest[i] == f;
        assert flows[i] == f && flows[|rest|] == last;
      }
    }
    if Distinct(rest) && free {
      forall i, j | 0 <= i < j < |flows| ensures !Matches(flows[i], flows[j].path, flows[j].httpMethod) {
        if j == |rest| {
          assert rest[i] in rest;
        }
      }
    }
  }

  // ------------------------------------------- The flows that are written

  /** The first flow of each slot that exists: the ones the exporter writes. */
  ghost function Firsts(flows: seq<FlowConfig>): seq<FlowConfig> {
    if flows == [] then [] else
    var rest, last := flows[..|flows| - 1], flows[|flows| - 1];
    if last.httpMethod in METHODS && !Wanted(rest, last.path, last.httpMethod) then Firsts(rest) + [last]
    else Firsts(rest)
  }

  lemma {:induction false} FirstsWanted(flows: seq<FlowConfig>, p: string, m: string)
    ensures Wanted(Firsts(flows), p, m) <==> m in METHODS && Wanted(flows, p, m)
  {
    if flows != [] {
      var rest, last := flows[..|flows| - 1], flows[|flows| - 1];
      FirstsWanted(rest, p, m);
      assert flows == rest + [last];
      WantedSnoc(rest, last, p, m);
      WantedSnoc(Firsts(rest), last, p, m);
    }
  }

  lemma {:induction false} FirstsAreDistinct(flows: seq<FlowConfig>)
    ensures Distinct(Firsts(flows)) && Supported(Firsts(flows))
    ensures forall f | f in Firsts(flows) :: f in flows
  {
    if flows != [] {
      var rest, last := flows[..|flows| - 1], flows[|flows| - 1];
      FirstsAreDistinct(rest);
      FirstsWanted(rest, last.path, last.httpMethod);
      DistinctSnoc(Firsts(rest), last, !Wanted(Firsts(rest), last.path, last.httpMethod));
      SupportedSnoc(Firsts(rest), last);
      assert flows == rest + [last];
    }
  }

  /** Where no flow is skipped, every flow is written. */
  lemma {:induction false} FirstsOfDistinct(flows: seq<FlowConfig>)
    requires Distinct(flows) && Supported(flows)
    ensures Firsts(flows) == flows
  {
    if flows != [] {
      var rest, last := flows[..|flows| - 1], flows[|flows| - 1];
      assert flows == rest + [last];
      LastIsNew(rest, last);
      SupportedSnoc(rest, last);
      FirstsOfDistinct(rest);
    }
  }

  /** A skipped flow adds no operation. */
  lemma {:induction false} SameItems(flows: seq<FlowConfig>, rl: bool, ext: bool)
    ensures forall p :: ItemAt(PathsOf(flows, rl, ext), p) == ItemAt(PathsOf(Firsts(flows), rl, ext), p)
  {
    if flows != [] {
      var rest, last := flows[..|flows| - 1], flows[|flows| - 1];
      SameItems(rest, rl, ext);
      assert flows == rest + [last];
      PathsSnoc(rest, last, rl, ext);
      PathsSnoc(Firsts(rest), last, rl, ext);
      SlotsFilled(rest, rl, ext, last.path, last.httpMethod);
    }
  }

  /** Every operation of the document is that of the first flow of its slot. */
  lemma FirstHolds(flows: seq<FlowConfig>, rl: bool, ext: bool, f: FlowConfig)
    requires f in Firsts(flows)
    ensures HasOp(PathsOf(flows, rl, ext), f.path, f.httpMethod) && f.path in PathsOf(flows, rl, ext)
    ensures ItemAt(PathsOf(flows, rl, ext), f.path)[f.httpMethod] == BuildOperation(f, rl, ext)
  {
    FirstsAreDistinct(flows);
    SlotHolds(Firsts(flows), rl, ext, f);
    SameItems(flows, rl, ext);
    assert HasOp(PathsOf(flows, rl, ext), f.path, f.httpMethod);
  }

  lemma OperationOrigin(flows: seq<FlowConfig>, rl: bool, ext: bool, p: string, m: string) returns (f: FlowConfig)
    requires HasOp(PathsOf(flows, rl, ext), p, m)
    ensures f in Firsts(flows) && Matches(f, p, m)
    ensures ItemAt(PathsOf(flows, rl, ext), p)[m] == BuildOperation(f, rl, ext)
  {
    SlotsFilled(flows, rl, ext, p, m);
    FirstsWanted(flows, p, m);
    f :| f in Firsts(flows) && Matches(f, p, m);
    FirstHolds(flows, rl, ext, f);
  }

  // ------------------------------------------------- Reading flows back

  /** Every operation carries the extension and agrees on 429. */
  ghost predicate Uniform(paths: map<string, PathItem>, rl: bool) {
    forall p, m | HasOp(paths, p, m) :: ItemAt(paths, p)[m].ext.Some? && ItemAt(paths, p)[m].has429 == rl
  }

  /** f is what the operation at (p, m) is read back as. */
  ghost predicate ReadFrom(item: PathItem, p: string, m: string, f: FlowConfig) {
    m in item && item[m].ext.Some? && f == ReconstructedFlow(p, m, item[m].ext.value)
  }

  lemma MethodsDiffer(i: nat, j: nat)
    requires i < j < |METHODS|
    ensures METHODS[i] != METHODS[j]
  {
  }

  ghost predicate Consistent(g: Gathered, rl: bool) {
    g.limited == (rl && g.flows != []) && g.extended == (g.flows != [])
  }

  lemma {:induction false} SlotsRead(scaffold: Scaffold, g: Gathered, p: string, item: PathItem, n: nat, rl: bool)
    requires n <= |METHODS| && Consistent(g, rl)
    requires forall m | m in item :: item[m].ext.Some? && item[m].has429 == rl
    ensures var h := GatherSlots(scaffold, g, p, item, n);
            && Consistent(h, rl)
            && (forall f :: f in h.flows <==>
                  f in g.flows || exists k :: 0 <= k < n && ReadFrom(item, p, METHODS[k], f))
  {
    if n > 0 {
      SlotsRead(scaffold, g, p, item, n - 1, rl);
      var before, h := GatherSlots(scaffold, g, p, item, n - 1), GatherSlots(scaffold, g, p, item, n);
      var m := METHODS[n - 1];
      if m in item {
        var flow := ReconstructedFlow(p, m, item[m].ext.value);
        assert h.flows == before.flows + [flow];
        assert ReadFrom(item, p, METHODS[n - 1], flow);
      }
    }
  }

  lemma {:induction false} SlotsDistinct(scaffold: Scaffold, g: Gathered, p: string, item: PathItem, n: nat, rl: bool)
    requires n <= |METHODS| && Consistent(g, rl)
    requires forall m | m in item :: item[m].ext.Some? && item[m].has429 == rl
    requires Distinct(g.flows) && forall f | f in g.flows :: f.path != p
    ensures Distinct(GatherSlots(scaffold, g, p, item, n).flows)
  {
    if n > 0 {
      SlotsDistinct(scaffold, g, p, item, n - 1, rl);
      SlotsRead(scaffold, g, p, item, n - 1, rl);
      var before, m := GatherSlots(scaffold, g, p, item, n - 1), METHODS[n - 1];
      if m in item {
        var flow := ReconstructedFlow(p, m, item[m].ext.value);
        forall f | f in before.flows ensures !Matches(f, p, m) {
          if f !in g.flows {
            var k :| 0 <= k < n - 1 && ReadFrom(item, p, METHODS[k], f);
            MethodsDiffer(k, n - 1);
          }
        }
        DistinctSnoc(before.flows, flow, true);
      }
    }
  }

  ghost predicate ReadAt(paths: map<string, PathItem>, order: seq<string>, f: FlowConfig) {
    f.path in order && f.httpMethod in METHODS && ReadFrom(ItemAt(paths, f.path), f.path, f.httpMethod, f)
  }

  lemma {:induction false} PathsRead(scaffold: Scaffold, paths: map<string, PathItem>, order: seq<string>, rl: bool)
    requires Uniform(paths, rl)
    requires forall i, j | 0 <= i < j < |order| :: order[i] != order[j]
    ensures var g := GatherPaths(scaffold, paths, order);
            && Consistent(g, rl) && Distinct(g.flows)
            && (forall f :: f in g.flows <==> ReadAt(paths, order, f))
  {
    if order != [] {
      var n := |order| - 1;
      var rest, p := order[..n], order[n];
      PathsRead(scaffold, paths, rest, rl);
      assert order == rest + [p];
      var before, item := GatherPaths(scaffold, paths, rest), ItemAt(paths, p);
      forall m | m in item ensures item[m].ext.Some? && item[m].has429 == rl {
        assert HasOp(paths, p, m);
      }
      assert p !in rest;
      SlotsRead(scaffold, before, p, item, |METHODS|, rl);
      SlotsDistinct(scaffold, before, p, item, |METHODS|, rl);
      var g := GatherPaths(scaffold, paths, order);
      forall f ensures f in g.flows <==> ReadAt(paths, order, f) {
        if ReadAt(paths, order, f) && f.path == p {
          var k :| 0 <= k < |METHODS| && METHODS[k] == f.httpMethod;
          assert ReadFrom(item, p, METHODS[k], f);
        }
      }
    }
  }

  // ---------------------------------------------------- The round trip

  function NormalAll(flows: seq<FlowConfig>): seq<FlowConfig> {
    seq(|flows|, i requires 0 <= i < |flows| => Normal(flows[i]))
  }

  /** `back` holds exactly the normal forms of `flows`. */
  ghost predicate NormalsOf(flows: seq<FlowConfig>, back: seq<FlowConfig>) {
    forall f :: f in back <==> exists o :: o in flows && f == Normal(o)
  }

  lemma ExportIsUniform(flows: seq<FlowConfig>, rl: bool)
    ensures Uniform(PathsOf(flows, rl, true), rl)
  {
    var paths := PathsOf(flows, rl, true);
    forall p, m | HasOp(paths, p, m)
      ensures ItemAt(paths, p)[m].ext.Some? && ItemAt(paths, p)[m].has429 == rl
    {
      var f := OperationOrigin(flows, rl, true, p, m);
    }
  }

  /** What the importer finds in an exported document: each flow that was written, in normal form, once. */
  lemma ImportedFlows(flows: seq<FlowConfig>, rl: bool, scaffold: Scaffold, order: seq<string>)
    requires Enumerates(order, PathsOf(flows, rl, true).Keys)
    ensures var g := GatherPaths(scaffold, PathsOf(flows, rl, true), order);
            && Consistent(g, rl) && Distinct(g.flows) && Supported(g.flows)
            && NormalsOf(Firsts(flows), g.flows)
  {
    var paths, kept := PathsOf(flows, rl, true), Firsts(flows);
    ExportIsUniform(flows, rl);
    PathsRead(scaffold, paths, order, rl);
    FirstsAreDistinct(flows);
    var g := GatherPaths(scaffold, paths, order);
    forall f ensures f in g.flows <==> exists o :: o in kept && f == Normal(o) {
      if f in g.flows {
        var o := OperationOrigin(flows, rl, true, f.path, f.httpMethod);
        FlowRoundTrip(o);
      }
      if o :| o in kept && f == Normal(o) {
        FirstHolds(flows, rl, true, o);
        FlowRoundTrip(o);
        assert ReadAt(paths, order, f);
      }
    }
  }

  lemma {:induction false} DistinctCounts(flows: seq<FlowConfig>)
    requires Distinct(flows)
    ensures forall f :: multiset(flows)[f] == if f in flows then 1 else 0
  {
    if flows != [] {
      var n := |flows| - 1;
      var rest, last := flows[..n], flows[n];
      assert flows == rest + [last];
      DistinctCounts(rest);
      forall f | f in rest ensures f != last {
        var i :| 0 <= i < n && flows[i] == f;
        assert !Matches(flows[i], flows[n].path, flows[n].httpMethod);
      }
    }
  }

  lemma NormalAllMeaning(flows: seq<FlowConfig>)
    requires Distinct(flows)
    ensures Distinct(NormalAll(flows))
    ensures forall f :: f in NormalAll(flows) <==> exists o :: o in flows && f == Normal(o)
  {
    var ns := NormalAll(flows);
    forall f ensures f in ns <==> exists o :: o in flows && f == Normal(o) {
      if f in ns {
        var i :| 0 <= i < |ns| && ns[i] == f;
        assert flows[i] in flows && f == Normal(flows[i]);
      }
      if o :| o in flows && f == Normal(o) {
        var i :| 0 <= i < |flows| && flows[i] == o;
        assert ns[i] == f;
      }
    }
  }

  /**
   Exporting with extensions and importing, in any path order, for every
   configuration: the flows that were written come back in normal form, each exactly
   once, with the same rate-limiter flag and schema. Without any, the import fails.
   */
  lemma RoundTrip(cfg: Config, opts: ExportOptions, version: string, scaffold: Scaffold, order: seq<string>)
    requires opts.extensions
    requires Enumerates(order, ExportedDocument(cfg, opts, version).paths.Keys)
    ensures var doc := ExportedDocument(cfg, opts, version);
            var r := ImportFrom(doc, GatherPaths(scaffold, doc.paths, order));
            if Firsts(cfg.flows) == [] then r.NoOperations? else
            && r.Imported?
            && multiset(r.cfg.flows) == multiset(NormalAll(Firsts(cfg.flows)))
            && r.cfg.rateLimited == cfg.rateLimited
            && r.cfg.schema == Coalesce(cfg.schema, "v1")
            && r.cfg.service == doc.title
  {
    var doc, kept := ExportedDocument(cfg, opts, version), Firsts(cfg.flows);
    var g := GatherPaths(scaffold, doc.paths, order);
    ImportedFlows(cfg.flows, cfg.rateLimited, scaffold, order);
    FirstsAreDistinct(cfg.flows);
    if kept == [] {
      SomeFlow(g.flows);
    } else {
      assert kept[0] in kept && Normal(kept[0]) in g.flows;
      SameFlows(kept, g.flows);
    }
  }

  lemma SomeFlow(flows: seq<FlowConfig>)
    ensures flows != [] ==> exists f :: f in flows
  {
    if flows != [] {
      assert flows[0] in flows;
    }
  }

  lemma SameFlows(flows: seq<FlowConfig>, back: seq<FlowConfig>)
    requires Distinct(flows) && Distinct(back) && NormalsOf(flows, back)
    ensures multiset(back) == multiset(NormalAll(flows))
  {
    NormalAllMeaning(flows);
    DistinctCounts(back);
    DistinctCounts(NormalAll(flows));
    assert forall f :: multiset(back)[f] == multiset(NormalAll(flows))[f];
  }

  function ErasedAll(flows: seq<FlowConfig>): seq<FlowConfig> {
    seq(|flows|, i requires 0 <= i < |flows| => Erased(flows[i]))
  }

  /**
   The flows that come back are the original ones, but for TLS details and
   transport.http2, exactly when every upstream has hosts and a transport and there
   are no plugins or middlewares.
   */
  lemma FlowsKeptExactly(flows: seq<FlowConfig>)
    ensures ErasedAll(NormalAll(flows)) == ErasedAll(flows) <==> forall f | f in flows :: Kept(f)
  {
    var ns := NormalAll(flows);
    if forall f | f in flows :: Kept(f) {
      forall i | 0 <= i < |flows| ensures Erased(ns[i]) == Erased(flows[i]) {
        assert flows[i] in flows;
        KeptExactly(flows[i]);
      }
    }
    if ErasedAll(ns) == ErasedAll(flows) {
      forall f | f in flows ensures Kept(f) {
        var i :| 0 <= i < |flows| && flows[i] == f;
        assert ErasedAll(ns)[i] == ErasedAll(flows)[i];
        KeptExactly(f);
      }
    }
  }

  ghost predicate AllStable(flows: seq<FlowConfig>) {
    forall f | f in flows :: Stable(f)
  }

  // ------------------------------------------------- Export is stable

  lemma {:induction false} TaggedMeaning(flows: seq<FlowConfig>, p: string)
    ensures p in Tagged(flows) <==> HasPath(flows, p)
  {
    if flows != [] {
      var rest, last := flows[..|flows| - 1], flows[|flows| - 1];
      TaggedMeaning(rest, p);
      assert flows == rest + [last];
    }
  }

  lemma SameSlot(flows: seq<FlowConfig>, back: seq<FlowConfig>, rl: bool, p: string, m: string)
    requires Distinct(flows) && Supported(flows) && AllStable(flows)
    requires Distinct(back) && Supported(back)
    requires NormalsOf(flows, back)
    ensures var a, b := PathsOf(back, rl, true), PathsOf(flows, rl, true);
            && (HasOp(a, p, m) <==> HasOp(b, p, m))
            && (HasOp(a, p, m) ==> ItemAt(a, p)[m] == ItemAt(b, p)[m])
  {
    SlotsFilled(back, rl, true, p, m);
    SlotsFilled(flows, rl, true, p, m);
    if Wanted(flows, p, m) {
      var o :| o in flows && Matches(o, p, m);
      assert Normal(o) in back && Matches(Normal(o), p, m);
      SlotHolds(flows, rl, true, o);
      SlotHolds(back, rl, true, Normal(o));
      StableOperation(o, rl);
    }
  }

  lemma SamePresence(flows: seq<FlowConfig>, back: seq<FlowConfig>, rl: bool, p: string)
    requires NormalsOf(flows, back)
    ensures p in PathsOf(back, rl, true) <==> p in PathsOf(flows, rl, true)
  {
    SlotsFilled(back, rl, true, p, "GET");
    SlotsFilled(flows, rl, true, p, "GET");
    if o :| o in flows && o.path == p {
      assert Normal(o) in back && Normal(o).path == p;
    }
  }

  lemma SamePaths(flows: seq<FlowConfig>, back: seq<FlowConfig>, rl: bool)
    requires Distinct(flows) && Supported(flows) && AllStable(flows)
    requires Distinct(back) && Supported(back)
    requires NormalsOf(flows, back)
    ensures PathsOf(back, rl, true) == PathsOf(flows, rl, true)
  {
    var a, b := PathsOf(back, rl, true), PathsOf(flows, rl, true);
    forall p ensures p in a <==> p in b {
      SamePresence(flows, back, rl, p);
    }
    forall p | p in a && p in b ensures a[p] == b[p] {
      forall m ensures m in a[p] <==> m in b[p]
               ensures m in a[p] && m in b[p] ==> a[p][m] == b[p][m]
      {
        SameSlot(flows, back, rl, p, m);
        assert (HasOp(a, p, m) <==> m in a[p]) && (HasOp(b, p, m) <==> m in b[p]);
      }
      assert a[p] == b[p];
    }
    assert a == b;
  }

  lemma SamePathsAreStable(flows: seq<FlowConfig>, back: seq<FlowConfig>, rl: bool)
    requires Distinct(flows) && Supported(flows)
    requires Distinct(back) && Supported(back)
    requires NormalsOf(flows, back)
    requires PathsOf(back, rl, true) == PathsOf(flows, rl, true)
    ensures AllStable(flows)
  {
    forall o | o in flows ensures Stable(o) {
      assert Normal(o) in back;
      SlotHolds(flows, rl, true, o);
      SlotHolds(back, rl, true, Normal(o));
      StableOperation(o, rl);
    }
  }

  /** Every path of the configuration has a flow that is written. */
  ghost predicate PathsCovered(flows: seq<FlowConfig>) {
    forall f | f in flows :: HasPath(Firsts(flows), f.path)
  }

  lemma CoveredPaths(flows: seq<FlowConfig>, rl: bool)
    requires PathsCovered(flows)
    ensures PathsOf(Firsts(flows), rl, true) == PathsOf(flows, rl, true)
  {
    var a, b := PathsOf(Firsts(flows), rl, true), PathsOf(flows, rl, true);
    FirstsAreDistinct(flows);
    SameItems(flows, rl, true);
    forall p ensures p in a <==> p in b {
      SlotsFilled(flows, rl, true, p, "GET");
      SlotsFilled(Firsts(flows), rl, true, p, "GET");
    }
    forall p | p in a && p in b ensures a[p] == b[p] {
      assert ItemAt(a, p) == a[p] && ItemAt(b, p) == b[p];
    }
  }

  lemma SamePathsExactly(flows: seq<FlowConfig>, back: seq<FlowConfig>, rl: bool)
    requires Distinct(back) && Supported(back) && NormalsOf(Firsts(flows), back)
    ensures PathsOf(back, rl, true) == PathsOf(flows, rl, true) <==>
            AllStable(Firsts(flows)) && PathsCovered(flows)
  {
    var kept := Firsts(flows);
    FirstsAreDistinct(flows);
    if AllStable(kept) && PathsCovered(flows) {
      SamePaths(kept, back, rl);
      CoveredPaths(flows, rl);
    }
    if PathsOf(back, rl, true) == PathsOf(flows, rl, true) {
      forall f | f in flows ensures HasPath(kept, f.path) {
        SlotsFilled(flows, rl, true, f.path, "GET");
        SlotsFilled(back, rl, true, f.path, "GET");
        var b :| b in back && b.path == f.path;
        var o :| o in kept && b == Normal(o);
        assert o.path == f.path;
      }
      CoveredPaths(flows, rl);
      SamePathsAreStable(kept, back, rl);
    }
  }

  /** What it takes for a configuration's document to be reproduced. */
  ghost predicate Reproducible(cfg: Config) {
    && cfg.schema != ""
    && AllStable(Firsts(cfg.flows)) && PathsCovered(cfg.flows)
    && forall f | f in cfg.flows :: FindAuth(f.middlewares).None?
  }

  /**
   Exporting what was imported from an export gives the same document exactly when
   there is a schema version, the flows that were written are stable (no plugins or
   middlewares, hosts everywhere, and every transport empty or setting something
   besides http2), and the skipped flows left neither a path of their own nor an
   authentication scheme.
   */
  lemma ExportIsStable(cfg: Config, opts: ExportOptions, version: string, scaffold: Scaffold, order: seq<string>)
    requires opts.extensions && Firsts(cfg.flows) != []
    requires Enumerates(order, ExportedDocument(cfg, opts, version).paths.Keys)
    ensures var doc := ExportedDocument(cfg, opts, version);
            var r := ImportFrom(doc, GatherPaths(scaffold, doc.paths, order));
            r.Imported? && (ExportedDocument(r.cfg, opts, version) == doc <==> Reproducible(cfg))
  {
    var doc := ExportedDocument(cfg, opts, version);
    RoundTrip(cfg, opts, version, scaffold, order);
    ImportedFlows(cfg.flows, cfg.rateLimited, scaffold, order);
    var back := GatherPaths(scaffold, doc.paths, order).flows;
    SamePathsExactly(cfg.flows, back, cfg.rateLimited);
    NoAuthExactly(cfg.flows);
    BackNeedsNoAuth(cfg.flows, back);
    FirstsAreDistinct(cfg.flows);
    if PathsCovered(cfg.flows) {
      SameTags(cfg.flows, back);
    }
  }

  lemma {:induction false} NoAuthExactly(flows: seq<FlowConfig>)
    ensures !NeedsAuth(flows) <==> forall f | f in flows :: FindAuth(f.middlewares).None?
  {
    if flows != [] {
      var rest, last := flows[..|flows| - 1], flows[|flows| - 1];
      assert flows == rest + [last];
      NoAuthExactly(rest);
    }
  }

  lemma BackNeedsNoAuth(flows: seq<FlowConfig>, back: seq<FlowConfig>)
    requires NormalsOf(Firsts(flows), back)
    ensures !NeedsAuth(back)
  {
    forall f | f in back ensures FindAuth(f.middlewares).None? {
      var o :| o in Firsts(flows) && f == Normal(o);
    }
    NoAuthExactly(back);
  }

  lemma SameTags(flows: seq<FlowConfig>, back: seq<FlowConfig>)
    requires PathsCovered(flows) && NormalsOf(Firsts(flows), back)
    requires forall f | f in Firsts(flows) :: f in flows
    ensures Tagged(back) == Tagged(flows)
  {
    forall p ensures p in Tagged(back) <==> p in Tagged(flows) {
      TaggedMeaning(back, p);
      TaggedMeaning(flows, p);
      if f :| f in flows && f.path == p {
        var g :| g in Firsts(flows) && g.path == f.path;
        assert Normal(g) in back && Normal(g).path == p;
      }
    }
  }
}
