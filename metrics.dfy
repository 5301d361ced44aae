/** The metrics compliance pass of the semantic-convention checker: resolving
    the configured rules against the registry, checking each exported metric
    against every rule, and turning the total into an OTLP partial-success verdict. */
module Metrics {
  import opened Otlp
  import opened Semconv
  import opened MatchDefs

  /** The typed configuration the server is built from. */
  datatype Config = Config(
    resource: MatchConfig,
    metrics: seq<MatchConfig>,
    reportUnmatched: bool,
    disableError: bool)

  /** The server; read-only once constructed. */
  datatype MetricsServer = MetricsServer(
    resource: MatchDef,
    matches: seq<MatchDef>,
    reportUnmatched: bool,
    disableError: bool)

  // ---------------------------------------------------------------------------
  // Rule resolution
  // ---------------------------------------------------------------------------

  /** The resource rule. The groups come from the default version whenever the
      configured version is not in the registry; the stored version is replaced
      by the default only when it was non-empty. */
  function ResolveResource(r: MatchConfig, svs: Registry): (md: MatchDef)
    ensures md.name == r.name && md.matchAttributes == r.matchAttributes
    ensures md.semVer == Some(if r.semanticVersion != "" && r.semanticVersion !in svs
                              then DefaultVersion else r.semanticVersion)
    ensures r.semanticVersion in svs ==>
              md.required == RequiredAttributes(r, svs[r.semanticVersion].groups)
    ensures r.semanticVersion !in svs ==>
              md.required == RequiredAttributes(r, Lookup(svs, DefaultVersion).groups)
  {
    var found := r.semanticVersion in svs;
    var cfg := if r.semanticVersion != "" && !found then r.(semanticVersion := DefaultVersion) else r;
    var resSemVer := if found then cfg.semanticVersion else DefaultVersion;
    NewMatchDef(cfg, Lookup(svs, resSemVer).groups)
  }

  /** One metric rule. An unknown version is replaced by the default in the
      stored version only: the groups are those of the failed lookup, that is,
      none, so such a rule requires just its own listed attributes. */
  function ResolveMetricRule(m: MatchConfig, svs: Registry): (md: MatchDef)
    ensures md.name == m.name && md.matchAttributes == m.matchAttributes
    ensures md.semVer == Some(if m.semanticVersion in svs then m.semanticVersion else DefaultVersion)
    ensures m.semanticVersion in svs ==>
              md.required == RequiredAttributes(m, svs[m.semanticVersion].groups)
    ensures m.semanticVersion !in svs ==> md.required == set k | k in m.attributes
  {
    var sv := Lookup(svs, m.semanticVersion);
    var rule := if m.semanticVersion in svs then m else m.(semanticVersion := DefaultVersion);
    NewMatchDef(rule, sv.groups)
  }

  /** `NewMetricsService`: one resolved rule per configured metric rule, in
      configuration order, plus the resolved resource rule and the two flags. */
  method NewMetricsService(cfg: Config, svs: Registry) returns (s: MetricsServer)
    ensures s.resource == ResolveResource(cfg.resource, svs)
    ensures |s.matches| == |cfg.metrics|
    ensures forall i :: 0 <= i < |cfg.metrics| ==> s.matches[i] == ResolveMetricRule(cfg.metrics[i], svs)
    ensures s.reportUnmatched == cfg.reportUnmatched && s.disableError == cfg.disableError
  {
    var res := cfg.resource;
    var found := res.semanticVersion in svs;
    if res.semanticVersion != "" && !found {
      res := res.(semanticVersion := DefaultVersion);
    }
    var resSemVer := res.semanticVersion;
    if !found {
      resSemVer := DefaultVersion;
    }
    var resource := NewMatchDef(res, Lookup(svs, resSemVer).groups);

    var matches: seq<MatchDef> := [];
    for i := 0 to |cfg.metrics|
      invariant |matches| == i
      invariant forall j :: 0 <= j < i ==> matches[j] == ResolveMetricRule(cfg.metrics[j], svs)
    {
      var rule := cfg.metrics[i];
      var groups := Lookup(svs, rule.semanticVersion);
      if rule.semanticVersion !in svs {
        rule := rule.(semanticVersion := DefaultVersion);
      }
      matches := matches + [NewMatchDef(rule, groups.groups)];
    }

    s := MetricsServer(resource, matches, cfg.reportUnmatched, cfg.disableError);
  }

  // ---------------------------------------------------------------------------
  // Per-metric check
  // ---------------------------------------------------------------------------

  /** What checking one metric against one rule yields. */
  datatype CheckResult = CheckResult(missing: nat, matched: bool)

  /** Some data point passes the rule's attribute pre-filter. */
  predicate AnyAttrMatch(md: MatchDef, points: seq<DataPoint>)
  {
    exists i | 0 <= i < |points| :: IsAttrMatch(md, points[i].attributes)
  }

  /** The missing counts of the points that pass the pre-filter, summed in order. */
  function PointsMissing(md: MatchDef, points: seq<DataPoint>, scope: Attributes, resource: Attributes): nat
  {
    if points == [] then 0
    else
      var p := points[|points| - 1];
      PointsMissing(md, points[..|points| - 1], scope, resource) +
      (if IsAttrMatch(md, p.attributes) then CompareAttributes(md, [p.attributes, scope, resource]) else 0)
  }

  /** Points that fail the pre-filter add nothing. */
  lemma {:induction false} UnmatchedPointsAddNothing(md: MatchDef, points: seq<DataPoint>, scope: Attributes, resource: Attributes)
    ensures !AnyAttrMatch(md, points) ==> PointsMissing(md, points, scope, resource) == 0
  {
    if points != [] && !AnyAttrMatch(md, points) {
      var init := points[..|points| - 1];
      assert !IsAttrMatch(md, points[|points| - 1].attributes);
      assert forall i | 0 <= i < |init| :: init[i] == points[i];
      UnmatchedPointsAddNothing(md, init, scope, resource);
    }
  }

  /** Each point adds at most the number of required keys. */
  lemma {:induction false} PointsMissingAtMostTimes(md: MatchDef, points: seq<DataPoint>, scope: Attributes, resource: Attributes)
    ensures PointsMissing(md, points, scope, resource) <= Times(|points|, |md.required|)
  {
    if points != [] {
      PointsMissingAtMostTimes(md, points[..|points| - 1], scope, resource);
    }
  }

  lemma PointsMissingBound(md: MatchDef, points: seq<DataPoint>, scope: Attributes, resource: Attributes)
    ensures PointsMissing(md, points, scope, resource) <= |points| * |md.required|
  {
    PointsMissingAtMostTimes(md, points, scope, resource);
    TimesIsProduct(|points|, |md.required|);
  }

  /** `k` copies of `n`, added up: multiplication without nonlinear arithmetic. */
  function Times(k: nat, n: nat): nat
  {
    if k == 0 then 0 else Times(k - 1, n) + n
  }

  lemma {:induction false} TimesIsProduct(k: nat, n: nat)
    ensures Times(k, n) == k * n
  {
    if k != 0 {
      TimesIsProduct(k - 1, n);
      assert k * n == (k - 1) * n + n;
    }
  }

  /** The specification of `checkDataPoints`. */
  function CheckPoints(md: MatchDef, points: seq<DataPoint>, scope: Attributes, resource: Attributes): (r: CheckResult)
    ensures r.matched <==> AnyAttrMatch(md, points)
    ensures !r.matched ==> r.missing == 0
  {
    UnmatchedPointsAddNothing(md, points, scope, resource);
    CheckResult(PointsMissing(md, points, scope, resource), AnyAttrMatch(md, points))
  }

  /** `checkDataPoints`: walks the points, skipping those that fail the
      pre-filter and summing the missing counts of the others. */
  method CheckDataPoints(md: MatchDef, points: seq<DataPoint>, scope: Attributes, resource: Attributes)
    returns (count: nat, found: bool)
    ensures CheckResult(count, found) == CheckPoints(md, points, scope, resource)
    ensures found <==> exists i | 0 <= i < |points| :: IsAttrMatch(md, points[i].attributes)
  {
    found := false;
    count := 0;
    var i := 0;
    while i < |points|
      invariant 0 <= i <= |points|
      invariant count == PointsMissing(md, points[..i], scope, resource)
      invariant found <==> AnyAttrMatch(md, points[..i])
    {
      var p := points[i];
      assert points[..i + 1][..i] == points[..i];
      if !IsAttrMatch(md, p.attributes) {
        if AnyAttrMatch(md, points[..i + 1]) {
          var j :| 0 <= j < i + 1 && IsAttrMatch(md, points[..i + 1][j].attributes);
          assert points[..i + 1][j] == points[..i][j];
        }
        i := i + 1;
        continue;
      }
      var missing := CompareAttributes(md, [p.attributes, scope, resource]);
      found := true;
      count := count + missing;
      assert points[..i + 1][i] == p;
      i := i + 1;
    }
    assert points[..i] == points;
  }

  /** `checkMetric`: a rule applies to a metric when the name matches and the
      data is of a supported kind; it then reports whether any point passed the
      pre-filter and how many required keys those points lack. */
  function CheckMetric(md: MatchDef, metric: Metric, scope: Attributes, resource: Attributes): (r: CheckResult)
    ensures r.matched <==> IsNameMatch(md, metric.name) && AnyAttrMatch(md, DataPoints(metric.data))
    ensures !r.matched ==> r.missing == 0
    ensures IsNameMatch(md, metric.name) ==>
              r == CheckPoints(md, DataPoints(metric.data), scope, resource)
  {
    if !IsNameMatch(md, metric.name) then CheckResult(0, false)
    else
      match metric.data
      case Gauge(ps) => CheckPoints(md, ps, scope, resource)
      case Sum(ps) => CheckPoints(md, ps, scope, resource)
      case Histogram(ps) => CheckPoints(md, ps, scope, resource)
      case Summary(ps) => CheckPoints(md, ps, scope, resource)
      case ExponentialHistogram(ps) => CheckPoints(md, ps, scope, resource)
      case Unsupported => CheckResult(0, false)
  }

  // ---------------------------------------------------------------------------
  // Traversal and aggregation
  // ---------------------------------------------------------------------------

  /** The outcome of one (metric, rule) pair, labelled "scope/metric". */
  datatype Finding = Finding(id: string, missing: nat)

  function Label(sm: ScopeMetrics, metric: Metric): string
  {
    ScopeName(sm) + "/" + metric.name
  }

  /** One finding per rule, in rule order, for one metric. */
  function MetricFindings(matches: seq<MatchDef>, rm: ResourceMetrics, sm: ScopeMetrics, metric: Metric): seq<Finding>
  {
    if matches == [] then []
    else
      var r := CheckMetric(matches[|matches| - 1], metric, ScopeAttributes(sm), ResourceAttributes(rm.resource));
      MetricFindings(matches[..|matches| - 1], rm, sm, metric) + [Finding(Label(sm, metric), r.missing)]
  }

  /** The findings of the given metrics of one scope, in order. */
  function ScopeFindings(matches: seq<MatchDef>, rm: ResourceMetrics, sm: ScopeMetrics, metrics: seq<Metric>): seq<Finding>
  {
    if metrics == [] then []
    else ScopeFindings(matches, rm, sm, metrics[..|metrics| - 1]) + MetricFindings(matches, rm, sm, metrics[|metrics| - 1])
  }

  /** The findings of the given scopes of one resource, in order. */
  function ResourceFindings(matches: seq<MatchDef>, rm: ResourceMetrics, scopes: seq<ScopeMetrics>): seq<Finding>
  {
    if scopes == [] then []
    else
      var sm := scopes[|scopes| - 1];
      ResourceFindings(matches, rm, scopes[..|scopes| - 1]) + ScopeFindings(matches, rm, sm, sm.metrics)
  }

  /** The findings of a whole request, in traversal order. */
  function RequestFindings(matches: seq<MatchDef>, rms: seq<ResourceMetrics>): seq<Finding>
  {
    if rms == [] then []
    else
      var rm := rms[|rms| - 1];
      RequestFindings(matches, rms[..|rms| - 1]) + ResourceFindings(matches, rm, rm.scopeMetrics)
  }

  /** The total missing count. */
  function SumMissing(fs: seq<Finding>): nat
  {
    if fs == [] then 0 else SumMissing(fs[..|fs| - 1]) + fs[|fs| - 1].missing
  }

  /** The labels of the findings with a positive missing count, in order. */
  function Offenders(fs: seq<Finding>): seq<string>
  {
    if fs == [] then []
    else Offenders(fs[..|fs| - 1]) + (if fs[|fs| - 1].missing > 0 then [fs[|fs| - 1].id] else [])
  }

  /** Recording one more finding adds its count to the total and, when
      positive, its label to the offenders. */
  lemma RecordStep(done: seq<Finding>, f: Finding)
    ensures SumMissing(done + [f]) == SumMissing(done) + f.missing
    ensures Offenders(done + [f]) == Offenders(done) + (if f.missing > 0 then [f.id] else [])
  {
    assert (done + [f])[..|done|] == done;
  }

  lemma AppendAssoc<T>(a: seq<T>, b: seq<T>, c: seq<T>)
    ensures (a + b) + c == a + (b + c)
  {
  }

  /** The findings recorded so far grow by one finding per rule ... */
  lemma MetricStep(before: seq<Finding>, matches: seq<MatchDef>, j: nat, rm: ResourceMetrics, sm: ScopeMetrics, metric: Metric)
    requires j < |matches|
    ensures before + MetricFindings(matches[..j + 1], rm, sm, metric) ==
            (before + MetricFindings(matches[..j], rm, sm, metric)) +
            [Finding(Label(sm, metric), CheckMetric(matches[j], metric, ScopeAttributes(sm), ResourceAttributes(rm.resource)).missing)]
  {
    assert matches[..j + 1][..j] == matches[..j];
    AppendAssoc(before, MetricFindings(matches[..j], rm, sm, metric),
                [Finding(Label(sm, metric), CheckMetric(matches[j], metric, ScopeAttributes(sm), ResourceAttributes(rm.resource)).missing)]);
  }

  /** ... by one metric's findings per metric ... */
  lemma ScopeStep(before: seq<Finding>, matches: seq<MatchDef>, rm: ResourceMetrics, sm: ScopeMetrics, metrics: seq<Metric>, m: nat)
    requires m < |metrics|
    ensures before + ScopeFindings(matches, rm, sm, metrics[..m + 1]) ==
            (before + ScopeFindings(matches, rm, sm, metrics[..m])) + MetricFindings(matches, rm, sm, metrics[m])
  {
    assert metrics[..m + 1][..m] == metrics[..m];
    AppendAssoc(before, ScopeFindings(matches, rm, sm, metrics[..m]), MetricFindings(matches, rm, sm, metrics[m]));
  }

  /** ... by one scope's findings per scope ... */
  lemma ResourceStep(before: seq<Finding>, matches: seq<MatchDef>, rm: ResourceMetrics, scopes: seq<ScopeMetrics>, k: nat)
    requires k < |scopes|
    ensures before + ResourceFindings(matches, rm, scopes[..k + 1]) ==
            (before + ResourceFindings(matches, rm, scopes[..k])) + ScopeFindings(matches, rm, scopes[k], scopes[k].metrics)
  {
    assert scopes[..k + 1][..k] == scopes[..k];
    AppendAssoc(before, ResourceFindings(matches, rm, scopes[..k]), ScopeFindings(matches, rm, scopes[k], scopes[k].metrics));
  }

  /** ... and by one resource's findings per resource. */
  lemma RequestStep(matches: seq<MatchDef>, rms: seq<ResourceMetrics>, i: nat)
    requires i < |rms|
    ensures RequestFindings(matches, rms[..i + 1]) ==
            RequestFindings(matches, rms[..i]) + ResourceFindings(matches, rms[i], rms[i].scopeMetrics)
  {
    assert rms[..i + 1][..i] == rms[..i];
  }

  // ---------------------------------------------------------------------------
  // Verdict
  // ---------------------------------------------------------------------------

  /** The one gRPC status code the pass produces. */
  datatype StatusCode = FailedPrecondition

  datatype Status = Status(code: StatusCode, message: string)

  datatype PartialSuccess = PartialSuccess(rejectedDataPoints: int, errorMessage: string)

  datatype ExportResponse = ExportResponse(partialSuccess: Option<PartialSuccess>)

  /** Go's `%v` rendering of a string slice: the elements, space separated, in brackets. */
  function FormatNames(names: seq<string>): string
  {
    "[" + JoinSpaced(names) + "]"
  }

  function JoinSpaced(names: seq<string>): string
  {
    if names == [] then ""
    else if |names| == 1 then names[0]
    else names[0] + " " + JoinSpaced(names[1..])
  }

  /** `Export`: a nil request gets a nil response and no error. Otherwise every
      (metric, rule) pair of the request is checked in traversal order; a
      positive total gives a partial success rejecting exactly that many points
      and a FailedPrecondition error listing the offending "scope/metric"
      labels, unless errors are disabled, in which case, as for a zero total,
      the response is empty and there is no error. */
  method Export(s: MetricsServer, req: Option<ExportRequest>)
    returns (resp: Option<ExportResponse>, err: Option<Status>)
    ensures req.None? ==> resp.None? && err.None?
    ensures req.Some? ==>
              var fs := RequestFindings(s.matches, req.value.resourceMetrics);
              if SumMissing(fs) > 0 && !s.disableError then
                && resp == Some(ExportResponse(Some(PartialSuccess(SumMissing(fs), "missing attributes"))))
                && err == Some(Status(FailedPrecondition, "missing attributes: " + FormatNames(Offenders(fs))))
              else
                resp == Some(ExportResponse(None)) && err.None?
  {
    if req.None? {
      return None, None;
    }
    var rms := req.value.resourceMetrics;
    var count: nat := 0;
    var names: seq<string> := [];
    ghost var done: seq<Finding> := [];

    for i := 0 to |rms|
      invariant done == RequestFindings(s.matches, rms[..i])
      invariant count == SumMissing(done) && names == Offenders(done)
    {
      var r := rms[i];
      ghost var beforeResource := done;
      var scopes := r.scopeMetrics;
      for k := 0 to |scopes|
        invariant done == beforeResource + ResourceFindings(s.matches, r, scopes[..k])
        invariant count == SumMissing(done) && names == Offenders(done)
      {
        var scope := scopes[k];
        ghost var beforeScope := done;
        var metrics := scope.metrics;
        for m := 0 to |metrics|
          invariant done == beforeScope + ScopeFindings(s.matches, r, scope, metrics[..m])
          invariant count == SumMissing(done) && names == Offenders(done)
        {
          var metric := metrics[m];
          ghost var beforeMetric := done;
          for j := 0 to |s.matches|
            invariant done == beforeMetric + MetricFindings(s.matches[..j], r, scope, metric)
            invariant count == SumMissing(done) && names == Offenders(done)
          {
            var result := CheckMetric(s.matches[j], metric, ScopeAttributes(scope), ResourceAttributes(r.resource));
            count := count + result.missing;
            if result.missing > 0 {
              names := names + [Label(scope, metric)];
            }
            ghost var f := Finding(Label(scope, metric), result.missing);
            RecordStep(done, f);
            MetricStep(beforeMetric, s.matches, j, r, scope, metric);
            done := done + [f];
          }
          assert s.matches[..|s.matches|] == s.matches;
          ScopeStep(beforeScope, s.matches, r, scope, metrics, m);
        }
        assert metrics[..|metrics|] == metrics;
        ResourceStep(beforeResource, s.matches, r, scopes, k);
      }
      assert scopes[..|scopes|] == scopes;
      RequestStep(s.matches, rms, i);
    }
    assert rms[..|rms|] == rms;

    if count > 0 && !s.disableError {
      return Some(ExportResponse(Some(PartialSuccess(count, "missing attributes")))),
             Some(Status(FailedPrecondition, "missing attributes: " + FormatNames(names)));
    }
    return Some(ExportResponse(None)), None;
  }
}
