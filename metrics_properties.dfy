/** Properties of the metrics compliance pass: how the total and the offender
    list relate, how many offenders a request can produce, how requests
    compose, and how rule resolution treats unknown versions. */
module MetricsProperties {
  import opened Otlp
  import opened Semconv
  import opened MatchDefs
  import opened Metrics

  // ---------------------------------------------------------------------------
  // Aggregation
  // ---------------------------------------------------------------------------

  lemma {:induction false} SumMissingAppend(a: seq<Finding>, b: seq<Finding>)
    ensures SumMissing(a + b) == SumMissing(a) + SumMissing(b)
  {
    if b != [] {
      var init := b[..|b| - 1];
      assert (a + b)[..|a + b| - 1] == a + init;
      assert (a + b)[|a + b| - 1] == b[|b| - 1];
      SumMissingAppend(a, init);
    } else {
      assert a + b == a;
    }
  }

  lemma {:induction false} OffendersAppend(a: seq<Finding>, b: seq<Finding>)
    ensures Offenders(a + b) == Offenders(a) + Offenders(b)
  {
    if b != [] {
      var init := b[..|b| - 1];
      var last := b[|b| - 1];
      var tail := if last.missing > 0 then [last.id] else [];
      assert (a + b)[..|a + b| - 1] == a + init;
      assert (a + b)[|a + b| - 1] == last;
      OffendersAppend(a, init);
      AppendAssoc(Offenders(a), Offenders(init), tail);
    } else {
      assert a + b == a;
    }
  }

  /** The offender list is empty exactly when nothing is missing. */
  lemma {:induction false} NoOffendersIffNothingMissing(fs: seq<Finding>)
    ensures Offenders(fs) == [] <==> SumMissing(fs) == 0
  {
    if fs != [] {
      NoOffendersIffNothingMissing(fs[..|fs| - 1]);
    }
  }

  /** At most one offender per finding, and at most one per missing attribute. */
  lemma {:induction false} OffendersAtMostFindings(fs: seq<Finding>)
    ensures |Offenders(fs)| <= |fs|
    ensures |Offenders(fs)| <= SumMissing(fs)
  {
    if fs != [] {
      OffendersAtMostFindings(fs[..|fs| - 1]);
    }
  }

  // ---------------------------------------------------------------------------
  // Data points
  // ---------------------------------------------------------------------------

  /** The points a rule's pre-filter lets through, in their original order. */
  function MatchingPoints(md: MatchDef, points: seq<DataPoint>): (r: seq<DataPoint>)
    ensures forall q | q in r :: q in points && IsAttrMatch(md, q.attributes)
  {
    if points == [] then []
    else
      var p := points[|points| - 1];
      MatchingPoints(md, points[..|points| - 1]) + (if IsAttrMatch(md, p.attributes) then [p] else [])
  }

  /** The missing counts of every given point, with no filtering. */
  function SumCompare(md: MatchDef, points: seq<DataPoint>, scope: Attributes, resource: Attributes): nat
  {
    if points == [] then 0
    else
      SumCompare(md, points[..|points| - 1], scope, resource) +
      CompareAttributes(md, [points[|points| - 1].attributes, scope, resource])
  }

  /** `checkDataPoints` counts the sum of the comparisons over exactly the points
      that pass the pre-filter. */
  lemma {:induction false} PointsMissingIsSumOverMatching(md: MatchDef, points: seq<DataPoint>, scope: Attributes, resource: Attributes)
    ensures PointsMissing(md, points, scope, resource) == SumCompare(md, MatchingPoints(md, points), scope, resource)
  {
    if points != [] {
      var init := points[..|points| - 1];
      var p := points[|points| - 1];
      PointsMissingIsSumOverMatching(md, init, scope, resource);
      var before := MatchingPoints(md, init);
      if IsAttrMatch(md, p.attributes) {
        assert MatchingPoints(md, points) == before + [p];
        SumCompareSnoc(md, before, p, scope, resource);
      } else {
        assert MatchingPoints(md, points) == before + [];
        assert before + [] == before;
      }
    }
  }

  lemma SumCompareSnoc(md: MatchDef, before: seq<DataPoint>, p: DataPoint, scope: Attributes, resource: Attributes)
    ensures SumCompare(md, before + [p], scope, resource) ==
            SumCompare(md, before, scope, resource) + CompareAttributes(md, [p.attributes, scope, resource])
  {
    assert (before + [p])[..|before|] == before;
  }

  // ---------------------------------------------------------------------------
  // One finding per (metric, rule) pair
  // ---------------------------------------------------------------------------

  /** A metric yields one finding per rule, in rule order, each carrying the
      metric's "scope/metric" label and that rule's own missing count; so two
      rules matching the same metric both contribute. */
  lemma {:induction false} MetricFindingsPerRule(matches: seq<MatchDef>, rm: ResourceMetrics, sm: ScopeMetrics, metric: Metric)
    ensures |MetricFindings(matches, rm, sm, metric)| == |matches|
    ensures forall j :: 0 <= j < |matches| ==>
              MetricFindings(matches, rm, sm, metric)[j] ==
              Finding(Label(sm, metric), CheckMetric(matches[j], metric, ScopeAttributes(sm), ResourceAttributes(rm.resource)).missing)
  {
    if matches != [] {
      var init := matches[..|matches| - 1];
      MetricFindingsPerRule(init, rm, sm, metric);
      assert forall j :: 0 <= j < |init| ==> init[j] == matches[j];
    }
  }

  /** The number of metrics in a sequence of scopes. */
  function ScopesMetricCount(scopes: seq<ScopeMetrics>): nat
  {
    if scopes == [] then 0 else ScopesMetricCount(scopes[..|scopes| - 1]) + |scopes[|scopes| - 1].metrics|
  }

  /** The number of metrics in a request. */
  function RequestMetricCount(rms: seq<ResourceMetrics>): nat
  {
    if rms == [] then 0 else RequestMetricCount(rms[..|rms| - 1]) + ScopesMetricCount(rms[|rms| - 1].scopeMetrics)
  }

  lemma {:induction false} TimesAdd(a: nat, b: nat, n: nat)
    ensures Times(a + b, n) == Times(a, n) + Times(b, n)
  {
    if b != 0 {
      TimesAdd(a, b - 1, n);
    }
  }

  lemma {:induction false} ScopeFindingsSize(matches: seq<MatchDef>, rm: ResourceMetrics, sm: ScopeMetrics, metrics: seq<Metric>)
    ensures |ScopeFindings(matches, rm, sm, metrics)| == Times(|metrics|, |matches|)
  {
    if metrics != [] {
      ScopeFindingsSize(matches, rm, sm, metrics[..|metrics| - 1]);
      MetricFindingsPerRule(matches, rm, sm, metrics[|metrics| - 1]);
    }
  }

  lemma {:induction false} ResourceFindingsSize(matches: seq<MatchDef>, rm: ResourceMetrics, scopes: seq<ScopeMetrics>)
    ensures |ResourceFindings(matches, rm, scopes)| == Times(ScopesMetricCount(scopes), |matches|)
  {
    if scopes != [] {
      var sm := scopes[|scopes| - 1];
      var init := scopes[..|scopes| - 1];
      var tail := ScopeFindings(matches, rm, sm, sm.metrics);
      assert ResourceFindings(matches, rm, scopes) == ResourceFindings(matches, rm, init) + tail;
      assert ScopesMetricCount(scopes) == ScopesMetricCount(init) + |sm.metrics|;
      ResourceFindingsSize(matches, rm, init);
      ScopeFindingsSize(matches, rm, sm, sm.metrics);
      TimesAdd(ScopesMetricCount(init), |sm.metrics|, |matches|);
    }
  }

  /** A request yields exactly one finding per (metric, rule) pair. */
  lemma {:induction false} RequestFindingsSize(matches: seq<MatchDef>, rms: seq<ResourceMetrics>)
    ensures |RequestFindings(matches, rms)| == RequestMetricCount(rms) * |matches|
  {
    RequestFindingsTimes(matches, rms);
    TimesIsProduct(RequestMetricCount(rms), |matches|);
  }

  lemma {:induction false} RequestFindingsTimes(matches: seq<MatchDef>, rms: seq<ResourceMetrics>)
    ensures |RequestFindings(matches, rms)| == Times(RequestMetricCount(rms), |matches|)
  {
    if rms != [] {
      var rm := rms[|rms| - 1];
      var init := rms[..|rms| - 1];
      var tail := ResourceFindings(matches, rm, rm.scopeMetrics);
      assert RequestFindings(matches, rms) == RequestFindings(matches, init) + tail;
      assert RequestMetricCount(rms) == RequestMetricCount(init) + ScopesMetricCount(rm.scopeMetrics);
      RequestFindingsTimes(matches, init);
      ResourceFindingsSize(matches, rm, rm.scopeMetrics);
      TimesAdd(RequestMetricCount(init), ScopesMetricCount(rm.scopeMetrics), |matches|);
    }
  }

  /** What `Export` reports about a request: the offender list is empty iff the
      total is zero, and it holds at most one entry per (metric, rule) pair. */
  lemma ExportTotals(matches: seq<MatchDef>, rms: seq<ResourceMetrics>)
    ensures Offenders(RequestFindings(matches, rms)) == [] <==> SumMissing(RequestFindings(matches, rms)) == 0
    ensures |Offenders(RequestFindings(matches, rms))| <= RequestMetricCount(rms) * |matches|
  {
    NoOffendersIffNothingMissing(RequestFindings(matches, rms));
    OffendersAtMostFindings(RequestFindings(matches, rms));
    RequestFindingsSize(matches, rms);
  }

  // ---------------------------------------------------------------------------
  // Composition and unmatched metrics
  // ---------------------------------------------------------------------------

  lemma {:induction false} RequestFindingsAppend(matches: seq<MatchDef>, a: seq<ResourceMetrics>, b: seq<ResourceMetrics>)
    ensures RequestFindings(matches, a + b) == RequestFindings(matches, a) + RequestFindings(matches, b)
  {
    if b != [] {
      var init := b[..|b| - 1];
      var last := b[|b| - 1];
      var tail := ResourceFindings(matches, last, last.scopeMetrics);
      assert (a + b)[..|a + b| - 1] == a + init;
      assert (a + b)[|a + b| - 1] == last;
      RequestFindingsAppend(matches, a, init);
      AppendAssoc(RequestFindings(matches, a), RequestFindings(matches, init), tail);
    } else {
      assert a + b == a;
    }
  }

  /** The resource blocks are checked independently: exporting `a + b` in one
      call yields the total and the offenders of `a` followed by those of `b`. */
  lemma SplitExport(matches: seq<MatchDef>, a: seq<ResourceMetrics>, b: seq<ResourceMetrics>)
    ensures SumMissing(RequestFindings(matches, a + b)) ==
            SumMissing(RequestFindings(matches, a)) + SumMissing(RequestFindings(matches, b))
    ensures Offenders(RequestFindings(matches, a + b)) ==
            Offenders(RequestFindings(matches, a)) + Offenders(RequestFindings(matches, b))
  {
    RequestFindingsAppend(matches, a, b);
    SumMissingAppend(RequestFindings(matches, a), RequestFindings(matches, b));
    OffendersAppend(RequestFindings(matches, a), RequestFindings(matches, b));
  }

  /** A metric that no rule matches adds nothing to the total and no offender:
      reporting it as unmatched is informational only. */
  lemma {:induction false} UnmatchedMetricAddsNothing(matches: seq<MatchDef>, rm: ResourceMetrics, sm: ScopeMetrics, metric: Metric)
    requires forall j :: 0 <= j < |matches| ==>
               !CheckMetric(matches[j], metric, ScopeAttributes(sm), ResourceAttributes(rm.resource)).matched
    ensures SumMissing(MetricFindings(matches, rm, sm, metric)) == 0
    ensures Offenders(MetricFindings(matches, rm, sm, metric)) == []
  {
    if matches != [] {
      var init := matches[..|matches| - 1];
      assert forall j :: 0 <= j < |init| ==> init[j] == matches[j];
      UnmatchedMetricAddsNothing(init, rm, sm, metric);
    }
  }

  /** A rule adds at most its number of required keys for each data point. */
  lemma CheckMetricBound(md: MatchDef, metric: Metric, scope: Attributes, resource: Attributes)
    ensures CheckMetric(md, metric, scope, resource).missing <= |DataPoints(metric.data)| * |md.required|
  {
    PointsMissingBound(md, DataPoints(metric.data), scope, resource);
  }

  /** A metric whose data kind is unset or unsupported is never matched. */
  lemma UnsupportedNeverMatches(md: MatchDef, metric: Metric, scope: Attributes, resource: Attributes)
    requires metric.data.Unsupported?
    ensures CheckMetric(md, metric, scope, resource) == CheckResult(0, false)
  {
  }

  // ---------------------------------------------------------------------------
  // Rule resolution
  // ---------------------------------------------------------------------------

  /** A non-empty unknown resource version behaves as if the default version
      had been configured. */
  lemma UnknownResourceVersionIsDefault(r: MatchConfig, svs: Registry)
    requires r.semanticVersion != "" && r.semanticVersion !in svs
    ensures ResolveResource(r, svs) == ResolveResource(r.(semanticVersion := DefaultVersion), svs)
  {
  }

  /** An unknown metric-rule version does not behave like the default version:
      the rule keeps the default's name but loses its groups. */
  lemma UnknownRuleVersionLosesGroups()
    ensures var svs := map[DefaultVersion := SemanticVersion(map["http" := Group("http", ["http.method"])])];
            var m := MatchConfig("v1.99", "http.server.duration", [], ["http"], []);
            && ResolveMetricRule(m, svs).semVer == Some(DefaultVersion)
            && ResolveMetricRule(m, svs).required == {}
            && ResolveMetricRule(m.(semanticVersion := DefaultVersion), svs).required == {"http.method"}
  {
    var svs := map[DefaultVersion := SemanticVersion(map["http" := Group("http", ["http.method"])])];
    var m := MatchConfig("v1.99", "http.server.duration", [], ["http"], []);
    assert "v1.99" !in svs;
    var d := m.(semanticVersion := DefaultVersion);
    var req := ResolveMetricRule(d, svs).required;
    assert "http.method" in svs[DefaultVersion].groups["http"].attributes;
    assert "http.method" in req;
    assert req <= {"http.method"};
  }

  // ---------------------------------------------------------------------------
  // Attribute comparison scenarios
  // ---------------------------------------------------------------------------

  /** Both required keys supplied, one by the point and one by the resource. */
  lemma SatisfiedAcrossLevels(md: MatchDef)
    requires md.required == {"http.method", "http.status_code"}
    ensures CompareAttributes(md, [[KeyValue("http.method", StringValue("GET"))], [],
                                   [KeyValue("http.status_code", StringValue("200"))]]) == 0
  {
    var point := [KeyValue("http.method", StringValue("GET"))];
    var resource := [KeyValue("http.status_code", StringValue("200"))];
    assert "http.method" in Keys(point) by { assert point[0] in point; }
    assert "http.status_code" in Keys(resource) by { assert resource[0] in resource; }
    var levels: seq<Attributes> := [point, [], resource];
    assert "http.method" in Keys(levels[0]) && "http.status_code" in Keys(levels[2]);
    PresentKeysUnion(levels, "http.method");
    PresentKeysUnion(levels, "http.status_code");
    assert md.required <= PresentKeys(levels);
  }

  /** Nothing supplied at any level: both required keys are missing. */
  lemma NothingSupplied(md: MatchDef)
    requires md.required == {"http.method", "http.status_code"}
    ensures CompareAttributes(md, [[], [], []]) == 2
  {
    CompareThreeLevels(md, [], [], []);
    assert Keys([]) == {};
    assert md.required - ({} + {} + {}) == md.required;
  }
}
