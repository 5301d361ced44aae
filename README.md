# Metrics compliance pass of otel-semconv-checker, in Dafny

This project models the metrics path of a semantic-convention compliance checker. The checker is an OTLP metrics receiver. For every exported metric it checks that the attributes required by a configured set of semantic-convention groups are present. It reports violations by returning an OTLP partial-success payload together with a gRPC `FailedPrecondition` status.

The model has three parts, following `pkg/servers/metrics.go`:

- **Rule resolution** (`NewMetricsService`). The configuration and the registry (schema version → groups) become one resource rule and an ordered list of metric rules. The registry lookup falls back exactly as the Go code does, including its use of Go's zero value for an absent map key.
- **Per-metric check** (`checkMetric`, `checkDataPoints`). A rule applies to a metric when the name matches and the data kind is supported (gauge, sum, histogram, summary or exponential histogram). Each data point that passes the rule's attribute pre-filter is compared against the required keys. The point, scope and resource attributes count as one union.
- **Traversal and verdict** (`Export`). The request is walked resource → scope → metric → rule. The walk sums the missing counts and collects a `"scope/metric"` label for every (metric, rule) pair that missed something. It ends with an empty response and no error, or with an OTLP partial-success payload (rejected count, `"missing attributes"`) paired with a gRPC `FailedPrecondition` status. This differs from OTLP's own partial-success convention, where the payload travels with an OK status; the model returns the pair exactly as the handler does and does not model what gRPC delivers to the client.

Files:

- `semconv.dfy`: the registry, `DefaultVersion` and the zero-value lookup.
- `otlp.dfy`: the request payload as plain datatypes. The metric `Data` oneof is a tagged variant with an `Unsupported` case.
- `matchdef.dfy`: match definitions, plus the name filter, the pre-filter and the attribute comparison.
- `metrics.dfy`: the server, rule resolution, the per-metric check and `Export`.
- `metrics_properties.dfy`: lemmas about aggregation, sizes, composition and resolution.

`NewMetricsService`, `CheckDataPoints` and `Export` are methods with the loops of the Go code. Each is proved against specification functions:

- `ResolveResource` and `ResolveMetricRule` for rule resolution;
- `CheckPoints` for the data-point check;
- `RequestFindings`, `SumMissing` and `Offenders` for the traversal.

`RequestFindings` returns one `Finding` (label, missing count) per (metric, rule) pair, in traversal order. The lemmas are stated about these functions. The server is a datatype, not a class, because its fields are never written after construction.

### Behaviour one might expect, and what the code does instead

- **Unknown metric-rule version.** One might expect a rule with an unknown semantic version to resolve like the same rule with the default version. In the code (metrics.go:42-46) only the stored version string is replaced. The groups passed to `newMatchDef` come from the failed lookup, which is Go's zero value and has no groups. `ResolveMetricRule` keeps this behaviour, and `UnknownRuleVersionLosesGroups` shows a registry where the two resolutions differ. The resource rule does fall back to the default version's groups (`UnknownResourceVersionIsDefault`).
- **disableError.** One might expect that disabling errors drops only the error and still returns the partial-success payload. In the code (metrics.go:109-118) a disabled error gives the same empty response as a zero count: no partial success and no error. `Export` states the code's behaviour.
- **Empty resource version.** An empty resource version is not rewritten (metrics.go:30). It still takes its groups from the default version, unless the empty string is itself a registry key (metrics.go:35-37).

### Assumptions about helpers whose source is not part of this model

The definitions of `matchDef`, `newMatchDef`, `isNameMatch`, `isAttrMatch`, `compareAttributes`, `Config`, `semconv.SemanticVersion` and `semconv.DefaultVersion` are not part of this model. They are given these bodies:

- `NewMatchDef`: the required keys are the rule's own attribute list plus every attribute of every group the rule names that the resolved version defines. The version string is stored as given.
- `IsNameMatch`: exact equality of names. Pattern or wildcard matching is not modelled.
- `IsAttrMatch`: every pre-filter key/value pair is among the point's attributes.
- `CompareAttributes`: the number of required keys absent from the union of the supplied attribute lists.
- `DefaultVersion`: a placeholder string. No property depends on its value.

## Model

| member | source | states |
|---|---|---|
| `MatchDefs.CompareAttributes` | pkg/servers/metrics.go:151 | the missing count is at most the number of required keys, and it is zero iff every required key is present in the union of the supplied levels |
| `MatchDefs.PresentKeysUnion` | pkg/servers/metrics.go:151 | a key counts as present iff at least one supplied attribute level carries it |
| `MatchDefs.MissingIffAbsentEverywhere` | pkg/servers/metrics.go:151 | a required key is missing iff no level (point, scope or resource) carries it, so a key supplied only by the resource satisfies a point-level requirement |
| `MatchDefs.CompareThreeLevels` | pkg/servers/metrics.go:151 | the three-level comparison equals the size of the required set minus the union of the point, scope and resource keys |
| `MatchDefs.MoreLevelsNeverMoreMissing` | pkg/servers/metrics.go:151 | supplying one more attribute level never increases the missing count |
| `MatchDefs.EmptyFilterMatchesAll` | pkg/servers/metrics.go:148 | a rule without a pre-filter lets every data point through |
| `Metrics.ResolveResource` | pkg/servers/metrics.go:29-38 | the resource rule's version is replaced by the default only when it was non-empty and unknown; its required keys come from the default version's groups whenever the configured version is unknown, and from the configured version's groups otherwise |
| `Metrics.ResolveMetricRule` | pkg/servers/metrics.go:42-46 | a metric rule with an unknown version stores the default version but gets no groups, so it requires only its own listed keys; a known version supplies its groups |
| `Metrics.NewMetricsService` | pkg/servers/metrics.go:28-55 | the server holds the resolved resource rule and exactly one resolved rule per configured metric rule, in configuration order, and copies both flags |
| `Metrics.UnmatchedPointsAddNothing` | pkg/servers/metrics.go:147-155 | when no data point passes the pre-filter, the points add nothing to the count |
| `Metrics.PointsMissingBound` | pkg/servers/metrics.go:147-155 | the count over a metric's points is at most the number of points times the number of required keys |
| `Metrics.CheckPoints` | pkg/servers/metrics.go:144-156 | the data-point check reports `found` iff some point passes the pre-filter, and a count of zero when none does (so no points gives `(0, false)`) |
| `Metrics.CheckDataPoints` | pkg/servers/metrics.go:144-156 | the loop returns exactly the specified count and `found`, and `found` holds iff some point passes the pre-filter |
| `Metrics.CheckMetric` | pkg/servers/metrics.go:121-142 | a rule is matched iff the name matches and some point of a supported kind passes the pre-filter; an unmatched result has count zero; on a name match the result is exactly the data-point check of the metric's points |
| `Metrics.Export` | pkg/servers/metrics.go:57-119 | a nil request gives a nil response and no error; otherwise, if the total over all (metric, rule) pairs is positive and errors are enabled, the response is a partial success rejecting exactly that total with message "missing attributes", and the error is FailedPrecondition listing the offending "scope/metric" labels; in every other case the response is empty and there is no error |
| `MetricsProperties.SumMissingAppend` | pkg/servers/metrics.go:97 | the total over two runs of findings is the sum of their totals |
| `MetricsProperties.OffendersAppend` | pkg/servers/metrics.go:98-100 | the offenders of two runs of findings are those of the first followed by those of the second |
| `MetricsProperties.NoOffendersIffNothingMissing` | pkg/servers/metrics.go:94-101 | the offender list is empty iff the total missing count is zero |
| `MetricsProperties.OffendersAtMostFindings` | pkg/servers/metrics.go:94-101 | there is at most one offender per finding and at most one per missing attribute |
| `MetricsProperties.MetricFindingsPerRule` | pkg/servers/metrics.go:94-101 | a metric yields one finding per rule, in rule order, each with the metric's "scope/metric" label and that rule's own missing count, so two rules that match the same metric both contribute |
| `MetricsProperties.RequestFindingsSize` | pkg/servers/metrics.go:64-107 | a request yields exactly one finding per (metric, rule) pair |
| `MetricsProperties.ExportTotals` | pkg/servers/metrics.go:94-109 | the offender list of a request is empty iff its total is zero, and it has at most (number of metrics × number of rules) entries |
| `MetricsProperties.SplitExport` | pkg/servers/metrics.go:64-107 | for a request made of two runs of resources, the total is the sum of the two totals and the offender list is the first run's list followed by the second's |
| `MetricsProperties.UnmatchedMetricAddsNothing` | pkg/servers/metrics.go:94-104 | a metric that no rule matches adds nothing to the total and no offender |
| `MetricsProperties.CheckMetricBound` | pkg/servers/metrics.go:121-142 | one rule adds at most (number of data points × number of required keys) for one metric |
| `MetricsProperties.UnsupportedNeverMatches` | pkg/servers/metrics.go:138-141 | a metric whose data kind is unset or unsupported gives `(0, false)` for every rule |
| `MetricsProperties.PointsMissingIsSumOverMatching` | pkg/servers/metrics.go:147-155 | the data-point count is the sum of the attribute comparisons over exactly the points that pass the pre-filter, in order |
| `MetricsProperties.UnknownResourceVersionIsDefault` | pkg/servers/metrics.go:29-38 | a non-empty unknown resource version resolves exactly as if the default version had been configured |
| `MetricsProperties.UnknownRuleVersionLosesGroups` | pkg/servers/metrics.go:42-46 | a metric rule with an unknown version can differ from the same rule with the default version: it stores the default version but none of the default version's group attributes |
| `MetricsProperties.SatisfiedAcrossLevels` | pkg/servers/metrics.go:151 | with required keys http.method and http.status_code, a point carrying http.method and a resource carrying http.status_code miss nothing |
| `MetricsProperties.NothingSupplied` | pkg/servers/metrics.go:151 | with the same two required keys and no attributes at any level, both keys are missing |

## Left out

- Logging. This covers all `slog` output: the "Got metric" line, the unsupported-type warning, the "incorrect resource version" line and the "unmatched metric" line. It only produces log output and never changes a result.
- The resource schema-URL check (metrics.go:65-71). It only logs.
- The resource-level `compareAttributes` call (metrics.go:72-79). Its result is discarded. `Export`'s contract depends only on the metric rules, so neither this call nor the resource rule can change the verdict.
- The unmatched report and the `found` flag that feeds it (metrics.go:87, 96, 102-104). They only log. `UnmatchedMetricAddsNothing` states that an unmatched metric contributes nothing.
- The `ctx` parameter and gRPC/protobuf plumbing. Status errors are a plain `Status` datatype carrying the code and the message. `"missing attributes: %v"` is modelled with Go's `[a b c]` rendering of a string slice.
- Data-point values (numbers, buckets, quantiles) and the array, key-value-list, bytes and double cases of attribute values. The check reads only attributes and compares values by equality.
- Export: the count is an unbounded natural number, so the `int64(count)` conversion of the Go `int` is not modelled as wrapping. No realistic request comes near 2^63.
- cmd/main.go. It loads the configuration, parses the registry and serves gRPC, and its stub metric and log servers return `nil, nil`. It is process plumbing.
- The trace and log export paths. They are not part of the metrics pass.
- Concurrent `Export` calls. The server is read-only after construction, so one sequential call is the whole behaviour.
