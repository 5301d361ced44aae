/** The OTLP metrics export payload, reduced to what the compliance pass reads:
    names, schema URLs, attributes and the shape of each metric's data. */
module Otlp {

  /** An attribute value; the wire type has more cases, compared only for equality here. */
  datatype AnyValue = StringValue(s: string) | BoolValue(b: bool) | IntValue(i: int)

  datatype KeyValue = KeyValue(key: string, value: AnyValue)

  type Attributes = seq<KeyValue>

  datatype Resource = Resource(attributes: Attributes)

  datatype InstrumentationScope = InstrumentationScope(name: string, attributes: Attributes)

  /** Every data-point kind (number, histogram, summary, exponential histogram)
      carries its own attributes; that is all the check looks at. */
  datatype DataPoint = DataPoint(attributes: Attributes)

  /** The `Data` oneof of a metric. `Unsupported` stands for an unset oneof or a
      kind the server does not know. */
  datatype MetricData =
    | Gauge(gaugePoints: seq<DataPoint>)
    | Sum(sumPoints: seq<DataPoint>)
    | Histogram(histogramPoints: seq<DataPoint>)
    | Summary(summaryPoints: seq<DataPoint>)
    | ExponentialHistogram(expPoints: seq<DataPoint>)
    | Unsupported

  datatype Metric = Metric(name: string, data: MetricData)

  /** `scope` is None when the message leaves the scope unset. */
  datatype ScopeMetrics = ScopeMetrics(scope: Option<InstrumentationScope>, schemaUrl: string, metrics: seq<Metric>)

  /** `resource` is None when the message leaves the resource unset. */
  datatype ResourceMetrics = ResourceMetrics(resource: Option<Resource>, schemaUrl: string, scopeMetrics: seq<ScopeMetrics>)

  datatype ExportRequest = ExportRequest(resourceMetrics: seq<ResourceMetrics>)

  datatype Option<+T> = None | Some(value: T)

  /** Protobuf getters are nil-safe: an unset scope has the empty name and no attributes. */
  function ScopeName(sm: ScopeMetrics): string
  {
    match sm.scope
    case None => ""
    case Some(sc) => sc.name
  }

  function ScopeAttributes(sm: ScopeMetrics): Attributes
  {
    match sm.scope
    case None => []
    case Some(sc) => sc.attributes
  }

  function ResourceAttributes(r: Option<Resource>): Attributes
  {
    match r
    case None => []
    case Some(res) => res.attributes
  }

  /** The data points of a supported kind; none for an unsupported or unset one. */
  function DataPoints(d: MetricData): seq<DataPoint>
  {
    match d
    case Gauge(ps) => ps
    case Sum(ps) => ps
    case Histogram(ps) => ps
    case Summary(ps) => ps
    case ExponentialHistogram(ps) => ps
    case Unsupported => []
  }

  /** The set of keys present in one attribute list. */
  function Keys(attrs: Attributes): set<string>
  {
    set kv | kv in attrs :: kv.key
  }
}
