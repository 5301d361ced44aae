/** The semantic-convention registry as the metrics server sees it: a read-only
    table from a schema-version string to that version's attribute groups. */
module Semconv {

  /** A named semantic-convention group and the attribute keys it lists. */
  datatype Group = Group(id: string, attributes: seq<string>)

  /** All groups of one schema version, keyed by group id. */
  datatype SemanticVersion = SemanticVersion(groups: map<string, Group>)

  /** The registry handed to the server at construction time. */
  type Registry = map<string, SemanticVersion>

  /** The process-wide fallback version. Nothing proved here depends on its value. */
  const DefaultVersion: string := "v1.24.0"

  /** A Go map index `svs[v]`: the stored entry, or the zero value (no groups)
      when `v` is not a key. */
  function Lookup(svs: Registry, v: string): (sv: SemanticVersion)
    ensures v in svs ==> sv == svs[v]
    ensures v !in svs ==> sv.groups == map[]
  {
    if v in svs then svs[v] else SemanticVersion(map[])
  }
}
