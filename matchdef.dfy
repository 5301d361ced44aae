/** Match definitions: one resolved configuration rule, the name and attribute
    filters that decide whether it applies, and the attribute comparison that
    counts the required keys a data point lacks. The Go definitions of these
    helpers live outside the modelled file; the bodies below are the
    assumptions README lists. */
module MatchDefs {
  import opened Otlp
  import opened Semconv

  /** One configuration rule: the resource rule or one metric rule. */
  datatype MatchConfig = MatchConfig(
    semanticVersion: string,
    name: string,
    matchAttributes: Attributes,  // pre-filter: only points carrying all of these
    groups: seq<string>,          // ids of the groups whose attributes are required
    attributes: seq<string>)      // further required attribute keys

  /** A resolved rule, immutable once built. */
  datatype MatchDef = MatchDef(
    name: string,
    semVer: Option<string>,
    matchAttributes: Attributes,
    required: set<string>)

  /** The keys a rule requires: its own list plus every key of every listed group
      that the chosen version defines. */
  function RequiredAttributes(m: MatchConfig, groups: map<string, Group>): set<string>
  {
    (set k | k in m.attributes) +
    (set id, k | id in m.groups && id in groups && k in groups[id].attributes :: k)
  }

  /** `newMatchDef`: builds a rule from its configuration and the groups of the
      version it was resolved against. */
  function NewMatchDef(m: MatchConfig, groups: map<string, Group>): (md: MatchDef)
    ensures md.name == m.name && md.matchAttributes == m.matchAttributes
    ensures md.semVer == Some(m.semanticVersion)
    ensures forall k :: k in md.required <==>
              (k in m.attributes || exists id :: id in m.groups && id in groups && k in groups[id].attributes)
  {
    MatchDef(m.name, Some(m.semanticVersion), m.matchAttributes, RequiredAttributes(m, groups))
  }

  /** `isNameMatch`: the rule applies to metrics of exactly its name. */
  predicate IsNameMatch(md: MatchDef, name: string)
  {
    md.name == name
  }

  /** `isAttrMatch`: every pre-filter pair is among the point's attributes. */
  predicate IsAttrMatch(md: MatchDef, attrs: Attributes)
  {
    forall kv | kv in md.matchAttributes :: kv in attrs
  }

  /** The keys present in the union of several attribute lists. */
  function PresentKeys(levels: seq<Attributes>): set<string>
  {
    if levels == [] then {} else PresentKeys(levels[..|levels| - 1]) + Keys(levels[|levels| - 1])
  }

  /** The required keys that no supplied level carries. */
  function MissingKeys(md: MatchDef, levels: seq<Attributes>): set<string>
  {
    md.required - PresentKeys(levels)
  }

  /** `compareAttributes`: how many required keys are absent from the union of
      the supplied levels (data point, scope, resource). */
  function CompareAttributes(md: MatchDef, levels: seq<Attributes>): (missing: nat)
    ensures missing <= |md.required|
    ensures missing == 0 <==> md.required <= PresentKeys(levels)
  {
    SubsetCardinality(MissingKeys(md, levels), md.required);
    NoneMissingIffCovered(md, levels);
    |MissingKeys(md, levels)|
  }

  /** No key is missing exactly when the levels cover every required key. */
  lemma NoneMissingIffCovered(md: MatchDef, levels: seq<Attributes>)
    ensures MissingKeys(md, levels) == {} <==> md.required <= PresentKeys(levels)
  {
    if !(md.required <= PresentKeys(levels)) {
      var k :| k in md.required && k !in PresentKeys(levels);
      assert k in MissingKeys(md, levels);
    }
  }

  lemma SubsetCardinality<T>(a: set<T>, b: set<T>)
    requires a <= b
    ensures |a| <= |b|
  {
    assert b == a + (b - a);
  }

  /** A key is present in the union iff some level carries it. */
  lemma {:induction false} PresentKeysUnion(levels: seq<Attributes>, k: string)
    ensures k in PresentKeys(levels) <==> exists i :: 0 <= i < |levels| && k in Keys(levels[i])
  {
    if levels != [] {
      var init := levels[..|levels| - 1];
      PresentKeysUnion(init, k);
      if k in PresentKeys(init) {
        var i :| 0 <= i < |init| && k in Keys(init[i]);
        assert levels[i] == init[i];
      }
      if exists i :: 0 <= i < |levels| && k in Keys(levels[i]) {
        var i :| 0 <= i < |levels| && k in Keys(levels[i]);
        if i < |init| { assert init[i] == levels[i]; }
      }
    }
  }

  /** Union semantics: a required key is missing iff no level carries it, so a
      key supplied only by the scope or only by the resource still counts as present. */
  lemma MissingIffAbsentEverywhere(md: MatchDef, levels: seq<Attributes>, k: string)
    ensures k in MissingKeys(md, levels) <==>
            k in md.required && forall i :: 0 <= i < |levels| ==> k !in Keys(levels[i])
  {
    PresentKeysUnion(levels, k);
  }

  /** The three-level comparison is the size of the required set minus the
      union of the point, scope and resource keys. */
  lemma CompareThreeLevels(md: MatchDef, point: Attributes, scope: Attributes, resource: Attributes)
    ensures CompareAttributes(md, [point, scope, resource]) ==
            |md.required - (Keys(point) + Keys(scope) + Keys(resource))|
  {
    var levels := [point, scope, resource];
    assert levels[..2] == [point, scope];
    assert [point, scope][..1] == [point];
    assert [point][..0] == [];
    assert PresentKeys([point]) == Keys(point);
    assert PresentKeys([point, scope]) == Keys(point) + Keys(scope);
    assert PresentKeys(levels) == Keys(point) + Keys(scope) + Keys(resource);
  }

  /** Supplying one more attribute level never increases the missing count. */
  lemma MoreLevelsNeverMoreMissing(md: MatchDef, levels: seq<Attributes>, extra: Attributes)
    ensures CompareAttributes(md, levels + [extra]) <= CompareAttributes(md, levels)
  {
    assert (levels + [extra])[..|levels|] == levels;
    SubsetCardinality(MissingKeys(md, levels + [extra]), MissingKeys(md, levels));
  }

  /** An empty pre-filter lets every data point through. */
  lemma EmptyFilterMatchesAll(md: MatchDef, attrs: Attributes)
    requires md.matchAttributes == []
    ensures IsAttrMatch(md, attrs)
  {
  }
}
