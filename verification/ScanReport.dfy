/** What the load-time report promises about later validation, and when it keeps it. */
module ScanReport {
  import opened Wrappers
  import opened Json
  import opened Schemas
  import opened Validation
  import opened Diagnostics
  import opened Reach
  import opened Scan
  import opened Sorting
  import Pointers

  // ---------------------------------------------------------------- the report

  /** The scan decodes the document a second time, without `UseNumber`. This decoding fails
      on a literal outside the range of a float64. */
  predicate NumbersFit(v: Json, floatFits: NumberLiteral -> bool) {
    match v
    case Number(literal) => floatFits(literal)
    case Array(items) => forall i :: 0 <= i < |items| ==> NumbersFit(items[i], floatFits)
    case Object(fields) => forall k :: k in fields ==> NumbersFit(fields[k], floatFits)
    case _ => true
  }

  /** The count that the report shows for a feature; a failed scan shows no feature. */
  ghost function Reported(doc: Document, f: Feature): nat {
    if NumbersFit(doc.root, doc.floatFits) && f != Not then Tally(f, doc.root) else 0
  }

  /** `scanUnsupportedFeatures`: a failed decoding leaves the map nil, which reads as empty. */
  method ScanUnsupportedFeatures(doc: Document) returns (counts: map<Feature, nat>)
    ensures forall f :: CountOf(counts, f) == Reported(doc, f)
  {
    if !NumbersFit(doc.root, doc.floatFits) {
      return map[];
    }
    var state := new FeatureCounts();
    ScanValue(doc.root, state);
    forall f
      ensures CountOf(state.counts, f) == Reported(doc, f)
    {
      assert Added(map[], state.counts, f, Tally(f, doc.root));
    }
    return state.counts;
  }

  /** When the report is right: every count is the number of nodes with the feature exactly
      if all number literals fit a float64, or there was nothing to report. */
  lemma ReportIsRight(doc: Document)
    ensures (forall f :: f != Not ==> Reported(doc, f) == |Sites(f, doc.root)|)
       <==> NumbersFit(doc.root, doc.floatFits) || (forall f :: f != Not ==> Sites(f, doc.root) == {})
  {
    forall f: Feature
      ensures Tally(f, doc.root) == |Sites(f, doc.root)|
    {
      TallyCountsSites(f, doc.root);
    }
    if !NumbersFit(doc.root, doc.floatFits) {
      forall f | f != Not && Reported(doc, f) == |Sites(f, doc.root)|
        ensures Sites(f, doc.root) == {}
      {
      }
    }
  }

  lemma {:induction false} FitsAt(v: Json, floatFits: NumberLiteral -> bool, loc: Location)
    requires NumbersFit(v, floatFits) && At(v, loc).Some?
    ensures NumbersFit(At(v, loc).value, floatFits)
  {
    if loc != [] {
      FitsAt(Child(v, loc[0]).value, floatFits, loc[1..]);
    }
  }

  lemma {:induction false} UnfitLiteral(v: Json, floatFits: NumberLiteral -> bool)
    returns (loc: Location, literal: NumberLiteral)
    requires !NumbersFit(v, floatFits)
    ensures At(v, loc) == Some(Number(literal)) && !floatFits(literal)
    decreases v
  {
    match v {
      case Number(n) =>
        loc, literal := [], n;
      case Array(items) =>
        var i :| 0 <= i < |items| && !NumbersFit(items[i], floatFits);
        var rest, n := UnfitLiteral(items[i], floatFits);
        loc, literal := [Index(i)] + rest, n;
        assert loc[1..] == rest;
      case Object(fields) =>
        var k :| k in fields && !NumbersFit(fields[k], floatFits);
        var rest, n := UnfitLiteral(fields[k], floatFits);
        loc, literal := [Key(k)] + rest, n;
        assert loc[1..] == rest;
    }
  }

  /** The literals fit if those at all locations do. */
  lemma NumbersFitEverywhere(v: Json, floatFits: NumberLiteral -> bool)
    ensures NumbersFit(v, floatFits) <==>
            forall loc, literal :: At(v, loc) == Some(Number(literal)) ==> floatFits(literal)
  {
    if NumbersFit(v, floatFits) {
      forall loc, literal | At(v, loc) == Some(Number(literal))
        ensures floatFits(literal)
      {
        FitsAt(v, floatFits, loc);
      }
    } else {
      var loc, literal := UnfitLiteral(v, floatFits);
    }
  }

  // ---------------------------------------------------------------- what is counted

  /** What an object must have to be counted for a feature, key by key. */
  ghost predicate Carries(f: Feature, fields: map<string, Json>) {
    || (f == OneOf && "oneOf" in fields)
    || (f == AnyOf && "anyOf" in fields)
    || (f == AllOf && "allOf" in fields)
    || (f == AdditionalSchema && "additionalProperties" in fields
        && fields["additionalProperties"] != Bool(true) && fields["additionalProperties"] != Bool(false))
    || (f == NonLocalRefs && "$ref" in fields
        && exists ref :: fields["$ref"] == String(ref) && forall pointer :: ref != "#/" + pointer)
  }

  lemma MarkedObjectsCarry(f: Feature, v: Json)
    requires f != Not
    ensures Marks(f, v) <==> v.Object? && Carries(f, v.fields)
  {
    if v.Object? && f == NonLocalRefs && "$ref" in v.fields && v.fields["$ref"].String? {
      LocalByPointer(v.fields["$ref"].s);
    }
  }

  lemma LocalByPointer(ref: string)
    ensures IsLocal(ref) <==> exists pointer :: ref == "#/" + pointer
  {
    if IsLocal(ref) {
      assert ref == "#/" + ref[2..];
    }
  }

  ghost predicate CarriesAt(root: Json, f: Feature, loc: Location) {
    At(root, loc).Some? && At(root, loc).value.Object? && Carries(f, At(root, loc).value.fields)
  }

  /** The report counts exactly the objects that carry the feature, whatever they are used
      for; in particular no boolean `additionalProperties` and no reference under `#/`. */
  lemma ReportCountsObjects(doc: Document, f: Feature)
    requires NumbersFit(doc.root, doc.floatFits) && f != Not
    ensures Reported(doc, f) == |set loc | loc in Locations(doc.root) && CarriesAt(doc.root, f, loc)|
    ensures Reported(doc, f) == 0 <==> forall loc :: !CarriesAt(doc.root, f, loc)
  {
    var sites := set loc | loc in Locations(doc.root) && CarriesAt(doc.root, f, loc);
    TallyCountsSites(f, doc.root);
    forall loc
      ensures loc in Sites(f, doc.root) <==> loc in sites
      ensures CarriesAt(doc.root, f, loc) <==> loc in sites
    {
      LocationsAreAll(doc.root, loc);
      if At(doc.root, loc).Some? {
        MarkedObjectsCarry(f, At(doc.root, loc).value);
      }
    }
    assert Sites(f, doc.root) == sites;
    if forall loc :: !CarriesAt(doc.root, f, loc) {
      assert sites == {};
    }
  }

  /** On an object that decodes to a schema, what is counted is what the validator reads. */
  lemma CountedAsRead(f: Feature, v: Json)
    requires v.Object? && Decode(v).Some?
    ensures var s := Decode(v).value;
            && (Marks(AdditionalSchema, v) <==> s.additional.Some? && !s.additional.value.Bool?)
            && (Marks(NonLocalRefs, v) <==>
                  && "$ref" in v.fields && v.fields["$ref"] == String(s.ref)
                  && forall pointer :: s.ref != "#/" + pointer)
            && (Marks(OneOf, v) <==> "oneOf" in v.fields)
            && (Marks(AnyOf, v) <==> "anyOf" in v.fields)
            && (Marks(AllOf, v) <==> "allOf" in v.fields)
  {
    var s := Decode(v).value;
    LocalByPointer(s.ref);
    DecodedKeys(v);
  }

  lemma DecodedKeys(v: Json)
    requires v.Object? && Decode(v).Some?
    ensures "$ref" in v.fields ==> v.fields["$ref"] == String(Decode(v).value.ref) || v.fields["$ref"].Null?
    ensures Decode(v).value.additional ==
            if "additionalProperties" in v.fields then Some(v.fields["additionalProperties"]) else None
  {
  }

  // ---------------------------------------------------------------- the schemas of a document

  ghost predicate SchemaAt(root: Json, loc: Location, s: Schema) {
    At(root, loc).Some? && Decode(At(root, loc).value) == Some(s)
  }

  /** Decoded from a part of the document, or from a member that it lacks. */
  ghost predicate FromDocument(root: Json, s: Schema) {
    s == EMPTY_SCHEMA || exists loc :: SchemaAt(root, loc, s)
  }

  /** Where the schema of a property, or of the elements, stands in its parent's object. */
  function PartLocation(step: Step): Location {
    match step
    case Key(name) => [Key("properties"), Key(name)]
    case Index(_) => [Key("items")]
  }

  lemma DecodedPart(v: Json, step: Step)
    requires Decode(v).Some? && SubSchema(Decode(v).value, step).Some?
    ensures SchemaAt(v, PartLocation(step), SubSchema(Decode(v).value, step).value)
  {
    var below := PartLocation(step);
    match step {
      case Key(name) =>
        assert "properties" in v.fields;
        var p := v.fields["properties"];
        assert DecodeMap(p) == Some(Decode(v).value.properties);
        assert below[1..] == [Key(name)] && below[1..][1..] == [];
        assert Child(p, Key(name)) == Some(p.fields[name]);
        assert At(p, [Key(name)]) == Some(p.fields[name]);
      case Index(_) =>
        assert "items" in v.fields && below[1..] == [];
        assert DecodePointer(v.fields["items"]) == Some(Decode(v).value.items);
    }
  }

  lemma PartFromDocument(root: Json, loc: Location, s: Schema, step: Step)
    requires SchemaAt(root, loc, s) && SubSchema(s, step).Some?
    ensures FromDocument(root, SubSchema(s, step).value)
  {
    DecodedPart(At(root, loc).value, step);
    AtAppend(root, loc, PartLocation(step));
    assert SchemaAt(root, loc + PartLocation(step), SubSchema(s, step).value);
  }

  lemma DescendsFromDocument(doc: Document, a: Node, b: Node)
    requires Descends(doc, a, b) && FromDocument(doc.root, a.schema)
    ensures FromDocument(doc.root, b.schema)
  {
    if a.schema.ref != "" {
      var loc := Pointers.ResolveIsLocation(doc.root, a.schema.ref[1..]);
      assert SchemaAt(doc.root, loc, b.schema);
    } else {
      var step :| DescendsBy(a, b, step);
      var loc :| SchemaAt(doc.root, loc, a.schema);
      PartFromDocument(doc.root, loc, a.schema, step);
    }
  }

  /** However deep validation goes, it only meets schemas of the document. */
  lemma {:induction false} DescentStaysInDocument(doc: Document, chain: seq<Node>)
    requires IsDescent(doc, chain) && FromDocument(doc.root, chain[0].schema)
    ensures FromDocument(doc.root, Last(chain).schema)
  {
    if |chain| > 1 {
      var rest := chain[1..];
      assert Descends(doc, chain[0], chain[1]);
      DescendsFromDocument(doc, chain[0], chain[1]);
      RestIsDescent(doc, chain);
      DescentStaysInDocument(doc, rest);
    }
  }

  // ---------------------------------------------------------------- reports and sites

  /** The scan marks every object that decodes to a schema with a feature. */
  lemma KeywordsAreMarked(v: Json)
    requires Decode(v).Some?
    ensures var s := Decode(v).value;
            && (s.ref != "" && !IsLocal(s.ref) ==> Marks(NonLocalRefs, v))
            && (s.oneOf != [] ==> Marks(OneOf, v))
            && (s.anyOf != [] ==> Marks(AnyOf, v))
            && (s.allOf != [] ==> Marks(AllOf, v))
            && (s.negated.Some? ==> Marks(Not, v))
            && (s.additional.Some? && !s.additional.value.Bool? ==> Marks(AdditionalSchema, v))
  {
  }

  /** Where a problem about a feature really is, the scan marks the schema's object. */
  lemma ProblemIsMarked(doc: Document, node: Node, problem: Problem, v: Json)
    requires HasProblem(doc, node, problem) && problem.UnsupportedFeature().Some?
    requires Decode(v) == Some(node.schema)
    ensures Marks(problem.UnsupportedFeature().value, v)
  {
    KeywordsAreMarked(v);
  }

  /** Validation stops at an unsupported feature only if the document has it somewhere. */
  lemma StopHasSite(doc: Document, f: Feature, s: Schema, v: Json, at: Location, open: set<string>)
    returns (site: Location)
    requires FromDocument(doc.root, s) && Validate(doc, s, v, at, open).StopsAt(f)
    ensures site in Sites(f, doc.root)
  {
    var chain := ReportHasWitness(doc, s, v, at, open);
    DescentStaysInDocument(doc, chain);
    site :| SchemaAt(doc.root, site, Last(chain).schema);
    ProblemIsMarked(doc, Last(chain), Validate(doc, s, v, at, open).problem, At(doc.root, site).value);
    LocationsAreAll(doc.root, site);
  }

  /** A feature with the count 0 is a promise, whatever the other counts are: no schema of
      the document, no value and no chain of references ends at it. Only `not`, which is not
      counted, is excepted. */
  lemma ZeroMeansSupported(doc: Document, f: Feature, s: Schema, v: Json, at: Location, open: set<string>)
    requires NumbersFit(doc.root, doc.floatFits) && f != Not && Reported(doc, f) == 0
    requires FromDocument(doc.root, s)
    ensures !Validate(doc, s, v, at, open).StopsAt(f)
  {
    TallyCountsSites(f, doc.root);
    if Validate(doc, s, v, at, open).StopsAt(f) {
      var site := StopHasSite(doc, f, s, v, at, open);
    }
  }

  // ---------------------------------------------------------------- when validation can stop

  /** Some value, validated against some schema of the document, stops at the feature. */
  ghost predicate CanStop(doc: Document, f: Feature) {
    exists loc, s, v :: SchemaAt(doc.root, loc, s) && Validate(doc, s, v, [], {}).StopsAt(f)
  }

  /** Validation against this very schema can stop at the feature. */
  ghost predicate Leads(doc: Document, f: Feature, s: Schema) {
    if f == AdditionalSchema then LeavesExtras(doc, s, {})
    else if s.ref != "" then f == NonLocalRefs && !IsLocal(s.ref)
    else Composition(s) == Some(f)
  }

  ghost predicate HasLeading(doc: Document, f: Feature) {
    exists loc, s :: SchemaAt(doc.root, loc, s) && Leads(doc, f, s)
  }

  /** Exactly when validation can stop at a feature, for every document. */
  lemma WhenValidationStops(doc: Document, f: Feature)
    ensures CanStop(doc, f) <==> HasLeading(doc, f)
  {
    if CanStop(doc, f) {
      var loc, s, v :| SchemaAt(doc.root, loc, s) && Validate(doc, s, v, [], {}).StopsAt(f);
      var chain := ReportHasWitness(doc, s, v, [], {});
      DescentStaysInDocument(doc, chain);
      WitnessLeads(doc, Last(chain), Opened(chain, {}), f);
      var site :| SchemaAt(doc.root, site, Last(chain).schema);
    }
    if HasLeading(doc, f) {
      var loc, s :| SchemaAt(doc.root, loc, s) && Leads(doc, f, s);
      var v := StoppedValue(doc, f, s);
      assert Validate(doc, s, v, [], {}).StopsAt(f);
    }
  }

  lemma WitnessLeads(doc: Document, node: Node, open: set<string>, f: Feature)
    requires var outcome := Validate(doc, node.schema, node.value, node.at, open);
             outcome.StopsAt(f) && outcome.at == node.at && HasProblem(doc, node, outcome.problem)
    ensures Leads(doc, f, node.schema) && node.schema != EMPTY_SCHEMA
  {
    if f == AdditionalSchema {
      ExtrasReported(doc, node.schema, node.value, node.at, open);
    }
  }

  lemma ReportIsInside(doc: Document, s: Schema, v: Json, at: Location, step: Step, open: set<string>)
    ensures var outcome := Validate(doc, s, v, at + [step], open);
            outcome.Rejected? ==> |outcome.at| > |at|
  {
    ReportIsRelative(doc, s, v, at + [step], [], open);
    assert at + [step] + [] == at + [step];
  }

  /** Extra properties are reported at the object itself after its properties have passed. */
  lemma ExtrasReported(doc: Document, s: Schema, v: Json, at: Location, open: set<string>)
    requires Validate(doc, s, v, at, open) == Rejected(at, Unsupported(AdditionalSchema))
    requires HasUnjudgedExtras(Node(s, v, at)) && s.ref == ""
    ensures LeavesExtras(doc, s, {})
  {
    assert ValidateMembers(doc, s, v, at, open) == Rejected(at, Unsupported(AdditionalSchema));
    if ValidateProperties(doc, s, v, SortedKeys(s.properties.Keys), at, open).Rejected? {
      var name := RejectedProperties(doc, s, v, at, open);
      ReportIsInside(doc, s.properties[name], v.fields[name], at, Key(name), open);
      assert false;
    }
    RequiredPassed(doc, s, v, at, open);
    forall name | name in s.required && name in s.properties
      ensures Accepts(doc, s.properties[name], {})
    {
      AcceptsWithFewerOpen(doc, s.properties[name], open);
    }
  }

  lemma StoppedValue(doc: Document, f: Feature, s: Schema) returns (v: Json)
    requires Leads(doc, f, s)
    ensures Validate(doc, s, v, [], {}).StopsAt(f)
  {
    assert Reaches(doc, f, s, {});
    v := ReachedStops(doc, f, s, {});
  }

  /** A schema with `not` that is no reference. */
  ghost predicate HasNegation(root: Json) {
    exists loc, s :: SchemaAt(root, loc, s) && s.ref == "" && s.negated.Some?
  }

  lemma NegationLeads(doc: Document)
    requires NumbersFit(doc.root, doc.floatFits) && forall f :: Reported(doc, f) == 0
    ensures HasNegation(doc.root) <==> HasLeading(doc, Not)
    ensures Sites(Not, doc.root) == {} ==> !HasNegation(doc.root)
  {
    if HasNegation(doc.root) {
      var loc, s :| SchemaAt(doc.root, loc, s) && s.ref == "" && s.negated.Some?;
      KeywordsAreMarked(At(doc.root, loc).value);
      NotMarked(doc, loc, OneOf);
      NotMarked(doc, loc, AnyOf);
      NotMarked(doc, loc, AllOf);
      assert s.oneOf == [] && s.anyOf == [] && s.allOf == [];
      assert Leads(doc, Not, s);
      LocationsAreAll(doc.root, loc);
      assert loc in Sites(Not, doc.root);
    }
  }

  lemma NotMarked(doc: Document, loc: Location, f: Feature)
    requires NumbersFit(doc.root, doc.floatFits) && f != Not && Reported(doc, f) == 0
    requires At(doc.root, loc).Some?
    ensures !Marks(f, At(doc.root, loc).value)
  {
    LocationsAreAll(doc.root, loc);
    TallyCountsSites(f, doc.root);
    assert loc !in Sites(f, doc.root);
  }

  /** The silence of the scan, over a document whose literals fit, is broken exactly if some
      part of the document decodes to a schema with `not` that is no reference. */
  lemma WhenSilenceIsKept(doc: Document)
    requires NumbersFit(doc.root, doc.floatFits) && forall f :: Reported(doc, f) == 0
    ensures (exists f :: CanStop(doc, f)) <==> HasNegation(doc.root)
    ensures Sites(Not, doc.root) == {} ==> forall f :: !CanStop(doc, f)
  {
    NegationLeads(doc);
    WhenValidationStops(doc, Not);
    forall f | f != Not
      ensures !CanStop(doc, f)
    {
      ZeroMeansNoStop(doc, f);
    }
  }

  lemma ZeroMeansNoStop(doc: Document, f: Feature)
    requires NumbersFit(doc.root, doc.floatFits) && f != Not && Reported(doc, f) == 0
    ensures !CanStop(doc, f)
  {
    forall loc, s, v | SchemaAt(doc.root, loc, s)
      ensures !Validate(doc, s, v, [], {}).StopsAt(f)
    {
      ZeroMeansSupported(doc, f, s, v, [], {});
    }
  }
}
