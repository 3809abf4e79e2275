/** Where the report of the scan misleads: whole contracts that load without a report and turn
    a response rule down for an unsupported feature, and one that loads with a report and
    never does. */
module ScanLimits {
  import opened Wrappers
  import opened Json
  import opened Schemas
  import opened Validation
  import opened Scan
  import opened ScanReport
  import opened Contracts
  import opened Decisions
  import opened Quiet
  import opened SmallContracts
  import opened Stores

  /** A number beyond float64 anywhere in the file silences the scan: this contract loads,
      nothing is reported, and the rule is turned down for `oneOf`. */
  lemma OversizedNumberSilencesScan(floatFits: NumberLiteral -> bool, parse: string -> Body)
    requires !floatFits("1e999") && parse("null") == OneValue(Null)
    ensures var loaded := Load(Parsed(Root(Wrap("oneOf", Array([Null])), Number("1e999"))), floatFits);
            && loaded.Success? && (forall f :: Reported(loaded.value.doc, f) == 0)
            && ValidateRule(loaded.value, parse, RuleFor("null")) == BodyRejected([], Unsupported(OneOf))
  {
    var schema := Wrap("oneOf", Array([Null]));
    OneOfDecodes(schema);
    RootLoads(schema, Number("1e999"), floatFits);
    var root := Root(schema, Number("1e999"));
    if NumbersFit(root, floatFits) {
      ExampleMustFit(schema, Number("1e999"), floatFits);
    }
    OneOfIsRefused(Load(Parsed(root), floatFits).value, Decode(schema).value, parse);
  }

  lemma OneOfIsRefused(contract: Contract, s: Schema, parse: string -> Body)
    requires contract.paths == LoadedPaths(s) && parse("null") == OneValue(Null)
    requires s.ref == "" && !s.nullable && s.oneOf != []
    ensures ValidateRule(contract, parse, RuleFor("null")) == BodyRejected([], Unsupported(OneOf))
  {
    RuleMeetsSchema(contract, s, parse, "null", Null);
  }

  lemma ExampleMustFit(schema: Json, example: Json, floatFits: NumberLiteral -> bool)
    requires NumbersFit(Root(schema, example), floatFits)
    ensures NumbersFit(example, floatFits)
  {
    assert NumbersFit(Root(schema, example).fields["example"], floatFits);
  }

  lemma OneOfDecodes(v: Json)
    requires v == Wrap("oneOf", Array([Null]))
    ensures Decode(v).Some? && |Decode(v).value.oneOf| == 1
    ensures Decode(v).value.ref == "" && !Decode(v).value.nullable
  {
    var list := v.fields["oneOf"];
    assert list.items[0] == Null && Decode(Null).Some?;
    assert DecodeList(list).Some? && |DecodeList(list).value| == 1;
  }

  /** The scan does not count `not`: this contract loads, its literals fit, nothing is
      reported, and the rule is turned down for `not`. */
  lemma NotIsNotCounted(floatFits: NumberLiteral -> bool, parse: string -> Body)
    requires parse("null") == OneValue(Null)
    ensures var loaded := Load(Parsed(Root(Wrap("not", Object(map[])), Null)), floatFits);
            && loaded.Success? && (forall f :: Reported(loaded.value.doc, f) == 0)
            && NumbersFit(loaded.value.doc.root, floatFits)
            && ValidateRule(loaded.value, parse, RuleFor("null")) == BodyRejected([], Unsupported(Not))
  {
    var empty := Object(map[]);
    var schema := Wrap("not", empty);
    NotDecodes(schema);
    RootLoads(schema, Null, floatFits);
    var root := Root(schema, Null);
    NegationIsSilent(schema, floatFits);
    RuleMeetsSchema(Load(Parsed(root), floatFits).value, Decode(schema).value, parse, "null", Null);
  }

  lemma NotDecodes(v: Json)
    requires v == Wrap("not", Object(map[]))
    ensures Decode(v) == Some(EMPTY_SCHEMA.(negated := Some(EMPTY_SCHEMA)))
  {
    var empty := Object(map[]);
    assert Decode(empty) == Some(EMPTY_SCHEMA);
    assert DecodePointer(v.fields["not"]) == Some(Some(EMPTY_SCHEMA));
  }

  lemma NegationIsSilent(schema: Json, floatFits: NumberLiteral -> bool)
    requires schema == Wrap("not", Object(map[]))
    ensures NumbersFit(Root(schema, Null), floatFits)
    ensures forall f :: Reported(Document(Root(schema, Null), floatFits), f) == 0
  {
    RootFits(schema, floatFits);
    PlainNames(map[]);
    SingleIsQuiet("not", Object(map[]));
    RootIsQuiet(schema);
    forall f | f != Not
      ensures Tally(f, Root(schema, Null)) == 0
    {
      QuietCountsNothing(f, Root(schema, Null));
    }
  }

  lemma NoScanKeys()
    ensures !IsScanKey("/a") && !IsScanKey("get") && !IsScanKey("responses") && !IsScanKey("default")
    ensures !IsScanKey("content") && !IsScanKey(JSON_MEDIA_TYPE) && !IsScanKey("schema")
    ensures !IsScanKey("openapi") && !IsScanKey("paths") && !IsScanKey("example")
  {
    assert "paths"[0] !in {'o', 'a'} && |"$ref"| == 4;
  }

  lemma PathsAreQuiet(schema: Json)
    requires IsQuiet(schema)
    ensures IsQuiet(PathsOf(schema))
  {
    NoScanKeys();
    SingleIsQuiet("schema", schema);
    SingleIsQuiet(JSON_MEDIA_TYPE, Wrap("schema", schema));
    SingleIsQuiet("content", MediaOf(schema));
    var response := Wrap("content", MediaOf(schema));
    SingleIsQuiet("default", response);
    SingleIsQuiet("responses", Wrap("default", response));
    SingleIsQuiet("get", Wrap("responses", Wrap("default", response)));
    SingleIsQuiet("/a", Wrap("get", Wrap("responses", Wrap("default", response))));
  }

  lemma RootNames(schema: Json, example: Json, name: string)
    requires name in Root(schema, example).fields
    ensures !IsScanKey(name)
    ensures Root(schema, example).fields[name] in {String("3.0.0"), PathsOf(schema), example}
  {
    NoScanKeys();
  }

  lemma RootIsQuiet(schema: Json)
    requires IsQuiet(schema)
    ensures IsQuiet(Root(schema, Null))
  {
    PathsAreQuiet(schema);
    var fields := Root(schema, Null).fields;
    forall name | name in fields
      ensures !IsScanKey(name) && IsQuiet(fields[name])
    {
      RootNames(schema, Null, name);
    }
    PlainNames(fields);
  }

  lemma FitWrap(name: string, v: Json, floatFits: NumberLiteral -> bool)
    requires NumbersFit(v, floatFits)
    ensures NumbersFit(Wrap(name, v), floatFits)
  {
  }

  lemma RootFits(schema: Json, floatFits: NumberLiteral -> bool)
    requires NumbersFit(schema, floatFits)
    ensures NumbersFit(Root(schema, Null), floatFits)
  {
    FitWrap("schema", schema, floatFits);
    FitWrap(JSON_MEDIA_TYPE, Wrap("schema", schema), floatFits);
    FitWrap("content", MediaOf(schema), floatFits);
    var response := Wrap("content", MediaOf(schema));
    FitWrap("default", response, floatFits);
    FitWrap("responses", Wrap("default", response), floatFits);
    FitWrap("get", Wrap("responses", Wrap("default", response)), floatFits);
    FitWrap("/a", Wrap("get", Wrap("responses", Wrap("default", response))), floatFits);
    var fields := Root(schema, Null).fields;
    forall name | name in fields
      ensures NumbersFit(fields[name], floatFits)
    {
      RootNames(schema, Null, name);
    }
  }

  // ---------------------------------------------------------------- counted without need

  lemma PartIsCounted(f: Feature, v: Json, step: Step)
    requires Child(v, step).Some?
    ensures Tally(f, v) >= Tally(f, Child(v, step).value)
  {
    TallyInAnyOrder(f, v, Steps(v), step);
    assert Tally(f, v) == Own(f, v) + TallyParts(f, v, Steps(v));
  }

  lemma WrapIsCounted(f: Feature, name: string, v: Json)
    ensures Tally(f, Wrap(name, v)) >= Tally(f, v)
  {
    PartIsCounted(f, Wrap(name, v), Key(name));
  }

  lemma SchemaIsCounted(f: Feature, schema: Json)
    ensures Tally(f, Root(schema, Null)) >= Tally(f, schema)
  {
    WrapIsCounted(f, "schema", schema);
    WrapIsCounted(f, JSON_MEDIA_TYPE, Wrap("schema", schema));
    WrapIsCounted(f, "content", MediaOf(schema));
    var response := Wrap("content", MediaOf(schema));
    WrapIsCounted(f, "default", response);
    WrapIsCounted(f, "responses", Wrap("default", response));
    WrapIsCounted(f, "get", Wrap("responses", Wrap("default", response)));
    WrapIsCounted(f, "/a", Wrap("get", Wrap("responses", Wrap("default", response))));
    RootFields(schema, Null);
    assert "paths" in Root(schema, Null).fields;
    PartIsCounted(f, Root(schema, Null), Key("paths"));
  }

  /** A property that happens to have the name `oneOf`. */
  function OneOfProperty(): Json {
    Wrap("properties", Wrap("oneOf", Object(map[])))
  }

  lemma OneOfPropertyDecodes()
    ensures Decode(OneOfProperty()) == Some(EMPTY_SCHEMA.(properties := map["oneOf" := EMPTY_SCHEMA]))
  {
    var properties := OneOfProperty().fields["properties"];
    assert Decode(Object(map[])) == Some(EMPTY_SCHEMA);
    assert properties.fields["oneOf"] == Object(map[]);
    assert DecodeMap(properties) == Some(map["oneOf" := EMPTY_SCHEMA]) by {
      assert DecodeMap(properties).value.Keys == {"oneOf"};
      assert DecodeMap(properties).value == map["oneOf" := EMPTY_SCHEMA];
    }
  }

  lemma NamedPropertyIsDecidable(root: Json, s: Schema, name: string)
    requires s == EMPTY_SCHEMA.(properties := map[name := EMPTY_SCHEMA])
    ensures Decidable(root, map[], s)
  {
    assert IsPlain(EMPTY_SCHEMA) && WalkRefs(EMPTY_SCHEMA) == {};
    assert forall k :: k in s.properties ==> s.properties[k] == EMPTY_SCHEMA;
    assert WalkRefs(s) == {} && IsPlain(s);
  }

  /** The scan also counts what is no schema: with this contract, which loads, `oneOf` is
      reported, although no rule at all stops at an unsupported feature. */
  lemma PropertyNameIsCounted(floatFits: NumberLiteral -> bool, parse: string -> Body, rule: ResponseRule, f: Feature)
    ensures var loaded := Load(Parsed(Root(OneOfProperty(), Null)), floatFits);
            && loaded.Success? && Reported(loaded.value.doc, OneOf) > 0
            && !ValidateRule(loaded.value, parse, rule).StopsAt(f)
  {
    var schema := OneOfProperty();
    OneOfPropertyDecodes();
    RootLoads(schema, Null, floatFits);
    PropertyIsReported(floatFits);
    var contract := Load(Parsed(Root(schema, Null)), floatFits).value;
    NamedPropertyIsDecidable(contract.doc.root, Decode(schema).value, "oneOf");
    OnlySchema(contract, map[], Decode(schema).value);
    DecidableNeverStops(contract, map[], parse, rule, f);
  }

  lemma OnlySchema(contract: Contract, rank: map<string, nat>, s: Schema)
    requires contract.paths == LoadedPaths(s) && Decidable(contract.doc.root, rank, s)
    ensures DecidableContract(contract, rank)
  {
  }

  lemma PropertyIsReported(floatFits: NumberLiteral -> bool)
    ensures Reported(Document(Root(OneOfProperty(), Null), floatFits), OneOf) > 0
  {
    var schema := OneOfProperty();
    FitWrap("oneOf", Object(map[]), floatFits);
    FitWrap("properties", schema.fields["properties"], floatFits);
    RootFits(schema, floatFits);
    SchemaIsCounted(OneOf, schema);
    PartIsCounted(OneOf, schema, Key("properties"));
    assert Own(OneOf, schema.fields["properties"]) == 1;
  }
}
