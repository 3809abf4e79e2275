/** Small contracts that load, and rules that meet their one schema. */
module SmallContracts {
  import opened Wrappers
  import opened Text
  import opened Json
  import opened Schemas
  import opened Validation
  import opened Routes
  import opened Verdicts
  import opened Contracts
  import opened Stores

  /** An object with one member. */
  function Wrap(name: string, v: Json): Json {
    Object(map[name := v])
  }

  // ---------------------------------------------------------------- the contracts

  function MediaOf(schema: Json): Json {
    Wrap(JSON_MEDIA_TYPE, Wrap("schema", schema))
  }

  function PathsOf(schema: Json): Json {
    Wrap("/a", Wrap("get", Wrap("responses", Wrap("default", Wrap("content", MediaOf(schema))))))
  }

  /** One path with one operation, whose default response has this schema; and an example. */
  function Root(schema: Json, example: Json): Json {
    Object(map["openapi" := String("3.0.0"), "paths" := PathsOf(schema), "example" := example])
  }

  function LoadedResponse(s: Schema): Response {
    Response(map[JSON_MEDIA_TYPE := s])
  }

  function LoadedPaths(s: Schema): Paths {
    map["/a" := map["get" := Operation(Some(map["default" := LoadedResponse(s)]))]]
  }

  lemma SingleTable<T>(name: string, v: Json, decode: Json -> Option<T>)
    requires decode(v).Some?
    ensures DecodeTable(Wrap(name, v), decode) == Some(map[name := decode(v).value])
  {
    var fields := Wrap(name, v).fields;
    assert forall k :: k in fields ==> k == name && fields[k] == v;
    assert (map k | k in fields :: decode(fields[k]).value) == map[name := decode(v).value];
  }

  lemma PathsDecode(schema: Json)
    requires Decode(schema).Some?
    ensures DecodePaths(PathsOf(schema)) == Some(LoadedPaths(Decode(schema).value))
  {
    var media := Wrap("schema", schema);
    assert DecodeMedia(media) == Decode(schema);
    SingleTable(JSON_MEDIA_TYPE, media, DecodeMedia);
    var response := Wrap("content", MediaOf(schema));
    assert DecodeResponse(response) == Some(LoadedResponse(Decode(schema).value));
    SingleTable("default", response, DecodeResponse);
    var operation := Wrap("responses", Wrap("default", response));
    SingleTable("get", operation, DecodeOperation);
    SingleTable("/a", Wrap("get", operation), DecodePathItem);
  }

  lemma RootFields(schema: Json, example: Json)
    ensures var fields := Root(schema, example).fields;
            && Field(fields, "openapi") == String("3.0.0") && Field(fields, "paths") == PathsOf(schema)
            && Field(fields, "components") == Null && Field(fields, "example") == example
  {
    assert "example"[0] != "openapi"[0] && |"paths"| == 5 && |"components"| == 10;
  }

  lemma LoadOf(fields: map<string, Json>, version: string, paths: Paths, floatFits: NumberLiteral -> bool)
    requires Field(fields, "openapi") == String(version) && "3.0." <= version
    requires DecodePaths(Field(fields, "paths")) == Some(paths) && paths != map[]
    requires Field(fields, "components") == Null
    ensures Load(Parsed(Object(fields)), floatFits)
            == Success(Contract(Document(Object(fields), floatFits), version, paths))
  {
  }

  lemma RootLoads(schema: Json, example: Json, floatFits: NumberLiteral -> bool)
    requires Decode(schema).Some?
    ensures Load(Parsed(Root(schema, example)), floatFits)
            == Success(Contract(Document(Root(schema, example), floatFits), "3.0.0", LoadedPaths(Decode(schema).value)))
  {
    PathsDecode(schema);
    RootFields(schema, example);
    SomePath(Decode(schema).value);
    LoadOf(Root(schema, example).fields, "3.0.0", LoadedPaths(Decode(schema).value), floatFits);
  }

  lemma SomePath(s: Schema)
    ensures LoadedPaths(s) != map[]
  {
    assert "/a" in LoadedPaths(s);
  }

  // ---------------------------------------------------------------- the rule

  /** A rule for the one operation. */
  function RuleFor(body: string): ResponseRule {
    ResponseRule("r", "GET", "/a", 200, JSON_MEDIA_TYPE, body)
  }

  lemma LowerGet()
    ensures ToLower("GET") == "get"
  {
    assert "GET"[1..] == "ET" && "ET"[1..] == "T" && "T"[1..] == "";
    assert ToLower("T") == "t" && ToLower("ET") == "et";
  }

  lemma StatusSelects(response: Response, statusCode: int)
    ensures SelectResponse(map["default" := response], statusCode) == Some(response)
  {
    var responses := map["default" := response];
    assert Itoa(statusCode) in responses ==> Itoa(statusCode) == "default";
  }

  lemma RuleIsRouted(s: Schema, body: string)
    ensures var rule, paths := RuleFor(body), LoadedPaths(s);
            && rule.path in paths && ToLower(rule.verb) in paths[rule.path]
            && paths[rule.path][ToLower(rule.verb)] == Operation(Some(map["default" := LoadedResponse(s)]))
  {
    LowerGet();
  }

  /** The contract allows the rule exactly if its body conforms to the schema. */
  lemma RuleIsAllowed(contract: Contract, meaning: Meaning, s: Schema, parse: string -> Body, body: string, v: Json)
    requires contract.paths == LoadedPaths(s) && parse(body) == OneValue(v)
    ensures Allows(contract, meaning, parse, RuleFor(body)) <==>
            exists n: nat :: Conforms(n, contract.doc, meaning, s, v)
  {
    var rule := RuleFor(body);
    JsonTypeIsNormal();
    RuleIsRouted(s, body);
    ResponseAllows(contract, meaning, LoadedResponse(s), parse, rule, ToLower(rule.verb));
    BodyAllows(contract, meaning, s, parse, rule, v);
  }

  lemma ResponseAllows(contract: Contract, meaning: Meaning, response: Response, parse: string -> Body,
      rule: ResponseRule, verb: string)
    requires rule.path in contract.paths && verb in contract.paths[rule.path] && ToLower(rule.verb) == verb
    requires contract.paths[rule.path][verb] == Operation(Some(map["default" := response]))
    ensures Allows(contract, meaning, parse, rule) <==> AllowsBody(contract, meaning, parse, response, rule)
  {
    var operation := contract.paths[rule.path][verb];
    var responses := operation.responses.value;
    StatusSelects(response, rule.statusCode);
    assert responses == map["default" := response];
    assert Defines(contract.paths, verb, rule.path, operation);
  }

  lemma BodyAllows(contract: Contract, meaning: Meaning, s: Schema, parse: string -> Body, rule: ResponseRule, v: Json)
    requires NormalizeContentType(rule.contentType) == JSON_MEDIA_TYPE && parse(rule.body) == OneValue(v)
    ensures AllowsBody(contract, meaning, parse, LoadedResponse(s), rule) <==>
            exists n: nat :: Conforms(n, contract.doc, meaning, s, v)
  {
    var response := LoadedResponse(s);
    assert JSON_MEDIA_TYPE in response.content;
    assert response.content[JSON_MEDIA_TYPE] == s && parse(rule.body).value == v;
    if n: nat :| Conforms(n, contract.doc, meaning, s, v) {
      assert Conforms(n, contract.doc, meaning, response.content[JSON_MEDIA_TYPE], parse(rule.body).value);
    }
  }

  lemma RuleMeetsSchema(contract: Contract, s: Schema, parse: string -> Body, body: string, v: Json)
    requires contract.paths == LoadedPaths(s) && parse(body) == OneValue(v)
    ensures ValidateRule(contract, parse, RuleFor(body)) == VerdictOf(Validate(contract.doc, s, v, [], {}))
  {
    var rule := RuleFor(body);
    JsonTypeIsNormal();
    RuleIsRouted(s, body);
    StatusSelects(LoadedResponse(s), rule.statusCode);
    RuleMeetsResponse(contract, parse, rule, LoadedResponse(s));
    assert JSON_MEDIA_TYPE in LoadedResponse(s).content;
    ResponseMeetsBody(contract, parse, rule, LoadedResponse(s));
  }

  lemma OtherMethodIsForbidden(contract: Contract, s: Schema, meaning: Meaning, parse: string -> Body,
      rule: ResponseRule)
    requires contract.paths == LoadedPaths(s) && ToLower(rule.verb) != "get"
    ensures !Allows(contract, meaning, parse, rule)
  {
    assert forall path :: path in contract.paths ==> contract.paths[path].Keys == {"get"};
    assert Candidates(contract.paths, ToLower(rule.verb), rule.path) == {};
  }
}
