/** A loaded contract, and validation of a whole response rule against it. */
module Contracts {
  import opened Wrappers
  import opened Text
  import opened Json
  import opened Schemas
  import opened Validation
  import opened Sorting
  import opened Routes
  import opened Verdicts
  import opened Scan
  import opened ScanReport
  import opened Stores

  // ---------------------------------------------------------------- loading

  /** What reading a contract file gives: parsing the text is not modelled. */
  datatype File = Unreadable | NotJson | Parsed(root: Json)

  datatype LoadError = UnreadableFile | InvalidJson | UnsupportedVersion(version: string) | MissingPaths

  datatype Contract = Contract(doc: Document, version: string, paths: Paths)

  /** A JSON object decoded member by member. */
  function DecodeTable<T>(v: Json, decode: Json -> Option<T>): Option<map<string, T>> {
    match v
    case Null => Some(map[])
    case Object(fields) =>
      if forall k :: k in fields ==> decode(fields[k]).Some?
      then Some(map k | k in fields :: decode(fields[k]).value)
      else None
    case _ => None
  }

  /** The members of an object that is decoded into a record; null leaves the record empty. */
  function Members(v: Json): Option<map<string, Json>> {
    match v
    case Null => Some(map[])
    case Object(fields) => Some(fields)
    case _ => None
  }

  function DecodeMedia(v: Json): Option<Schema> {
    var fields :- Members(v);
    Decode(Field(fields, "schema"))
  }

  function DecodeResponse(v: Json): Option<Response> {
    var fields :- Members(v);
    var content :- DecodeTable(Field(fields, "content"), DecodeMedia);
    Some(Response(content))
  }

  function DecodeOperation(v: Json): Option<Operation> {
    var fields :- Members(v);
    var responses := Field(fields, "responses");
    if responses.Null? then Some(NO_OPERATION)
    else
      var table :- DecodeTable(responses, DecodeResponse);
      Some(Operation(Some(table)))
  }

  function DecodePathItem(v: Json): Option<map<string, Operation>> {
    DecodeTable(v, DecodeOperation)
  }

  function DecodePaths(v: Json): Option<Paths> {
    DecodeTable(v, DecodePathItem)
  }

  function DecodeComponents(v: Json): Option<map<string, Schema>> {
    var fields :- Members(v);
    DecodeTable(Field(fields, "schemas"), Decode)
  }

  /** `LoadOpenAPIFileWithSourcePath` from the point where the file is read and parsed. */
  function Load(file: File, floatFits: NumberLiteral -> bool): Result<Contract, LoadError> {
    match file
    case Unreadable => Failure(UnreadableFile)
    case NotJson => Failure(InvalidJson)
    case Parsed(root) =>
      if Members(root).None? then Failure(InvalidJson)
      else
        var fields := Members(root).value;
        var version := DecodeString(Field(fields, "openapi"));
        var paths := DecodePaths(Field(fields, "paths"));
        if version.None? || paths.None? || DecodeComponents(Field(fields, "components")).None? then Failure(InvalidJson)
        else if !("3.0." <= version.value) then Failure(UnsupportedVersion(version.value))
        else if |paths.value| == 0 then Failure(MissingPaths)
        else Success(Contract(Document(root, floatFits), version.value, paths.value))
  }

  // ---------------------------------------------------------------- rules

  /** What decoding a response body gives. */
  datatype Body = BadBody | SeveralValues | OneValue(value: Json)

  datatype RuleVerdict =
    | RuleAccepted
    | AmbiguousRoute(templates: seq<string>)
    | NoOperation
    | NoStatus
    | NoJsonContent
    | WrongContentType
    | BodyNotJson
    | BodyNotSingle
    | BodyRejected(at: Location, problem: Problem)
  {
    predicate Undecided() {
      BodyRejected? && problem.Undecided()
    }

    predicate StopsAt(f: Feature) {
      BodyRejected? && problem.UnsupportedFeature() == Some(f)
    }
  }

  const JSON_MEDIA_TYPE := "application/json"

  function NormalizeContentType(contentType: string): string {
    ToLower(TrimSpace(Before(contentType, ';')))
  }

  lemma PlainTypeIsNormal(contentType: string)
    requires contentType != "" && !IsSpace(contentType[0]) && !IsSpace(contentType[|contentType| - 1])
    requires forall i :: 0 <= i < |contentType| ==> contentType[i] == '/' || 'Z' < contentType[i] <= 'z'
    ensures NormalizeContentType(contentType) == contentType
  {
    SplitFree(contentType, ';');
    TrimSpaceUnchanged(contentType);
    LowerIsAnyCase(contentType, contentType);
  }

  lemma JsonTypeIsNormal()
    ensures NormalizeContentType(JSON_MEDIA_TYPE) == JSON_MEDIA_TYPE
  {
    PlainTypeIsNormal(JSON_MEDIA_TYPE);
  }

  /** A word in any letter case, between spaces, and then the end or a semicolon and anything
      at all. */
  ghost predicate IsContentType(contentType: string, word: string) {
    exists head ::
      && Free(head, ';') && head <= contentType && (contentType == head || contentType[|head|] == ';')
      && Spells(head, word)
  }

  lemma ContentTypeWords(contentType: string, word: string)
    requires IsLowerCase(word) && HasNoSpace(word)
    ensures NormalizeContentType(contentType) == word <==> IsContentType(contentType, word)
  {
    var first := Before(contentType, ';');
    BeforeIsHead(contentType, ';', first);
    SpellingIsFound(first, word);
    forall head | Free(head, ';') && head <= contentType && (contentType == head || contentType[|head|] == ';')
      ensures head == first
    {
      BeforeIsHead(contentType, ';', head);
    }
  }

  ghost predicate IsJsonType(contentType: string) {
    IsContentType(contentType, "application/json")
  }

  lemma JsonTypes(contentType: string)
    ensures NormalizeContentType(contentType) == "application/json" <==> IsJsonType(contentType)
  {
    ContentTypeWords(contentType, "application/json");
  }

  /** The response under the exact status, or else under `default`. */
  function SelectResponse(responses: map<string, Response>, statusCode: int): Option<Response> {
    if Itoa(statusCode) in responses then Some(responses[Itoa(statusCode)])
    else if "default" in responses then Some(responses["default"])
    else None
  }

  /** The verdict on a rule against a response: content type first, then the body. */
  ghost function ValidateOutcome(contract: Contract, parse: string -> Body, response: Response,
      rule: ResponseRule): RuleVerdict {
    if |response.content| == 0 then RuleAccepted
    else if JSON_MEDIA_TYPE !in response.content then NoJsonContent
    else if NormalizeContentType(rule.contentType) != JSON_MEDIA_TYPE then WrongContentType
    else
      match parse(rule.body)
      case BadBody => BodyNotJson
      case SeveralValues => BodyNotSingle
      case OneValue(v) =>
        match Validate(contract.doc, response.content[JSON_MEDIA_TYPE], v, [], {})
        case Accepted => RuleAccepted
        case Rejected(at, problem) => BodyRejected(at, problem)
  }

  lemma TypeDecides(contract: Contract, parse: string -> Body, response: Response, rule: ResponseRule)
    requires JSON_MEDIA_TYPE in response.content
    ensures ValidateOutcome(contract, parse, response, rule) == WrongContentType <==>
            NormalizeContentType(rule.contentType) != JSON_MEDIA_TYPE
  {
    assert response.content != map[];
  }

  /** Where JSON is offered, any other content type is turned down, whatever the body. */
  lemma WhenContentTypeIsWrong(contract: Contract, parse: string -> Body, response: Response, rule: ResponseRule)
    requires "application/json" in response.content
    ensures ValidateOutcome(contract, parse, response, rule) == WrongContentType <==> !IsJsonType(rule.contentType)
  {
    JsonTypes(rule.contentType);
    TypeDecides(contract, parse, response, rule);
  }

  ghost function ValidateRule(contract: Contract, parse: string -> Body, rule: ResponseRule): RuleVerdict {
    match Lookup(contract.paths, ToLower(rule.verb), rule.path)
    case Ambiguous(templates) => AmbiguousRoute(templates)
    case Found(operation) =>
      if operation.responses.None? then NoOperation
      else
        match SelectResponse(operation.responses.value, rule.statusCode)
        case None => NoStatus
        case Some(response) => ValidateOutcome(contract, parse, response, rule)
  }

  function VerdictOf(outcome: Outcome): RuleVerdict {
    match outcome
    case Accepted => RuleAccepted
    case Rejected(at, problem) => BodyRejected(at, problem)
  }

  /** `OpenAPIContract.ValidateResponseRule`. */
  method ValidateResponseRule(contract: Contract, parse: string -> Body, rule: ResponseRule)
    returns (verdict: RuleVerdict)
    ensures verdict == ValidateRule(contract, parse, rule)
  {
    var route := FindOperation(contract.paths, ToLower(rule.verb), rule.path);
    if route.Ambiguous? {
      return AmbiguousRoute(route.templates);
    }
    if route.operation.responses.None? {
      return NoOperation;
    }
    var response := SelectResponse(route.operation.responses.value, rule.statusCode);
    if response.None? {
      return NoStatus;
    }
    var content := response.value.content;
    if |content| == 0 {
      return RuleAccepted;
    }
    if JSON_MEDIA_TYPE !in content {
      return NoJsonContent;
    }
    if NormalizeContentType(rule.contentType) != JSON_MEDIA_TYPE {
      return WrongContentType;
    }
    match parse(rule.body) {
      case BadBody =>
        return BodyNotJson;
      case SeveralValues =>
        return BodyNotSingle;
      case OneValue(v) =>
        var state := new ValidationState();
        var outcome := ValidateSchema(contract.doc, content[JSON_MEDIA_TYPE], v, [], state);
        if outcome.Rejected? {
          return BodyRejected(outcome.at, outcome.problem);
        }
    }
    return RuleAccepted;
  }

  /** A rule under the path and the method of an operation meets the response that its
      status selects. */
  lemma RuleMeetsResponse(contract: Contract, parse: string -> Body, rule: ResponseRule, response: Response)
    requires rule.path in contract.paths && ToLower(rule.verb) in contract.paths[rule.path]
    requires var responses := contract.paths[rule.path][ToLower(rule.verb)].responses;
             responses.Some? && SelectResponse(responses.value, rule.statusCode) == Some(response)
    ensures ValidateRule(contract, parse, rule) == ValidateOutcome(contract, parse, response, rule)
  {
    var verb := ToLower(rule.verb);
    assert Lookup(contract.paths, verb, rule.path) == Found(contract.paths[rule.path][verb]);
  }

  lemma ResponseMeetsBody(contract: Contract, parse: string -> Body, rule: ResponseRule, response: Response)
    requires JSON_MEDIA_TYPE in response.content && parse(rule.body).OneValue?
    requires NormalizeContentType(rule.contentType) == JSON_MEDIA_TYPE
    ensures ValidateOutcome(contract, parse, response, rule)
            == VerdictOf(Validate(contract.doc, response.content[JSON_MEDIA_TYPE], parse(rule.body).value, [], {}))
  {
  }

  // ---------------------------------------------------------------- what a valid rule is

  /** The operation that a contract defines for a request: the one under the very path, or
      else the one under the only template that matches and defines the method. */
  ghost predicate Defines(paths: Paths, verb: string, path: string, operation: Operation) {
    if path in paths && verb in paths[path] then operation == paths[path][verb]
    else exists template :: Candidates(paths, verb, path) == {template} && operation == paths[template][verb]
  }

  ghost predicate AllowsBody(contract: Contract, meaning: Meaning, parse: string -> Body, response: Response,
      rule: ResponseRule) {
    response.content == map[] ||
    (&& JSON_MEDIA_TYPE in response.content
     && NormalizeContentType(rule.contentType) == JSON_MEDIA_TYPE
     && parse(rule.body).OneValue?
     && exists n: nat :: Conforms(n, contract.doc, meaning, response.content[JSON_MEDIA_TYPE], parse(rule.body).value))
  }

  /** The contract allows the rule: it defines the operation and the status, and the content
      type and the body are as the response demands. */
  ghost predicate Allows(contract: Contract, meaning: Meaning, parse: string -> Body, rule: ResponseRule) {
    exists operation, response ::
      && Defines(contract.paths, ToLower(rule.verb), rule.path, operation)
      && operation.responses.Some?
      && SelectResponse(operation.responses.value, rule.statusCode) == Some(response)
      && AllowsBody(contract, meaning, parse, response, rule)
  }

  lemma LookupIsDefinition(paths: Paths, verb: string, path: string, operation: Operation)
    requires operation != NO_OPERATION
    ensures Defines(paths, verb, path, operation) <==> Lookup(paths, verb, path) == Found(operation)
  {
    var candidates := Candidates(paths, verb, path);
    OnlyMember(candidates);
    if |candidates| <= 1 && candidates != {} {
      var template :| template in candidates;
      assert candidates == {template};
    } else {
      assert forall template :: template in candidates && candidates == {template} ==> |candidates| == 1;
    }
  }

  /** A route is ambiguous because at least two templates have an instance that is the path,
      and all of them are listed; the contract then defines no operation for it. */
  lemma AmbiguityListsTemplates(paths: Paths, verb: string, path: string)
    requires Lookup(paths, verb, path).Ambiguous?
    ensures var templates := Lookup(paths, verb, path).templates;
            && Sorted(templates) && Distinct(templates) && |templates| >= 2
            && forall t :: t in templates <==>
                 && t in paths && t != path && verb in paths[t]
                 && exists values ::
                      Assigns(SplitPath(t), values) && Instantiate(SplitPath(t), values) == SplitPath(path)
    ensures forall operation :: !Defines(paths, verb, path, operation)
  {
    var candidates := Candidates(paths, verb, path);
    SortedKeysSize(candidates);
    forall t
      ensures t in candidates <==>
                && t in paths && t != path && verb in paths[t]
                && exists values ::
                     Assigns(SplitPath(t), values) && Instantiate(SplitPath(t), values) == SplitPath(path)
    {
      MatchingIsSubstitution(t, path);
    }
    assert forall t :: candidates == {t} ==> |candidates| == 1;
  }

  /** A rule that validates is allowed by the contract and, unless validation stopped at
      something it cannot judge, one that does not validate is not allowed. */
  lemma RuleVerdictIsExact(contract: Contract, meaning: Meaning, parse: string -> Body, rule: ResponseRule)
    ensures var verdict := ValidateRule(contract, parse, rule);
            verdict.Undecided() || (verdict == RuleAccepted <==> Allows(contract, meaning, parse, rule))
  {
    var verb := ToLower(rule.verb);
    forall operation: Operation | operation.responses.Some?
      ensures Defines(contract.paths, verb, rule.path, operation) <==>
              Lookup(contract.paths, verb, rule.path) == Found(operation)
    {
      LookupIsDefinition(contract.paths, verb, rule.path, operation);
    }
    var route := Lookup(contract.paths, verb, rule.path);
    if route.Found? && route.operation.responses.Some? {
      var response := SelectResponse(route.operation.responses.value, rule.statusCode);
      if response.Some? {
        OutcomeIsExact(contract, meaning, parse, response.value, rule);
      }
    }
  }

  lemma OutcomeIsExact(contract: Contract, meaning: Meaning, parse: string -> Body, response: Response,
      rule: ResponseRule)
    ensures var verdict := ValidateOutcome(contract, parse, response, rule);
            verdict.Undecided() || (verdict == RuleAccepted <==> AllowsBody(contract, meaning, parse, response, rule))
  {
    if JSON_MEDIA_TYPE in response.content && parse(rule.body).OneValue? {
      var s, v := response.content[JSON_MEDIA_TYPE], parse(rule.body).value;
      var outcome := Validate(contract.doc, s, v, [], {});
      if outcome.Accepted? {
        AcceptIsSound(Remaining(contract.doc, s, {}), contract.doc, meaning, s, v, [], {});
      } else if !outcome.problem.Undecided() {
        forall n: nat
          ensures !Conforms(n, contract.doc, meaning, s, v)
        {
          MismatchIsSound(n, contract.doc, meaning, s, v, [], {});
        }
      }
    }
  }

  // ---------------------------------------------------------------- the scan and the contract

  /** Where the entries of a table stand in the document. */
  lemma TableEntry<T>(root: Json, loc: Location, decode: Json -> Option<T>, k: string)
    requires At(root, loc).Some? && DecodeTable(At(root, loc).value, decode).Some?
    requires k in DecodeTable(At(root, loc).value, decode).value
    ensures At(root, loc + [Key(k)]).Some?
    ensures decode(At(root, loc + [Key(k)]).value) == Some(DecodeTable(At(root, loc).value, decode).value[k])
  {
    MemberAt(root, loc, k);
  }

  lemma MemberAt(root: Json, loc: Location, k: string)
    requires At(root, loc).Some? && At(root, loc).value.Object? && k in At(root, loc).value.fields
    ensures At(root, loc + [Key(k)]) == Some(At(root, loc).value.fields[k])
  {
    var v := At(root, loc).value;
    AtAppend(root, loc, [Key(k)]);
    assert At(v.fields[k], [Key(k)][1..]) == Some(v.fields[k]);
  }

  lemma MediaFromDocument(root: Json, loc: Location)
    requires At(root, loc).Some? && DecodeMedia(At(root, loc).value).Some?
    ensures FromDocument(root, DecodeMedia(At(root, loc).value).value)
  {
    var v := At(root, loc).value;
    if v.Object? && "schema" in v.fields {
      MemberAt(root, loc, "schema");
      assert SchemaAt(root, loc + [Key("schema")], DecodeMedia(v).value);
    }
  }

  lemma ResponseFromDocument(root: Json, loc: Location, media: string)
    requires At(root, loc).Some? && DecodeResponse(At(root, loc).value).Some?
    requires media in DecodeResponse(At(root, loc).value).value.content
    ensures FromDocument(root, DecodeResponse(At(root, loc).value).value.content[media])
  {
    MemberAt(root, loc, "content");
    TableEntry(root, loc + [Key("content")], DecodeMedia, media);
    MediaFromDocument(root, loc + [Key("content")] + [Key(media)]);
  }

  lemma OperationFromDocument(root: Json, loc: Location, status: string, media: string)
    requires At(root, loc).Some? && DecodeOperation(At(root, loc).value).Some?
    requires var responses := DecodeOperation(At(root, loc).value).value.responses;
             responses.Some? && status in responses.value && media in responses.value[status].content
    ensures FromDocument(root, DecodeOperation(At(root, loc).value).value.responses.value[status].content[media])
  {
    MemberAt(root, loc, "responses");
    TableEntry(root, loc + [Key("responses")], DecodeResponse, status);
    ResponseFromDocument(root, loc + [Key("responses")] + [Key(status)], media);
  }

  /** A schema that the contract has for the JSON body of a response. */
  ghost predicate IsResponseSchema(paths: Paths, path: string, verb: string, status: string, s: Schema) {
    && path in paths && verb in paths[path] && paths[path][verb].responses.Some?
    && status in paths[path][verb].responses.value
    && JSON_MEDIA_TYPE in paths[path][verb].responses.value[status].content
    && s == paths[path][verb].responses.value[status].content[JSON_MEDIA_TYPE]
  }

  /** Every schema that a loaded contract validates with is one of its document. */
  lemma LoadedSchemaFromDocument(file: File, floatFits: NumberLiteral -> bool, path: string, verb: string,
      status: string, s: Schema)
    requires Load(file, floatFits).Success?
    requires IsResponseSchema(Load(file, floatFits).value.paths, path, verb, status, s)
    ensures FromDocument(Load(file, floatFits).value.doc.root, s)
  {
    var root := file.root;
    assert At(root, []) == Some(root);
    MemberAt(root, [], "paths");
    TableEntry(root, [Key("paths")], DecodePathItem, path);
    TableEntry(root, [Key("paths")] + [Key(path)], DecodeOperation, verb);
    OperationFromDocument(root, [Key("paths")] + [Key(path)] + [Key(verb)], status, JSON_MEDIA_TYPE);
  }

  /** A body that is rejected is rejected by a response schema of the contract, found under
      the rule's method in lower case and its status or `default`. */
  lemma RejectedBody(contract: Contract, parse: string -> Body, rule: ResponseRule)
    returns (path: string, status: string, s: Schema)
    requires ValidateRule(contract, parse, rule).BodyRejected?
    ensures IsResponseSchema(contract.paths, path, ToLower(rule.verb), status, s)
    ensures status == Itoa(rule.statusCode) || status == "default"
    ensures var verdict := ValidateRule(contract, parse, rule);
            && parse(rule.body).OneValue?
            && Validate(contract.doc, s, parse(rule.body).value, [], {}) == Rejected(verdict.at, verdict.problem)
  {
    var verb := ToLower(rule.verb);
    path := FoundUnder(contract.paths, verb, rule.path);
    var responses := contract.paths[path][verb].responses.value;
    status := if Itoa(rule.statusCode) in responses then Itoa(rule.statusCode) else "default";
    s := responses[status].content[JSON_MEDIA_TYPE];
  }

  /** A rule that is turned down for an unsupported feature was announced: the document has
      the feature, and if its literals fit, loading it reported the feature, unless it is
      `not`. */
  lemma RefusalWasReported(file: File, floatFits: NumberLiteral -> bool, parse: string -> Body, rule: ResponseRule,
      f: Feature)
    requires Load(file, floatFits).Success?
    requires ValidateRule(Load(file, floatFits).value, parse, rule).StopsAt(f)
    ensures var doc := Load(file, floatFits).value.doc;
            && Sites(f, doc.root) != {}
            && (f != Not && NumbersFit(doc.root, floatFits) ==> Reported(doc, f) > 0)
  {
    var doc := Load(file, floatFits).value.doc;
    var path, status, s := RejectedBody(Load(file, floatFits).value, parse, rule);
    LoadedSchemaFromDocument(file, floatFits, path, ToLower(rule.verb), status, s);
    var site := StopHasSite(doc, f, s, parse(rule.body).value, [], {});
    TallyCountsSites(f, doc.root);
  }

  /** So when a loaded document has nothing to report and its literals fit, no rule at all is
      turned down for an unsupported feature, `not` excepted, and if the document has no
      `not` either, without exception. */
  lemma SilentContractIsSupported(file: File, floatFits: NumberLiteral -> bool, parse: string -> Body,
      rule: ResponseRule)
    requires Load(file, floatFits).Success?
    requires var doc := Load(file, floatFits).value.doc;
             NumbersFit(doc.root, floatFits) && forall f :: Reported(doc, f) == 0
    ensures var contract := Load(file, floatFits).value;
            forall f :: f != Not || Sites(Not, contract.doc.root) == {} ==>
                          !ValidateRule(contract, parse, rule).StopsAt(f)
  {
    forall f | ValidateRule(Load(file, floatFits).value, parse, rule).StopsAt(f)
      ensures f == Not && Sites(Not, Load(file, floatFits).value.doc.root) != {}
    {
      RefusalWasReported(file, floatFits, parse, rule, f);
    }
  }

  lemma FoundUnder(paths: Paths, verb: string, path: string) returns (template: string)
    requires Lookup(paths, verb, path).Found? && Lookup(paths, verb, path).operation != NO_OPERATION
    ensures template in paths && verb in paths[template]
    ensures paths[template][verb] == Lookup(paths, verb, path).operation
  {
    if path in paths && verb in paths[path] {
      template := path;
    } else {
      template :| template in Candidates(paths, verb, path)
                  && paths[template][verb] == Lookup(paths, verb, path).operation;
    }
  }
}
