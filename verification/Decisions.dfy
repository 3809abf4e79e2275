/** What can be told from a contract before any rule is validated: when its verdicts decide
    conformance, and which unsupported features can turn a rule down. */
module Decisions {
  import opened Wrappers
  import opened Text
  import opened Json
  import opened Schemas
  import opened Validation
  import opened Diagnostics
  import opened Verdicts
  import opened References
  import opened Reach
  import opened Routes
  import opened Scan
  import opened ScanReport
  import opened Contracts
  import opened Stores
  import Pointers

  // ---------------------------------------------------------------- decidable schemas

  predicate IsKnownType(typ: string) {
    typ == "" || typ == "object" || typ == "array" || IsScalarType(typ)
  }

  /** Validation against this schema meets no unknown type before it follows a reference. */
  ghost predicate KnowsTypes(s: Schema) {
    s.ref != "" ||
    (&& IsKnownType(EffectiveType(s))
     && (EffectiveType(s) == "object" ==> forall k :: k in s.properties ==> KnowsTypes(s.properties[k]))
     && (EffectiveType(s) == "array" && s.items.Some? ==> KnowsTypes(s.items.value)))
  }

  /** It meets nothing that it cannot judge before it follows a reference. */
  ghost predicate IsPlain(s: Schema) {
    s.ref != "" ||
    (&& Composition(s).None? && IsKnownType(EffectiveType(s))
     && (EffectiveType(s) == "object" ==>
           && (s.additional.None? || s.additional.value.Bool?)
           && forall k :: k in s.properties ==> IsPlain(s.properties[k]))
     && (EffectiveType(s) == "array" && s.items.Some? ==> IsPlain(s.items.value)))
  }

  /** The references that matter are local, resolvable and acyclic, and what stands in the
      schema and at their targets is plain. */
  ghost predicate Decidable(root: Json, rank: map<string, nat>, s: Schema) {
    && Ranked(root, rank)
    && (forall ref :: ref in rank ==> IsPlain(ResolveRef(root, ref).value))
    && WalkRefs(s) <= rank.Keys && IsPlain(s)
  }

  lemma DecidableTarget(root: Json, rank: map<string, nat>, s: Schema)
    requires Decidable(root, rank, s) && s.ref != ""
    ensures IsLocal(s.ref) && ResolveRef(root, s.ref).Some? && Decidable(root, rank, ResolveRef(root, s.ref).value)
  {
    assert s.ref in WalkRefs(s) && s.ref in rank;
    assert References.Below(rank, rank[s.ref], ResolveRef(root, s.ref).value);
  }

  lemma DecidablePart(root: Json, rank: map<string, nat>, s: Schema, step: Step)
    requires Decidable(root, rank, s) && s.ref == "" && SubSchema(s, step).Some?
    ensures Decidable(root, rank, SubSchema(s, step).value)
  {
    assert WalkRefs(SubSchema(s, step).value) <= WalkRefs(s);
  }

  lemma DecidableBelow(doc: Document, rank: map<string, nat>, a: Node, b: Node)
    requires Descends(doc, a, b) && Decidable(doc.root, rank, a.schema)
    ensures Decidable(doc.root, rank, b.schema)
  {
    if a.schema.ref != "" {
      DecidableTarget(doc.root, rank, a.schema);
    } else {
      var step :| DescendsBy(a, b, step);
      DecidablePart(doc.root, rank, a.schema, step);
    }
  }

  lemma {:induction false} DecidableOnDescent(doc: Document, rank: map<string, nat>, chain: seq<Node>)
    requires IsDescent(doc, chain) && Decidable(doc.root, rank, chain[0].schema)
    ensures Decidable(doc.root, rank, Last(chain).schema)
  {
    if |chain| > 1 {
      assert Descends(doc, chain[0], chain[1]);
      DecidableBelow(doc, rank, chain[0], chain[1]);
      RestIsDescent(doc, chain);
      DecidableOnDescent(doc, rank, chain[1..]);
    }
  }

  lemma {:induction false} RankIsBounded(rank: map<string, nat>) returns (bound: nat)
    ensures forall ref :: ref in rank ==> rank[ref] < bound
    decreases |rank|
  {
    bound := 0;
    if rank != map[] {
      var ref :| ref in rank;
      var rest := RankIsBounded(rank - {ref});
      bound := if rest <= rank[ref] then rank[ref] + 1 else rest;
      assert forall other :: other in rank && other != ref ==> other in rank - {ref};
    }
  }

  lemma PlainHere(doc: Document, rank: map<string, nat>, node: Node, problem: Problem)
    requires Decidable(doc.root, rank, node.schema) && HasProblem(doc, node, problem)
    ensures problem.Undecided() ==> problem.CyclicRef?
  {
  }

  /** Against a decidable schema, validation never stops without a verdict. */
  lemma NeverUndecided(doc: Document, rank: map<string, nat>, s: Schema, v: Json, at: Location)
    requires Decidable(doc.root, rank, s)
    ensures var outcome := Validate(doc, s, v, at, {});
            outcome.Rejected? ==> !outcome.problem.Undecided()
  {
    if Validate(doc, s, v, at, {}).Rejected? {
      var chain := ReportHasWitness(doc, s, v, at, {});
      DecidableOnDescent(doc, rank, chain);
      PlainHere(doc, rank, Last(chain), Validate(doc, s, v, at, {}).problem);
      var bound := RankIsBounded(rank);
      RankedNeverBlamesRefs(doc, rank, bound, s, v, at);
    }
  }

  /** So it accepts exactly the values that conform. */
  lemma AcceptanceIsConformance(n: nat, doc: Document, rank: map<string, nat>, meaning: Meaning, s: Schema, v: Json)
    requires Decidable(doc.root, rank, s) && n >= Remaining(doc, s, {})
    ensures Validate(doc, s, v, [], {}).Accepted? <==> Conforms(n, doc, meaning, s, v)
  {
    NeverUndecided(doc, rank, s, v, []);
    VerdictIsExact(n, doc, meaning, s, v);
  }

  // ---------------------------------------------------------------- decidable contracts

  ghost predicate DecidableContract(contract: Contract, rank: map<string, nat>) {
    forall path, verb, status, s ::
      IsResponseSchema(contract.paths, path, verb, status, s) ==> Decidable(contract.doc.root, rank, s)
  }

  /** A contract with decidable response schemas accepts exactly the rules that it allows. */
  lemma RulesAreDecided(contract: Contract, rank: map<string, nat>, meaning: Meaning, parse: string -> Body,
      rule: ResponseRule)
    requires DecidableContract(contract, rank)
    ensures ValidateRule(contract, parse, rule) == RuleAccepted <==> Allows(contract, meaning, parse, rule)
  {
    RuleVerdictIsExact(contract, meaning, parse, rule);
    if ValidateRule(contract, parse, rule).BodyRejected? {
      var path, status, s := RejectedBody(contract, parse, rule);
      NeverUndecided(contract.doc, rank, s, parse(rule.body).value, []);
    }
  }

  /** And it never stops at an unsupported feature. */
  lemma DecidableNeverStops(contract: Contract, rank: map<string, nat>, parse: string -> Body, rule: ResponseRule,
      f: Feature)
    requires DecidableContract(contract, rank)
    ensures !ValidateRule(contract, parse, rule).StopsAt(f)
  {
    if ValidateRule(contract, parse, rule).BodyRejected? {
      var path, status, s := RejectedBody(contract, parse, rule);
      NeverUndecided(contract.doc, rank, s, parse(rule.body).value, []);
    }
  }

  // ---------------------------------------------------------------- what the scan says about it

  /** Without any marked node in the document, only unknown types are left. */
  lemma {:induction false} UnmarkedIsPlain(root: Json, s: Schema)
    requires FromDocument(root, s) && (forall f :: Sites(f, root) == {}) && KnowsTypes(s)
    ensures IsPlain(s)
  {
    if s.ref == "" && s != EMPTY_SCHEMA {
      var loc :| SchemaAt(root, loc, s);
      UnmarkedHere(root, loc, s);
      if EffectiveType(s) == "object" {
        forall k | k in s.properties
          ensures IsPlain(s.properties[k])
        {
          PartFromDocument(root, loc, s, Key(k));
          UnmarkedIsPlain(root, s.properties[k]);
        }
      } else if EffectiveType(s) == "array" && s.items.Some? {
        PartFromDocument(root, loc, s, Index(0));
        UnmarkedIsPlain(root, s.items.value);
      }
    }
  }

  lemma UnmarkedHere(root: Json, loc: Location, s: Schema)
    requires SchemaAt(root, loc, s) && forall f :: Sites(f, root) == {}
    ensures Composition(s).None? && (s.additional.None? || s.additional.value.Bool?)
  {
    var v := At(root, loc).value;
    KeywordsAreMarked(v);
    LocationsAreAll(root, loc);
    forall f: Feature
      ensures !Marks(f, v)
    {
      assert loc !in Sites(f, root);
    }
  }

  /** What is left to check when the load of a contract reports nothing. */
  ghost predicate HasSoundReferences(contract: Contract, rank: map<string, nat>) {
    && Ranked(contract.doc.root, rank)
    && (forall ref :: ref in rank ==> KnowsTypes(ResolveRef(contract.doc.root, ref).value))
    && forall path, verb, status, s :: IsResponseSchema(contract.paths, path, verb, status, s) ==>
                                         WalkRefs(s) <= rank.Keys && KnowsTypes(s)
  }

  /** A contract whose literals fit, whose load reports nothing and that has no `not`, with
      acyclic references and known types, accepts exactly the rules that it allows. */
  lemma SilentContractDecides(file: File, floatFits: NumberLiteral -> bool, rank: map<string, nat>,
      meaning: Meaning, parse: string -> Body, rule: ResponseRule)
    requires Load(file, floatFits).Success?
    requires var contract := Load(file, floatFits).value;
             && NumbersFit(contract.doc.root, floatFits) && (forall f :: Reported(contract.doc, f) == 0)
             && Sites(Not, contract.doc.root) == {} && HasSoundReferences(contract, rank)
    ensures var contract := Load(file, floatFits).value;
            ValidateRule(contract, parse, rule) == RuleAccepted <==> Allows(contract, meaning, parse, rule)
  {
    var contract := Load(file, floatFits).value;
    var root := contract.doc.root;
    forall f: Feature
      ensures Sites(f, root) == {}
    {
      TallyCountsSites(f, root);
      assert Reported(contract.doc, f) == 0;
    }
    forall ref | ref in rank
      ensures IsPlain(ResolveRef(root, ref).value)
    {
      TargetFromDocument(root, ref);
      UnmarkedIsPlain(root, ResolveRef(root, ref).value);
    }
    forall path, verb, status, s | IsResponseSchema(contract.paths, path, verb, status, s)
      ensures Decidable(root, rank, s)
    {
      LoadedSchemaFromDocument(file, floatFits, path, verb, status, s);
      UnmarkedIsPlain(root, s);
    }
    RulesAreDecided(contract, rank, meaning, parse, rule);
  }

  lemma TargetFromDocument(root: Json, ref: string)
    requires IsLocal(ref) && ResolveRef(root, ref).Some?
    ensures FromDocument(root, ResolveRef(root, ref).value)
  {
    var loc := Pointers.ResolveIsLocation(root, ref[1..]);
    assert SchemaAt(root, loc, ResolveRef(root, ref).value);
  }

  // ---------------------------------------------------------------- which features turn rules down

  /** A response schema that some rule can meet: its method is in lower case and its status
      is a number or `default`. */
  ghost predicate IsServed(paths: Paths, path: string, verb: string, status: string, s: Schema) {
    && IsResponseSchema(paths, path, verb, status, s)
    && ToLower(verb) == verb
    && (status == "default" || exists n :: status == Itoa(n))
  }

  lemma {:induction false} LowerTwice(text: string)
    ensures ToLower(ToLower(text)) == ToLower(text)
  {
    if text != "" {
      LowerTwice(text[1..]);
      assert ToLower(text)[1..] == ToLower(text[1..]);
    }
  }

  /** Some status is none of these. */
  lemma {:induction false} UnusedStatus(keys: set<string>) returns (n: nat)
    ensures forall m, key :: m >= n && key in keys ==> Itoa(m) != key
    decreases |keys|
  {
    n := 0;
    if keys != {} {
      var key :| key in keys;
      var rest := UnusedStatus(keys - {key});
      n := if IsNumeral(key) && NumeralValue(key) >= rest then NumeralValue(key) + 1 else rest;
      forall m, other | m >= n && other in keys
        ensures Itoa(m) != other
      {
        NumeralOfItoa(m);
        assert other == key || other in keys - {key};
      }
    }
  }

  lemma StatusSelects(responses: map<string, Response>, status: string) returns (n: int)
    requires status in responses && (status == "default" || exists k :: status == Itoa(k))
    ensures SelectResponse(responses, n) == Some(responses[status])
  {
    if k :| status == Itoa(k) {
      n := k;
    } else {
      n := UnusedStatus(responses.Keys);
    }
  }

  /** A rule that meets a served schema with any body. */
  lemma ServedSchemaIsMet(contract: Contract, parse: string -> Body, path: string, verb: string, status: string,
      s: Schema, body: string)
    returns (rule: ResponseRule)
    requires IsServed(contract.paths, path, verb, status, s) && parse(body).OneValue?
    ensures ValidateRule(contract, parse, rule) == VerdictOf(Validate(contract.doc, s, parse(body).value, [], {}))
  {
    var responses := contract.paths[path][verb].responses.value;
    var n := StatusSelects(responses, status);
    rule := ResponseRule("", verb, path, n, JSON_MEDIA_TYPE, body);
    JsonTypeIsNormal();
    RuleMeetsResponse(contract, parse, rule, responses[status]);
    ResponseMeetsBody(contract, parse, rule, responses[status]);
  }

  lemma RejectingSchemaIsServed(contract: Contract, parse: string -> Body, rule: ResponseRule)
    returns (path: string, verb: string, status: string, s: Schema)
    requires ValidateRule(contract, parse, rule).BodyRejected?
    ensures IsServed(contract.paths, path, verb, status, s) && parse(rule.body).OneValue?
    ensures var verdict := ValidateRule(contract, parse, rule);
            Validate(contract.doc, s, parse(rule.body).value, [], {}) == Rejected(verdict.at, verdict.problem)
  {
    verb := ToLower(rule.verb);
    LowerTwice(rule.verb);
    path, status, s := RejectedBody(contract, parse, rule);
  }

  ghost predicate HasText(parse: string -> Body, v: Json) {
    exists body :: parse(body) == OneValue(v)
  }

  ghost predicate TurnsDown(contract: Contract, parse: string -> Body, f: Feature) {
    exists rule :: ValidateRule(contract, parse, rule).StopsAt(f)
  }

  ghost predicate ServesReaching(contract: Contract, f: Feature) {
    exists path, verb, status, s ::
      IsServed(contract.paths, path, verb, status, s) && Reaches(contract.doc, f, s, {})
  }

  /** A contract turns some rule down for a feature exactly if a response schema that rules
      can meet leads to the feature. */
  lemma WhenRulesAreTurnedDown(contract: Contract, parse: string -> Body, f: Feature)
    requires forall v :: HasText(parse, v)
    ensures TurnsDown(contract, parse, f) <==> ServesReaching(contract, f)
  {
    if TurnsDown(contract, parse, f) {
      var rule :| ValidateRule(contract, parse, rule).StopsAt(f);
      var path, verb, status, s := RejectingSchemaIsServed(contract, parse, rule);
      StopIsReached(contract.doc, f, s, parse(rule.body).value, [], {});
    }
    if ServesReaching(contract, f) {
      var path, verb, status, s :|
        IsServed(contract.paths, path, verb, status, s) && Reaches(contract.doc, f, s, {});
      var v := ReachedStops(contract.doc, f, s, {});
      assert HasText(parse, v);
      var body :| parse(body) == OneValue(v);
      var rule := ServedSchemaIsMet(contract, parse, path, verb, status, s, body);
    }
  }
}
