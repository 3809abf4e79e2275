/** What the cycle guard costs: a contract with a recursive schema, and two rules that get the
    same error although the contract allows one of them and forbids the other. */
module Cycles {
  import opened Wrappers
  import opened Json
  import opened Schemas
  import opened Validation
  import opened Sorting
  import opened Verdicts
  import opened Contracts
  import opened SmallContracts
  import Pointers

  // ---------------------------------------------------------------- the contract

  const CYCLIC_REF := "#/example"

  /** An object whose property `child` refers to this very schema. */
  function Recursive(): Json {
    Wrap("properties", Wrap("child", Wrap("$ref", String(CYCLIC_REF))))
  }

  /** The response schema refers to it. */
  function CyclicRoot(): Json {
    Root(Wrap("$ref", String(CYCLIC_REF)), Recursive())
  }

  function RefTo(ref: string): Schema {
    EMPTY_SCHEMA.(ref := ref)
  }

  function ListOf(ref: string): Schema {
    EMPTY_SCHEMA.(properties := map["child" := RefTo(ref)])
  }

  lemma ReferenceDecodes(ref: string)
    ensures Decode(Wrap("$ref", String(ref))) == Some(RefTo(ref))
  {
  }

  lemma ListDecodes()
    ensures Decode(Recursive()) == Some(ListOf(CYCLIC_REF))
  {
    ReferenceDecodes(CYCLIC_REF);
    var reference := Wrap("$ref", String(CYCLIC_REF));
    var properties := Recursive().fields["properties"];
    assert properties.fields["child"] == reference;
    assert DecodeMap(properties) == Some(map["child" := RefTo(CYCLIC_REF)]) by {
      assert DecodeMap(properties).value.Keys == {"child"};
      assert DecodeMap(properties).value == map["child" := RefTo(CYCLIC_REF)];
    }
  }

  lemma ListResolves()
    ensures IsLocal(CYCLIC_REF) && ResolveRef(CyclicRoot(), CYCLIC_REF) == Some(ListOf(CYCLIC_REF))
  {
    assert CYCLIC_REF[1..] == "/" + "example";
    RootFields(Wrap("$ref", String(CYCLIC_REF)), Recursive());
    Pointers.MemberResolves(CyclicRoot().fields, "example");
    ListDecodes();
  }

  // ---------------------------------------------------------------- a schema that refers to itself

  ghost predicate RefersToItself(doc: Document, ref: string) {
    ref != "" && IsLocal(ref) && ResolveRef(doc.root, ref) == Some(ListOf(ref))
  }

  lemma CycleReport(doc: Document, ref: string, v: Json)
    requires RefersToItself(doc, ref) && v.Object? && "child" in v.fields
    ensures Validate(doc, RefTo(ref), v, [], {}) == Rejected([Key("child")], CyclicRef(ref))
  {
    ListReport(doc, ref, v);
    assert {} + {ref} == {ref};
  }

  lemma ListReport(doc: Document, ref: string, v: Json)
    requires RefersToItself(doc, ref) && v.Object? && "child" in v.fields
    ensures Validate(doc, ListOf(ref), v, [], {ref}) == Rejected([Key("child")], CyclicRef(ref))
  {
    ChildReport(doc, ref, v);
    assert ListOf(ref).properties.Keys == {"child"};
    SortedKeysUnique(["child"], ListOf(ref).properties.Keys);
  }

  lemma ChildReport(doc: Document, ref: string, v: Json)
    requires RefersToItself(doc, ref) && v.Object? && "child" in v.fields
    ensures ValidateProperties(doc, ListOf(ref), v, ["child"], [], {ref}) == Rejected([Key("child")], CyclicRef(ref))
  {
    assert Validate(doc, RefTo(ref), v.fields["child"], [Key("child")], {ref})
           == Rejected([Key("child")], CyclicRef(ref));
    assert [] + [Key("child")] == [Key("child")];
  }

  /** An object without members conforms, and so does one with such a child. */
  lemma GoodConforms(doc: Document, meaning: Meaning, ref: string, empty: Json, good: Json)
    requires RefersToItself(doc, ref) && empty == Object(map[]) && good == Wrap("child", empty)
    ensures exists n: nat :: Conforms(n, doc, meaning, RefTo(ref), good)
  {
    assert Conforms(0, doc, meaning, ListOf(ref), empty);
    assert Conforms(1, doc, meaning, RefTo(ref), empty);
    assert Conforms(1, doc, meaning, ListOf(ref), good);
    assert Conforms(2, doc, meaning, RefTo(ref), good);
  }

  /** A child that is null does not. */
  lemma BadDoesNotConform(n: nat, doc: Document, meaning: Meaning, ref: string, bad: Json)
    requires RefersToItself(doc, ref) && bad == Wrap("child", Null)
    ensures !Conforms(n, doc, meaning, RefTo(ref), bad)
  {
    if n > 0 {
      assert bad.fields["child"] == Null;
      assert !Conforms(if n > 1 then n - 2 else 0, doc, meaning, ListOf(ref), Null);
      assert !Conforms(n - 1, doc, meaning, RefTo(ref), Null);
      assert !Conforms(n - 1, doc, meaning, ListOf(ref), bad);
    }
  }

  lemma RuleIsReported(contract: Contract, parse: string -> Body, ref: string, body: string, v: Json)
    requires contract.paths == LoadedPaths(RefTo(ref)) && RefersToItself(contract.doc, ref)
    requires parse(body) == OneValue(v) && v.Object? && "child" in v.fields
    ensures ValidateRule(contract, parse, RuleFor(body)) == BodyRejected([Key("child")], CyclicRef(ref))
  {
    CycleReport(contract.doc, ref, v);
    RuleMeetsSchema(contract, RefTo(ref), parse, body, v);
  }

  lemma GoodIsAllowed(contract: Contract, meaning: Meaning, parse: string -> Body, ref: string, body: string)
    requires contract.paths == LoadedPaths(RefTo(ref)) && RefersToItself(contract.doc, ref)
    requires parse(body) == OneValue(Wrap("child", Object(map[])))
    ensures Allows(contract, meaning, parse, RuleFor(body))
  {
    var v := parse(body).value;
    GoodConforms(contract.doc, meaning, ref, Object(map[]), v);
    RuleIsAllowed(contract, meaning, RefTo(ref), parse, body, v);
  }

  lemma BadIsForbidden(contract: Contract, meaning: Meaning, parse: string -> Body, ref: string, body: string)
    requires contract.paths == LoadedPaths(RefTo(ref)) && RefersToItself(contract.doc, ref)
    requires parse(body) == OneValue(Wrap("child", Null))
    ensures !Allows(contract, meaning, parse, RuleFor(body))
  {
    var v := parse(body).value;
    forall n: nat
      ensures !Conforms(n, contract.doc, meaning, RefTo(ref), v)
    {
      BadDoesNotConform(n, contract.doc, meaning, ref, v);
    }
    RuleIsAllowed(contract, meaning, RefTo(ref), parse, body, v);
  }

  // ---------------------------------------------------------------- the two rules

  /** The contract loads; the two rules are turned down with the same report; and whatever
      unsupported constructs mean, the contract allows the first and forbids the second. */
  lemma CycleDecidesNothing(floatFits: NumberLiteral -> bool, meaning: Meaning, parse: string -> Body,
      good: string, bad: string)
    requires parse(good) == OneValue(Wrap("child", Object(map[])))
    requires parse(bad) == OneValue(Wrap("child", Null))
    ensures var loaded := Load(Parsed(CyclicRoot()), floatFits);
            var report := BodyRejected([Key("child")], CyclicRef(CYCLIC_REF));
            && loaded.Success?
            && ValidateRule(loaded.value, parse, RuleFor(good)) == report
            && ValidateRule(loaded.value, parse, RuleFor(bad)) == report
            && Allows(loaded.value, meaning, parse, RuleFor(good))
            && !Allows(loaded.value, meaning, parse, RuleFor(bad))
  {
    ReferenceDecodes(CYCLIC_REF);
    RootLoads(Wrap("$ref", String(CYCLIC_REF)), Recursive(), floatFits);
    ListResolves();
    var contract := Load(Parsed(CyclicRoot()), floatFits).value;
    RuleIsReported(contract, parse, CYCLIC_REF, good, Wrap("child", Object(map[])));
    RuleIsReported(contract, parse, CYCLIC_REF, bad, Wrap("child", Null));
    GoodIsAllowed(contract, meaning, parse, CYCLIC_REF, good);
    BadIsForbidden(contract, meaning, parse, CYCLIC_REF, bad);
  }
}
