/** Validation of a JSON value against a response schema: `validateSchema` and the
    functions it calls. */
module Validation {
  import opened Wrappers
  import opened Text
  import opened Sorting
  import opened Json
  import opened Schemas
  import Canonical
  import Pointers

  /** The raw document that references point into, and which literals `ParseFloat`
      accepts; the range of a float64 is left open. */
  datatype Document = Document(root: Json, floatFits: NumberLiteral -> bool)

  datatype Feature = OneOf | AnyOf | AllOf | Not | AdditionalSchema | NonLocalRefs

  datatype Problem =
    | NotAnObject
    | MissingRequired(name: string)
    | ExtraProperty(name: string)
    | NotAnArray
    | NotAString
    | NotAnInteger
    | NotANumber
    | NotABoolean
    | UnknownType(typ: string)
    | NotInEnum
    | Unsupported(feature: Feature)
    | NonLocalRef(ref: string)
    | UnresolvedRef(ref: string)
    | CyclicRef(ref: string)
  {
    /** The program stopped without judging the value. */
    predicate Undecided() {
      Unsupported? || UnknownType? || NonLocalRef? || UnresolvedRef? || CyclicRef?
    }

    /** The feature that an error with the code `unsupported_contract_feature` is about. */
    function UnsupportedFeature(): Option<Feature> {
      if Unsupported? then Some(feature) else if NonLocalRef? then Some(NonLocalRefs) else None
    }
  }

  datatype Outcome = Accepted | Rejected(at: Location, problem: Problem)
  {
    predicate StopsAt(f: Feature) {
      Rejected? && problem.UnsupportedFeature() == Some(f)
    }
  }

  // ---------------------------------------------------------------- local checks

  function EffectiveType(s: Schema): string {
    if s.typ == "" && (|s.properties| > 0 || |s.required| > 0) then "object" else s.typ
  }

  function Composition(s: Schema): Option<Feature> {
    if |s.oneOf| > 0 then Some(OneOf)
    else if |s.anyOf| > 0 then Some(AnyOf)
    else if |s.allOf| > 0 then Some(AllOf)
    else if s.negated.Some? then Some(Not)
    else None
  }

  const MIN_INT64: int := -0x8000_0000_0000_0000
  const MAX_INT64: int := 0x7FFF_FFFF_FFFF_FFFF

  /** `strconv.ParseInt(literal, 10, 64)` succeeds. */
  predicate IsInt64(literal: string) {
    IsNumeral(literal) && MIN_INT64 <= NumeralValue(literal) <= MAX_INT64
  }

  /** On JSON numbers these are the numerals of the 64-bit integers, and minus zero. */
  lemma IntegerLiterals(literal: NumberLiteral)
    ensures IsInt64(literal) <==>
            literal == "-0" || exists n :: MIN_INT64 <= n <= MAX_INT64 && literal == Itoa(n)
  {
    forall n | MIN_INT64 <= n <= MAX_INT64
      ensures IsInt64(Itoa(n))
    {
      NumeralOfItoa(n);
    }
    if literal == "-0" {
      assert Unsigned(literal) == "0" && DigitsValue("0") == 0;
    } else if IsInt64(literal) {
      var digits := Unsigned(literal);
      NumberChars(literal);
      LeadingZero(literal);
      DecimalOfValue(digits);
      assert literal == if literal[0] == '-' then "-" + digits else digits;
      assert literal == Itoa(NumeralValue(literal)) by {
        assert literal[0] == '-' && digits[0] == '0' ==> digits == "0";
      }
    }
  }

  /** A JSON number made of digits has no leading zero. */
  lemma LeadingZero(literal: NumberLiteral)
    requires IsNumeral(literal)
    ensures var digits := Unsigned(literal); digits[0] == '0' ==> |digits| == 1
  {
    var digits := Unsigned(literal);
    NumberChars(literal);
    if |digits| > 1 {
      assert digits[1..][0] == digits[1];
    }
  }

  lemma NumeralOfItoa(n: int)
    ensures IsNumeral(Itoa(n)) && NumeralValue(Itoa(n)) == n
  {
    if n < 0 {
      ValueOfDecimal(-n);
      assert Unsigned(Itoa(n)) == Decimal(-n);
    } else {
      ValueOfDecimal(n);
      assert IsDigit(Decimal(n)[0]);
    }
  }

  /** The check of the scalar types, and of a type the program does not know. */
  function ScalarProblem(doc: Document, typ: string, v: Json): Option<Problem>
    requires typ != "object" && typ != "array" && typ != ""
  {
    if typ == "string" then (if v.String? then None else Some(NotAString))
    else if typ == "integer" then (if v.Number? && IsInt64(v.literal) then None else Some(NotAnInteger))
    else if typ == "number" then (if v.Number? && doc.floatFits(v.literal) then None else Some(NotANumber))
    else if typ == "boolean" then (if v.Bool? then None else Some(NotABoolean))
    else Some(UnknownType(typ))
  }

  function FirstMissing(required: seq<string>, fields: map<string, Json>): Option<string> {
    if required == [] then None
    else if required[0] !in fields then Some(required[0])
    else FirstMissing(required[1..], fields)
  }

  /** The properties of a value that its schema does not name. */
  function Extras(s: Schema, fields: map<string, Json>): set<string> {
    fields.Keys - s.properties.Keys
  }

  function AdditionalProblem(s: Schema, fields: map<string, Json>): Option<Problem> {
    if s.additional.None? || s.additional == Some(Bool(true)) || Extras(s, fields) == {} then None
    else if s.additional == Some(Bool(false)) then Some(ExtraProperty(Least(Extras(s, fields))))
    else Some(Unsupported(AdditionalSchema))
  }

  predicate EnumAllows(s: Schema, v: Json) {
    s.enum == [] || v in s.enum
  }

  function EnumOutcome(s: Schema, v: Json, at: Location): Outcome {
    if EnumAllows(s, v) then Accepted else Rejected(at, NotInEnum)
  }

  // ---------------------------------------------------------------- the verdict

  /** Every reference that validation can meet from here on. */
  ghost function Universe(doc: Document, s: Schema): set<string> {
    WalkRefs(s) + RefStrings(doc.root)
  }

  /** The verdict on `v`, whose location in the response body is `at`, while the
      references in `open` are being resolved. It terminates on every document: each
      reference followed leaves one reference fewer that is not open. */
  ghost function Validate(doc: Document, s: Schema, v: Json, at: Location, open: set<string>): Outcome
    decreases Universe(doc, s) - open, s, 2, 0
  {
    if s.ref != "" then
      if !IsLocal(s.ref) then Rejected(at, NonLocalRef(s.ref))
      else if s.ref in open then Rejected(at, CyclicRef(s.ref))
      else
        match ResolveRef(doc.root, s.ref)
        case None => Rejected(at, UnresolvedRef(s.ref))
        case Some(target) =>
          ResolveAddsNoRef(doc.root, s.ref);
          Validate(doc, target, v, at, open + {s.ref})
    else if v.Null? && s.nullable then Accepted
    else if Composition(s).Some? then Rejected(at, Unsupported(Composition(s).value))
    else
      var typ := EffectiveType(s);
      if typ == "object" then
        if !v.Object? then Rejected(at, NotAnObject)
        else
          var inside := ValidateMembers(doc, s, v, at, open);
          if inside.Rejected? then inside else EnumOutcome(s, v, at)
      else if typ == "array" then
        if !v.Array? then Rejected(at, NotAnArray)
        else
          var inside := if s.items.Some? then ValidateItems(doc, s, v, 0, at, open) else Accepted;
          if inside.Rejected? then inside else EnumOutcome(s, v, at)
      else if typ == "" then Accepted
      else
        var problem := ScalarProblem(doc, typ, v);
        if problem.Some? then Rejected(at, problem.value) else EnumOutcome(s, v, at)
  }

  /** The checks inside an object: required names, then properties, then extra names. */
  ghost function ValidateMembers(doc: Document, s: Schema, v: Json, at: Location, open: set<string>): Outcome
    requires s.ref == "" && v.Object?
    decreases Universe(doc, s) - open, s, 1, 0
  {
    var missing := FirstMissing(s.required, v.fields);
    if missing.Some? then Rejected(at, MissingRequired(missing.value))
    else
      var inside := ValidateProperties(doc, s, v, SortedKeys(s.properties.Keys), at, open);
      if inside.Rejected? then inside
      else
        var extra := AdditionalProblem(s, v.fields);
        if extra.Some? then Rejected(at, extra.value) else Accepted
  }

  /** The first failure among the named properties, in the order of the list. */
  ghost function ValidateProperties(doc: Document, s: Schema, v: Json, names: seq<string>, at: Location,
      open: set<string>): Outcome
    requires s.ref == "" && v.Object? && forall i :: 0 <= i < |names| ==> names[i] in s.properties
    decreases Universe(doc, s) - open, s, 0, |names|
  {
    if names == [] then Accepted
    else
      var name := names[0];
      var head := if name in v.fields
        then Validate(doc, s.properties[name], v.fields[name], at + [Key(name)], open)
        else Accepted;
      if head.Rejected? then head else ValidateProperties(doc, s, v, names[1..], at, open)
  }

  /** The first failure among the elements from position `i` on. */
  ghost function ValidateItems(doc: Document, s: Schema, v: Json, i: nat, at: Location, open: set<string>): Outcome
    requires s.ref == "" && v.Array? && s.items.Some? && i <= |v.items|
    decreases Universe(doc, s) - open, s, 0, |v.items| - i
  {
    if i == |v.items| then Accepted
    else
      var head := Validate(doc, s.items.value, v.items[i], at + [Index(i)], open);
      if head.Rejected? then head else ValidateItems(doc, s, v, i + 1, at, open)
  }

  /** The verdict on one property, and on one element. */
  ghost function OfProperty(doc: Document, s: Schema, v: Json, name: string, at: Location, open: set<string>): Outcome
    requires v.Object? && name in s.properties
  {
    if name in v.fields
    then Validate(doc, s.properties[name], v.fields[name], at + [Key(name)], open)
    else Accepted
  }

  ghost function OfItem(doc: Document, s: Schema, v: Json, i: nat, at: Location, open: set<string>): Outcome
    requires v.Array? && s.items.Some? && i < |v.items|
  {
    Validate(doc, s.items.value, v.items[i], at + [Index(i)], open)
  }

  // ---------------------------------------------------------------- the program

  /** The references being resolved; the program keeps them in one shared set. */
  class ValidationState {
    var resolving: set<string>

    constructor ()
      ensures resolving == {}
    {
      resolving := {};
    }
  }

  /** `validateEnum` compares canonical text. */
  method ValidateEnum(s: Schema, v: Json, at: Location) returns (outcome: Outcome)
    ensures outcome == EnumOutcome(s, v, at)
  {
    if |s.enum| == 0 {
      return Accepted;
    }
    var text := Canonical.Print(v);
    for i := 0 to |s.enum|
      invariant v !in s.enum[..i]
    {
      var allowed := Canonical.Print(s.enum[i]);
      Canonical.PrintInjective(v, s.enum[i]);
      if text == allowed {
        return Accepted;
      }
    }
    return Rejected(at, NotInEnum);
  }

  /** `validateAdditionalProperties`. */
  method ValidateAdditionalProperties(s: Schema, fields: map<string, Json>) returns (problem: Option<Problem>)
    ensures problem == AdditionalProblem(s, fields)
  {
    if s.additional.None? {
      return None;
    }
    var extraNames := SortedNames(Extras(s, fields));
    if !s.additional.value.Bool? {
      return if |extraNames| > 0 then Some(Unsupported(AdditionalSchema)) else None;
    }
    if s.additional.value.b || |extraNames| == 0 {
      return None;
    }
    return Some(ExtraProperty(extraNames[0]));
  }

  method ValidateSchema(doc: Document, s: Schema, v: Json, at: Location, state: ValidationState)
    returns (outcome: Outcome)
    modifies state
    ensures outcome == Validate(doc, s, v, at, old(state.resolving))
    ensures state.resolving == old(state.resolving)
    decreases Universe(doc, s) - state.resolving, s, 2, 1
  {
    if s.ref != "" {
      outcome := ValidateReferencedSchema(doc, s, v, at, state);
      return;
    }
    if v.Null? && s.nullable {
      return Accepted;
    }
    var unsupported := Composition(s);
    if unsupported.Some? {
      return Rejected(at, Unsupported(unsupported.value));
    }
    var typ := s.typ;
    if typ == "" && (|s.properties| > 0 || |s.required| > 0) {
      typ := "object";
    }
    if typ == "object" {
      if !v.Object? {
        return Rejected(at, NotAnObject);
      }
      outcome := ValidateObject(doc, s, v, at, state);
      if outcome.Rejected? {
        return;
      }
    } else if typ == "array" {
      if !v.Array? {
        return Rejected(at, NotAnArray);
      }
      if s.items.Some? {
        outcome := ValidateElements(doc, s, v, at, state);
        if outcome.Rejected? {
          return;
        }
      }
    } else if typ == "" {
      return Accepted;
    } else {
      var problem := ScalarProblem(doc, typ, v);
      if problem.Some? {
        return Rejected(at, problem.value);
      }
    }
    outcome := ValidateEnum(s, v, at);
  }

  /** `validateReferencedSchema`: the reference is open while its target is checked, and
      closed again on every way out. */
  method ValidateReferencedSchema(doc: Document, s: Schema, v: Json, at: Location, state: ValidationState)
    returns (outcome: Outcome)
    requires s.ref != ""
    modifies state
    ensures outcome == Validate(doc, s, v, at, old(state.resolving))
    ensures state.resolving == old(state.resolving)
    decreases Universe(doc, s) - state.resolving, s, 2, 0
  {
    if !IsLocal(s.ref) {
      return Rejected(at, NonLocalRef(s.ref));
    }
    if s.ref in state.resolving {
      return Rejected(at, CyclicRef(s.ref));
    }
    state.resolving := state.resolving + {s.ref};
    var resolved := ResolveLocalSchemaRef(doc, s.ref);
    if resolved.None? {
      outcome := Rejected(at, UnresolvedRef(s.ref));
    } else {
      ResolveAddsNoRef(doc.root, s.ref);
      outcome := ValidateSchema(doc, resolved.value, v, at, state);
    }
    state.resolving := state.resolving - {s.ref};
  }

  /** `resolveLocalSchemaRef`. */
  method ResolveLocalSchemaRef(doc: Document, ref: string) returns (schema: Option<Schema>)
    requires IsLocal(ref)
    ensures schema == ResolveRef(doc.root, ref)
  {
    var target := Pointers.ResolveJsonPointer(doc.root, ref[1..]);
    schema := if target.Some? then Decode(target.value) else None;
  }

  /** The object case of the type switch. The order in which the map of properties is ranged
      over leaves no trace in the outcome. */
  method ValidateObject(doc: Document, s: Schema, v: Json, at: Location, state: ValidationState)
    returns (outcome: Outcome)
    requires s.ref == "" && v.Object?
    modifies state
    ensures outcome == ValidateMembers(doc, s, v, at, old(state.resolving))
    ensures state.resolving == old(state.resolving)
    decreases Universe(doc, s) - state.resolving, s, 1, 1
  {
    var missing := FindMissing(s.required, v.fields);
    if missing.Some? {
      return Rejected(at, MissingRequired(missing.value));
    }
    var names := SortedNames(s.properties.Keys);
    outcome := ValidateNamedProperties(doc, s, v, names, at, state);
    if outcome.Rejected? {
      return;
    }
    var extra := ValidateAdditionalProperties(s, v.fields);
    outcome := if extra.Some? then Rejected(at, extra.value) else Accepted;
  }

  /** The loop over the required names. */
  method FindMissing(required: seq<string>, fields: map<string, Json>) returns (missing: Option<string>)
    ensures missing == FirstMissing(required, fields)
  {
    for i := 0 to |required|
      invariant FirstMissing(required, fields) == FirstMissing(required[i..], fields)
    {
      if required[i] !in fields {
        return Some(required[i]);
      }
    }
    return None;
  }

  /** The loop over the property names. */
  method ValidateNamedProperties(doc: Document, s: Schema, v: Json, names: seq<string>, at: Location,
      state: ValidationState)
    returns (outcome: Outcome)
    requires s.ref == "" && v.Object? && forall i :: 0 <= i < |names| ==> names[i] in s.properties
    modifies state
    ensures outcome == ValidateProperties(doc, s, v, names, at, old(state.resolving))
    ensures state.resolving == old(state.resolving)
    decreases Universe(doc, s) - state.resolving, s, 1, 0
  {
    ghost var open := state.resolving;
    for i := 0 to |names|
      invariant state.resolving == open
      invariant ValidateProperties(doc, s, v, names, at, open) == ValidateProperties(doc, s, v, names[i..], at, open)
    {
      NextProperty(doc, s, v, names, i, at, open);
      outcome := ValidateOneProperty(doc, s, v, names[i], at, state);
      if outcome.Rejected? {
        return;
      }
    }
    outcome := Accepted;
  }

  method ValidateOneProperty(doc: Document, s: Schema, v: Json, name: string, at: Location, state: ValidationState)
    returns (outcome: Outcome)
    requires s.ref == "" && v.Object? && name in s.properties
    modifies state
    ensures outcome == OfProperty(doc, s, v, name, at, old(state.resolving))
    ensures state.resolving == old(state.resolving)
    decreases Universe(doc, s) - state.resolving, s, 0, 0
  {
    if name !in v.fields {
      return Accepted;
    }
    outcome := ValidateSchema(doc, s.properties[name], v.fields[name], at + [Key(name)], state);
  }

  lemma NextProperty(doc: Document, s: Schema, v: Json, names: seq<string>, i: nat, at: Location, open: set<string>)
    requires s.ref == "" && v.Object? && i < |names| && forall j :: 0 <= j < |names| ==> names[j] in s.properties
    ensures var head := OfProperty(doc, s, v, names[i], at, open);
            ValidateProperties(doc, s, v, names[i..], at, open)
            == if head.Rejected? then head else ValidateProperties(doc, s, v, names[i + 1..], at, open)
  {
    assert names[i..][0] == names[i] && names[i..][1..] == names[i + 1..];
  }

  /** The array case of the type switch, for a schema with items. */
  method ValidateElements(doc: Document, s: Schema, v: Json, at: Location, state: ValidationState)
    returns (outcome: Outcome)
    requires s.ref == "" && v.Array? && s.items.Some?
    modifies state
    ensures outcome == ValidateItems(doc, s, v, 0, at, old(state.resolving))
    ensures state.resolving == old(state.resolving)
    decreases Universe(doc, s) - state.resolving, s, 1, 0
  {
    ghost var open := state.resolving;
    for i := 0 to |v.items|
      invariant state.resolving == open
      invariant ValidateItems(doc, s, v, 0, at, open) == ValidateItems(doc, s, v, i, at, open)
    {
      outcome := ValidateSchema(doc, s.items.value, v.items[i], at + [Index(i)], state);
      if outcome.Rejected? {
        return;
      }
    }
    outcome := Accepted;
  }
}
