/** What the single keywords of a schema demand, said by its fields alone. */
module Keywords {
  import opened Wrappers
  import opened Text
  import opened Json
  import opened Schemas
  import opened Validation
  import opened Diagnostics

  /** Neither a reference nor a composition. */
  predicate IsBasic(s: Schema) {
    s.ref == "" && s.oneOf == [] && s.anyOf == [] && s.allOf == [] && s.negated.None?
  }

  predicate IsNullableNull(s: Schema, v: Json) {
    s.nullable && v.Null?
  }

  // ---------------------------------------------------------------- references and compositions

  /** Only a reference that begins with `#/` is followed, the rest being a pointer. */
  lemma ReferenceKeyword(doc: Document, s: Schema, v: Json, at: Location, open: set<string>)
    requires s.ref != ""
    ensures Validate(doc, s, v, at, open) == Rejected(at, NonLocalRef(s.ref)) <==>
            forall pointer :: s.ref != "#/" + pointer
  {
    if IsLocal(s.ref) {
      assert s.ref == "#/" + s.ref[2..];
    }
    if !IsLocal(s.ref) {
      forall pointer
        ensures s.ref != "#/" + pointer
      {
        assert "#/" <= "#/" + pointer;
      }
    }
    if FollowsRef(doc, s, open) && Validate(doc, s, v, at, open) == Rejected(at, NonLocalRef(s.ref)) {
      LocalIsNotBlamed(doc, s, v, at, open);
    }
  }

  /** A local reference is never blamed for not being local. */
  lemma LocalIsNotBlamed(doc: Document, s: Schema, v: Json, at: Location, open: set<string>)
    requires s.ref != "" && IsLocal(s.ref)
    ensures Validate(doc, s, v, at, open) != Rejected(at, NonLocalRef(s.ref))
  {
    if Validate(doc, s, v, at, open) == Rejected(at, NonLocalRef(s.ref)) {
      var chain := ReportHasWitness(doc, s, v, at, open);
    }
  }

  /** Of several composition keywords the first of this list is reported. */
  lemma CompositionKeywords(doc: Document, s: Schema, v: Json, at: Location, open: set<string>)
    requires s.ref == "" && !IsNullableNull(s, v)
    ensures s.oneOf != [] ==> Validate(doc, s, v, at, open) == Rejected(at, Unsupported(OneOf))
    ensures s.oneOf == [] && s.anyOf != [] ==> Validate(doc, s, v, at, open) == Rejected(at, Unsupported(AnyOf))
    ensures s.oneOf == [] && s.anyOf == [] && s.allOf != [] ==>
              Validate(doc, s, v, at, open) == Rejected(at, Unsupported(AllOf))
    ensures s.oneOf == [] && s.anyOf == [] && s.allOf == [] && s.negated.Some? ==>
              Validate(doc, s, v, at, open) == Rejected(at, Unsupported(Not))
  {
  }

  lemma NullableNull(doc: Document, s: Schema, v: Json, at: Location, open: set<string>)
    requires s.ref == "" && IsNullableNull(s, v)
    ensures Validate(doc, s, v, at, open).Accepted?
  {
  }

  // ---------------------------------------------------------------- types

  /** The type `object`, and without any type a `required` list or properties, demand an
      object with every required member. */
  lemma ObjectKeywords(doc: Document, s: Schema, v: Json, at: Location, open: set<string>)
    requires IsBasic(s) && !IsNullableNull(s, v)
    requires s.typ == "object" || (s.typ == "" && (s.required != [] || s.properties != map[]))
    requires Validate(doc, s, v, at, open).Accepted?
    ensures v.Object? && forall name :: name in s.required ==> name in v.fields
  {
    FirstMissingIs(s.required, v.fields);
  }

  /** A missing member is reported, the first of the list, even if the schema has nothing but
      its `required` list. */
  lemma MissingMember(doc: Document, s: Schema, v: Json, at: Location, open: set<string>, i: nat)
    requires IsBasic(s) && s.typ in ["", "object"] && v.Object?
    requires IsFirstMissing(s.required, v.fields, i)
    ensures Validate(doc, s, v, at, open) == Rejected(at, MissingRequired(s.required[i]))
  {
    FirstMissingIs(s.required, v.fields);
    var name := FirstMissing(s.required, v.fields).value;
    var j :| IsFirstMissing(s.required, v.fields, j) && name == s.required[j];
    assert i == j;
  }

  /** Without a type, a `required` list and properties, anything is accepted, whatever the
      other keywords say. */
  lemma NoType(doc: Document, s: Schema, v: Json, at: Location, open: set<string>)
    requires IsBasic(s) && s.typ == "" && s.required == [] && s.properties == map[]
    ensures Validate(doc, s, v, at, open).Accepted?
  {
  }

  predicate IsEnumerated(s: Schema, v: Json) {
    s.enum == [] || exists i :: 0 <= i < |s.enum| && s.enum[i] == v
  }

  /** The value is of the scalar type that the text names. */
  ghost predicate IsOfScalarType(doc: Document, typ: string, v: Json) {
    match v
    case String(_) => typ == "string"
    case Bool(_) => typ == "boolean"
    case Number(literal) =>
      || (typ == "number" && doc.floatFits(literal))
      || (typ == "integer" &&
          (literal == "-0" || exists n ::
                                -9_223_372_036_854_775_808 <= n <= 9_223_372_036_854_775_807 && literal == Itoa(n)))
    case _ => false
  }

  /** Every other type but `array` is a scalar type, or one that no value has. */
  lemma ScalarTypes(doc: Document, s: Schema, v: Json, at: Location, open: set<string>)
    requires IsBasic(s) && !IsNullableNull(s, v)
    requires s.typ != "" && s.typ != "object" && s.typ != "array"
    ensures Validate(doc, s, v, at, open).Accepted? <==> IsOfScalarType(doc, s.typ, v) && IsEnumerated(s, v)
  {
    if v.Number? {
      IntegerLiterals(v.literal);
    }
  }

  /** The type `array` demands an array; its elements are free if there is no schema for
      them. */
  lemma ArrayType(doc: Document, s: Schema, v: Json, at: Location, open: set<string>)
    requires IsBasic(s) && !IsNullableNull(s, v) && s.typ == "array"
    ensures Validate(doc, s, v, at, open).Accepted? <==>
            && v.Array? && IsEnumerated(s, v)
            && (s.items.Some? ==> forall i :: 0 <= i < |v.items| ==>
                  Validate(doc, s.items.value, v.items[i], at + [Index(i)], open).Accepted?)
  {
    if v.Array? && s.items.Some? {
      ItemsAccepted(doc, s, v, 0, at, open);
      forall i | 0 <= i < |v.items|
        ensures OfItem(doc, s, v, i, at, open) == Validate(doc, s.items.value, v.items[i], at + [Index(i)], open)
      {
      }
    }
  }

  /** An object schema accepts an object whose required members are there, whose members with
      a schema are accepted, and whose other members are permitted. */
  lemma ObjectType(doc: Document, s: Schema, v: Json, at: Location, open: set<string>)
    requires IsBasic(s) && !IsNullableNull(s, v)
    requires s.typ == "object" || (s.typ == "" && (s.required != [] || s.properties != map[]))
    ensures Validate(doc, s, v, at, open).Accepted? <==>
            && v.Object? && IsEnumerated(s, v)
            && (forall name :: name in s.required ==> name in v.fields)
            && (forall name :: name in s.properties && name in v.fields ==>
                  Validate(doc, s.properties[name], v.fields[name], at + [Key(name)], open).Accepted?)
            && (v.fields.Keys <= s.properties.Keys || s.additional in [None, Some(Bool(true))])
  {
    if v.Object? {
      ObjectReport(doc, s, v, at, open);
      forall name | name in s.properties && name in v.fields
        ensures RejectedProperty(doc, s, v, name, at, open) <==>
                Validate(doc, s.properties[name], v.fields[name], at + [Key(name)], open).Rejected?
      {
      }
      RequiredIsIndexed(s.required, v.fields);
    }
  }

  lemma {:induction false} RequiredIsIndexed(required: seq<string>, fields: map<string, Json>)
    ensures (exists i :: IsFirstMissing(required, fields, i)) <==> exists name :: name in required && name !in fields
  {
    FirstMissingIs(required, fields);
    if i :| IsFirstMissing(required, fields, i) {
      assert required[i] in required;
    }
  }
}
