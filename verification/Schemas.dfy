/** Schemas as the program decodes them, and the references they contain. */
module Schemas {
  import opened Wrappers
  import opened Json
  import Pointers

  /** The decoded form of one schema object. A missing or null key leaves the default. */
  datatype Schema = Schema(
    ref: string,
    typ: string,
    required: seq<string>,
    properties: map<string, Schema>,
    items: Option<Schema>,
    enum: seq<Json>,
    nullable: bool,
    additional: Option<Json>,
    oneOf: seq<Schema>,
    anyOf: seq<Schema>,
    allOf: seq<Schema>,
    negated: Option<Schema>)

  const EMPTY_SCHEMA := Schema("", "", [], map[], None, [], false, None, [], [], [], None)

  // ---------------------------------------------------------------- decoding

  function DecodeString(v: Json): Option<string> {
    match v
    case Null => Some("")
    case String(s) => Some(s)
    case _ => None
  }

  function DecodeBool(v: Json): Option<bool> {
    match v
    case Null => Some(false)
    case Bool(b) => Some(b)
    case _ => None
  }

  function DecodeStrings(v: Json): Option<seq<string>> {
    match v
    case Null => Some([])
    case Array(items) =>
      if forall i :: 0 <= i < |items| ==> DecodeString(items[i]).Some?
      then Some(seq(|items|, i requires 0 <= i < |items| => DecodeString(items[i]).value))
      else None
    case _ => None
  }

  function DecodeValues(v: Json): Option<seq<Json>> {
    match v
    case Null => Some([])
    case Array(items) => Some(items)
    case _ => None
  }

  function Field(fields: map<string, Json>, name: string): Json {
    if name in fields then fields[name] else Null
  }

  /** Decoding into the schema record with exact key names; None is a decoding error.
      The whole record is decoded, whether or not validation will look at a part. */
  function Decode(v: Json): Option<Schema>
    decreases v, 1
  {
    match v
    case Null => Some(EMPTY_SCHEMA)
    case Object(fields) =>
      var basics :- DecodeBasics(fields);
      var parts :- DecodeParts(v, basics);
      DecodeCompositions(v, parts)
    case _ => None
  }

  /** The members without schemas in them. */
  function DecodeBasics(fields: map<string, Json>): Option<Schema> {
    var ref :- DecodeString(Field(fields, "$ref"));
    var typ :- DecodeString(Field(fields, "type"));
    var required :- DecodeStrings(Field(fields, "required"));
    var enum :- DecodeValues(Field(fields, "enum"));
    var nullable :- DecodeBool(Field(fields, "nullable"));
    var additional := if "additionalProperties" in fields then Some(fields["additionalProperties"]) else None;
    Some(EMPTY_SCHEMA.(
      ref := ref, typ := typ, required := required, enum := enum, nullable := nullable, additional := additional))
  }

  /** The schemas of properties and elements, and the negated one, added to a schema. */
  function DecodeParts(v: Json, s: Schema): Option<Schema>
    requires v.Object?
    decreases v, 0
  {
    var fields := v.fields;
    var properties :- if "properties" in fields then DecodeMap(fields["properties"]) else Some(map[]);
    var items :- if "items" in fields then DecodePointer(fields["items"]) else Some(None);
    var negated :- if "not" in fields then DecodePointer(fields["not"]) else Some(None);
    Some(s.(properties := properties, items := items, negated := negated))
  }

  function DecodeCompositions(v: Json, s: Schema): Option<Schema>
    requires v.Object?
    decreases v, 0
  {
    var fields := v.fields;
    var oneOf :- if "oneOf" in fields then DecodeList(fields["oneOf"]) else Some([]);
    var anyOf :- if "anyOf" in fields then DecodeList(fields["anyOf"]) else Some([]);
    var allOf :- if "allOf" in fields then DecodeList(fields["allOf"]) else Some([]);
    Some(s.(oneOf := oneOf, anyOf := anyOf, allOf := allOf))
  }

  /** A pointer field: null leaves it nil. */
  function DecodePointer(v: Json): Option<Option<Schema>>
    decreases v, 2
  {
    if v.Null? then Some(None)
    else
      var s :- Decode(v);
      Some(Some(s))
  }

  function DecodeMap(v: Json): Option<map<string, Schema>>
    decreases v, 0
  {
    match v
    case Null => Some(map[])
    case Object(fields) =>
      if forall k :: k in fields ==> Decode(fields[k]).Some?
      then Some(map k | k in fields :: Decode(fields[k]).value)
      else None
    case _ => None
  }

  function DecodeList(v: Json): Option<seq<Schema>>
    decreases v, 0
  {
    match v
    case Null => Some([])
    case Array(items) =>
      if forall i :: 0 <= i < |items| ==> Decode(items[i]).Some?
      then Some(seq(|items|, i requires 0 <= i < |items| => Decode(items[i]).value))
      else None
    case _ => None
  }

  /** `resolveLocalSchemaRef`: the schema a local reference points to in the document. */
  function ResolveRef(root: Json, ref: string): Option<Schema>
    requires IsLocal(ref)
  {
    var target :- Pointers.Resolve(root, ref[1..]);
    Decode(target)
  }

  predicate IsLocal(ref: string) {
    "#/" <= ref
  }

  // ---------------------------------------------------------------- references

  /** The references that validation against a schema can meet before it follows one:
      a reference hides its siblings. */
  ghost function WalkRefs(s: Schema): set<string> {
    if s.ref != "" then {s.ref}
    else
      (set k, r | k in s.properties && r in WalkRefs(s.properties[k]) :: r)
      + (if s.items.Some? then WalkRefs(s.items.value) else {})
  }

  /** Every string that stands under the key `$ref` somewhere in a document. */
  ghost function RefStrings(v: Json): set<string> {
    match v
    case Array(items) => set i, r | 0 <= i < |items| && r in RefStrings(items[i]) :: r
    case Object(fields) =>
      (if "$ref" in fields && fields["$ref"].String? then {fields["$ref"].s} else {})
      + (set k, r | k in fields && r in RefStrings(fields[k]) :: r)
    case _ => {}
  }

  lemma {:induction false} RefStringsOfPart(v: Json, loc: Location)
    requires At(v, loc).Some?
    ensures RefStrings(At(v, loc).value) <= RefStrings(v)
  {
    if loc != [] {
      RefStringsOfPart(Child(v, loc[0]).value, loc[1..]);
    }
  }

  /** Decoding makes up no reference. */
  lemma {:induction false} DecodeAddsNoRef(v: Json)
    requires Decode(v).Some?
    ensures WalkRefs(Decode(v).value) <= RefStrings(v)
    decreases v
  {
    var s := Decode(v).value;
    if v.Object? {
      var fields := v.fields;
      if s.ref == "" {
        if "properties" in fields {
          var p := fields["properties"];
          assert s.properties == DecodeMap(p).value;
          forall k | k in s.properties
            ensures WalkRefs(s.properties[k]) <= RefStrings(v)
          {
            DecodeAddsNoRef(p.fields[k]);
            assert RefStrings(p.fields[k]) <= RefStrings(p) <= RefStrings(v);
          }
        }
        if s.items.Some? {
          assert "items" in fields && DecodePointer(fields["items"]) == Some(s.items);
          DecodeAddsNoRef(fields["items"]);
        }
      }
    }
  }

  lemma ResolveAddsNoRef(root: Json, ref: string)
    requires IsLocal(ref) && ResolveRef(root, ref).Some?
    ensures WalkRefs(ResolveRef(root, ref).value) <= RefStrings(root)
  {
    var loc := Pointers.ResolveIsLocation(root, ref[1..]);
    RefStringsOfPart(root, loc);
    DecodeAddsNoRef(At(root, loc).value);
  }
}
