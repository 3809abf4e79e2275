/** Contracts written as JSON, with the key names of the program's record types, and what
    decoding gives back; which documents load, and why others do not. */
module Writing {
  import opened Wrappers
  import opened Text
  import opened Json
  import opened Schemas
  import opened Validation
  import opened Routes
  import opened Contracts

  // ---------------------------------------------------------------- schemas

  const KEYS: set<string> := {
    "$ref", "type", "required", "properties", "items", "enum", "nullable", "additionalProperties", "oneOf", "anyOf",
    "allOf", "not"
  }

  /** What is written under a key; nothing for a default. */
  function Entry(s: Schema, key: string): Option<Json>
    decreases s, 1
  {
    if key == "$ref" then if s.ref == "" then None else Some(String(s.ref))
    else if key == "type" then if s.typ == "" then None else Some(String(s.typ))
    else if key == "required" then if s.required == [] then None else Some(Array(Strings(s.required)))
    else if key == "properties" then if s.properties == map[] then None else Some(Object(WriteProperties(s)))
    else if key == "items" then if s.items.None? then None else Some(Write(s.items.value))
    else if key == "enum" then if s.enum == [] then None else Some(Array(s.enum))
    else if key == "nullable" then if s.nullable then Some(Bool(true)) else None
    else if key == "additionalProperties" then s.additional
    else if key == "oneOf" then if s.oneOf == [] then None else Some(Array(WriteList(s.oneOf)))
    else if key == "anyOf" then if s.anyOf == [] then None else Some(Array(WriteList(s.anyOf)))
    else if key == "allOf" then if s.allOf == [] then None else Some(Array(WriteList(s.allOf)))
    else if key == "not" then if s.negated.None? then None else Some(Write(s.negated.value))
    else None
  }

  function Strings(names: seq<string>): (items: seq<Json>)
    ensures |items| == |names|
  {
    seq(|names|, i requires 0 <= i < |names| => String(names[i]))
  }

  function Write(s: Schema): (v: Json)
    ensures v.Object?
    decreases s, 2
  {
    Object(map key | key in KEYS && Entry(s, key).Some? :: Entry(s, key).value)
  }

  function WriteProperties(s: Schema): map<string, Json>
    decreases s, 0
  {
    map k | k in s.properties :: Write(s.properties[k])
  }

  function WriteList(schemas: seq<Schema>): (items: seq<Json>)
    ensures |items| == |schemas|
    decreases schemas
  {
    seq(|schemas|, i requires 0 <= i < |schemas| => Write(schemas[i]))
  }

  /** The member under a key, null standing for none. */
  lemma WrittenField(s: Schema, key: string)
    requires key in KEYS
    ensures var fields := Write(s).fields;
            && (key in fields <==> Entry(s, key).Some?)
            && Field(fields, key) == if Entry(s, key).Some? then Entry(s, key).value else Null
  {
  }

  lemma SimpleEntries(s: Schema)
    ensures Entry(s, "$ref") == (if s.ref == "" then None else Some(String(s.ref)))
    ensures Entry(s, "type") == (if s.typ == "" then None else Some(String(s.typ)))
    ensures Entry(s, "required") == (if s.required == [] then None else Some(Array(Strings(s.required))))
    ensures Entry(s, "enum") == (if s.enum == [] then None else Some(Array(s.enum)))
    ensures Entry(s, "nullable") == (if s.nullable then Some(Bool(true)) else None)
    ensures Entry(s, "additionalProperties") == s.additional
  {
  }

  lemma PartEntries(s: Schema)
    ensures Entry(s, "properties") ==
            (if s.properties == map[] then None else Some(Object(WriteProperties(s))))
    ensures Entry(s, "items") == (if s.items.None? then None else Some(Write(s.items.value)))
    ensures Entry(s, "not") == (if s.negated.None? then None else Some(Write(s.negated.value)))
  {
  }

  lemma ListEntries(s: Schema)
    ensures Entry(s, "oneOf") == (if s.oneOf == [] then None else Some(Array(WriteList(s.oneOf))))
    ensures Entry(s, "anyOf") == (if s.anyOf == [] then None else Some(Array(WriteList(s.anyOf))))
    ensures Entry(s, "allOf") == (if s.allOf == [] then None else Some(Array(WriteList(s.allOf))))
  {
    assert "oneOf"[0] != "anyOf"[0] && "oneOf"[0] != "allOf"[0] && "anyOf"[1] != "allOf"[1];
    assert "items"[0] == 'i';
  }

  lemma StringsDecode(names: seq<string>)
    ensures DecodeStrings(Array(Strings(names))) == Some(names)
  {
    var items := Strings(names);
    assert forall i :: 0 <= i < |items| ==> DecodeString(items[i]) == Some(names[i]);
    assert DecodeStrings(Array(items)).value == names;
  }

  lemma ListDecodes(schemas: seq<Schema>, items: seq<Json>)
    requires |items| == |schemas|
    requires forall i {:trigger items[i]} :: 0 <= i < |items| ==> Decode(items[i]) == Some(schemas[i])
    ensures DecodeList(Array(items)) == Some(schemas)
  {
    var decoded := DecodeList(Array(items));
    assert decoded.Some? && |decoded.value| == |schemas|;
    assert forall i {:trigger decoded.value[i]} :: 0 <= i < |schemas| ==>
             decoded.value[i] == schemas[i];
    assert decoded.value == schemas;
  }

  lemma WrittenListDecodes(schemas: seq<Schema>)
    requires ListsReadBack(schemas)
    ensures DecodeList(Array(WriteList(schemas))) == Some(schemas)
  {
    var items := WriteList(schemas);
    forall i {:trigger items[i]} | 0 <= i < |items|
      ensures Decode(items[i]) == Some(schemas[i])
    {
      assert items[i] == Write(schemas[i]);
    }
    ListDecodes(schemas, items);
  }

  lemma MapDecodes(schemas: map<string, Schema>, fields: map<string, Json>)
    requires fields.Keys == schemas.Keys
    requires forall k :: k in fields ==> Decode(fields[k]) == Some(schemas[k])
    ensures DecodeMap(Object(fields)) == Some(schemas)
  {
    var decoded := DecodeMap(Object(fields));
    assert decoded.Some? && decoded.value.Keys == schemas.Keys;
    assert decoded.value == schemas;
  }

  lemma PropertiesDecode(s: Schema)
    requires forall k :: k in s.properties ==> Decode(Write(s.properties[k])) == Some(s.properties[k])
    ensures DecodeMap(Object(WriteProperties(s))) == Some(s.properties)
  {
    var fields := WriteProperties(s);
    forall k | k in fields
      ensures Decode(fields[k]) == Some(s.properties[k])
    {
      assert fields[k] == Write(s.properties[k]);
    }
    MapDecodes(s.properties, fields);
  }

  /** The members of an object that decode to those of a schema, one by one. */
  ghost predicate BasicsDecodeTo(fields: map<string, Json>, s: Schema) {
    && DecodeString(Field(fields, "$ref")) == Some(s.ref)
    && DecodeString(Field(fields, "type")) == Some(s.typ)
    && DecodeStrings(Field(fields, "required")) == Some(s.required)
    && DecodeValues(Field(fields, "enum")) == Some(s.enum)
    && DecodeBool(Field(fields, "nullable")) == Some(s.nullable)
    && s.additional == (if "additionalProperties" in fields then Some(fields["additionalProperties"]) else None)
  }

  ghost predicate PartsDecodeTo(fields: map<string, Json>, s: Schema) {
    && DecodeMap(Field(fields, "properties")) == Some(s.properties)
    && DecodePointer(Field(fields, "items")) == Some(s.items)
    && DecodePointer(Field(fields, "not")) == Some(s.negated)
  }

  ghost predicate ListsDecodeTo(fields: map<string, Json>, s: Schema) {
    && DecodeList(Field(fields, "oneOf")) == Some(s.oneOf)
    && DecodeList(Field(fields, "anyOf")) == Some(s.anyOf)
    && DecodeList(Field(fields, "allOf")) == Some(s.allOf)
  }

  lemma PartsAreAdded(fields: map<string, Json>, basics: Schema, s: Schema)
    requires PartsDecodeTo(fields, s)
    ensures DecodeParts(Object(fields), basics) ==
            Some(basics.(properties := s.properties, items := s.items, negated := s.negated))
  {
  }

  lemma ListsAreAdded(fields: map<string, Json>, parts: Schema, s: Schema)
    requires ListsDecodeTo(fields, s)
    ensures DecodeCompositions(Object(fields), parts) ==
            Some(parts.(oneOf := s.oneOf, anyOf := s.anyOf, allOf := s.allOf))
  {
  }

  lemma MembersDecode(fields: map<string, Json>, s: Schema)
    requires BasicsDecodeTo(fields, s) && PartsDecodeTo(fields, s) && ListsDecodeTo(fields, s)
    ensures Decode(Object(fields)) == Some(s)
  {
    var basics := DecodeBasics(fields).value;
    PartsAreAdded(fields, basics, s);
    ListsAreAdded(fields, DecodeParts(Object(fields), basics).value, s);
  }

  lemma SimpleMembers(s: Schema)
    ensures BasicsDecodeTo(Write(s).fields, s)
  {
    SimpleEntries(s);
    StringsDecode(s.required);
    WrittenField(s, "$ref");
    WrittenField(s, "type");
    WrittenField(s, "required");
    WrittenField(s, "enum");
    WrittenField(s, "nullable");
    WrittenField(s, "additionalProperties");
  }

  lemma PointerDecodes(s: Schema)
    requires Decode(Write(s)) == Some(s)
    ensures DecodePointer(Write(s)) == Some(Some(s))
  {
  }

  lemma PartMembers(s: Schema)
    requires forall k :: k in s.properties ==> Decode(Write(s.properties[k])) == Some(s.properties[k])
    requires s.items.Some? ==> Decode(Write(s.items.value)) == Some(s.items.value)
    requires s.negated.Some? ==> Decode(Write(s.negated.value)) == Some(s.negated.value)
    ensures PartsDecodeTo(Write(s).fields, s)
  {
    PartEntries(s);
    PropertiesDecode(s);
    WrittenField(s, "properties");
    WrittenField(s, "items");
    WrittenField(s, "not");
    if s.items.Some? {
      PointerDecodes(s.items.value);
    }
    if s.negated.Some? {
      PointerDecodes(s.negated.value);
    }
  }

  ghost predicate ListsReadBack(schemas: seq<Schema>) {
    forall i :: 0 <= i < |schemas| ==> Decode(Write(schemas[i])) == Some(schemas[i])
  }

  lemma ListMembers(s: Schema)
    requires ListsReadBack(s.oneOf) && ListsReadBack(s.anyOf) && ListsReadBack(s.allOf)
    ensures ListsDecodeTo(Write(s).fields, s)
  {
    ListEntries(s);
    WrittenListDecodes(s.oneOf);
    WrittenListDecodes(s.anyOf);
    WrittenListDecodes(s.allOf);
    WrittenField(s, "oneOf");
    WrittenField(s, "anyOf");
    WrittenField(s, "allOf");
  }

  /** Every schema is read back from its JSON. */
  lemma {:induction false} SchemaRoundTrip(s: Schema)
    ensures Decode(Write(s)) == Some(s)
    decreases s, 1
  {
    forall k | k in s.properties
      ensures Decode(Write(s.properties[k])) == Some(s.properties[k])
    {
      SchemaRoundTrip(s.properties[k]);
    }
    if s.items.Some? {
      SchemaRoundTrip(s.items.value);
    }
    if s.negated.Some? {
      SchemaRoundTrip(s.negated.value);
    }
    ListRoundTrip(s.oneOf);
    ListRoundTrip(s.anyOf);
    ListRoundTrip(s.allOf);
    SimpleMembers(s);
    PartMembers(s);
    ListMembers(s);
    MembersDecode(Write(s).fields, s);
  }

  lemma {:induction false} ListRoundTrip(schemas: seq<Schema>)
    ensures ListsReadBack(schemas)
    decreases schemas, 0
  {
    forall i | 0 <= i < |schemas|
      ensures Decode(Write(schemas[i])) == Some(schemas[i])
    {
      SchemaRoundTrip(schemas[i]);
    }
  }

  // ---------------------------------------------------------------- what does not decode

  /** What may stand under a key, besides null. */
  ghost predicate HasKind(key: string, v: Json) {
    && (key == "$ref" || key == "type" ==> v.String?)
    && (key == "required" ==> v.Array? && forall item :: item in v.items ==> item.String? || item.Null?)
    && (key == "properties" ==> v.Object? && forall k :: k in v.fields ==> Decode(v.fields[k]).Some?)
    && (key == "items" || key == "not" ==> Decode(v).Some?)
    && (key == "enum" ==> v.Array?)
    && (key == "nullable" ==> v.Bool?)
    && (key == "oneOf" || key == "anyOf" || key == "allOf" ==>
          v.Array? && forall item :: item in v.items ==> Decode(item).Some?)
  }

  ghost predicate IsAbsentOrKind(fields: map<string, Json>, key: string) {
    Field(fields, key).Null? || HasKind(key, Field(fields, key))
  }

  lemma BasicKinds(fields: map<string, Json>)
    ensures DecodeBasics(fields).Some? <==>
            && IsAbsentOrKind(fields, "$ref") && IsAbsentOrKind(fields, "type") && IsAbsentOrKind(fields, "required")
            && IsAbsentOrKind(fields, "enum") && IsAbsentOrKind(fields, "nullable")
  {
  }

  lemma PartKinds(fields: map<string, Json>, s: Schema)
    ensures DecodeParts(Object(fields), s).Some? <==>
            IsAbsentOrKind(fields, "properties") && IsAbsentOrKind(fields, "items") && IsAbsentOrKind(fields, "not")
  {
  }

  lemma ListKind(v: Json)
    ensures DecodeList(v).Some? <==> v.Null? || (v.Array? && forall item :: item in v.items ==> Decode(item).Some?)
  {
    if v.Array? {
      if forall item :: item in v.items ==> Decode(item).Some? {
        forall i | 0 <= i < |v.items|
          ensures Decode(v.items[i]).Some?
        {
          assert v.items[i] in v.items;
        }
        assert DecodeList(v).Some?;
      } else {
        var item :| item in v.items && Decode(item).None?;
        var i :| 0 <= i < |v.items| && v.items[i] == item;
        assert Decode(v.items[i]).None?;
      }
    }
  }

  lemma ListKinds(fields: map<string, Json>, s: Schema)
    ensures DecodeCompositions(Object(fields), s).Some? <==>
            IsAbsentOrKind(fields, "oneOf") && IsAbsentOrKind(fields, "anyOf") && IsAbsentOrKind(fields, "allOf")
  {
    ListKind(Field(fields, "oneOf"));
    ListKind(Field(fields, "anyOf"));
    ListKind(Field(fields, "allOf"));
  }

  lemma AdditionalHasNoKind(v: Json)
    ensures HasKind("additionalProperties", v)
  {
  }

  /** An object decodes exactly if each member under a key that the program knows is null or
      of the right kind; under other keys, and under `additionalProperties`, anything goes. */
  lemma WhenSchemasDecode(fields: map<string, Json>)
    ensures Decode(Object(fields)).Some? <==> forall key :: key in KEYS ==> IsAbsentOrKind(fields, key)
  {
    BasicKinds(fields);
    AdditionalHasNoKind(Field(fields, "additionalProperties"));
    if DecodeBasics(fields).Some? {
      var basics := DecodeBasics(fields).value;
      PartKinds(fields, basics);
      if DecodeParts(Object(fields), basics).Some? {
        ListKinds(fields, DecodeParts(Object(fields), basics).value);
      }
    }
    KeysAreListed(fields);
  }

  lemma KeysAreListed(fields: map<string, Json>)
    ensures (forall key :: key in KEYS ==> IsAbsentOrKind(fields, key)) <==>
            && IsAbsentOrKind(fields, "$ref") && IsAbsentOrKind(fields, "type") && IsAbsentOrKind(fields, "required")
            && IsAbsentOrKind(fields, "enum") && IsAbsentOrKind(fields, "nullable")
            && IsAbsentOrKind(fields, "properties") && IsAbsentOrKind(fields, "items") && IsAbsentOrKind(fields, "not")
            && IsAbsentOrKind(fields, "oneOf") && IsAbsentOrKind(fields, "anyOf") && IsAbsentOrKind(fields, "allOf")
            && IsAbsentOrKind(fields, "additionalProperties")
  {
  }

  // ---------------------------------------------------------------- contracts

  function WriteTable<T>(table: map<string, T>, write: T -> Json): Json {
    Object(map k | k in table :: write(table[k]))
  }

  function WriteMedia(s: Schema): Json {
    Object(map["schema" := Write(s)])
  }

  function WriteResponse(response: Response): Json {
    Object(map["content" := WriteTable(response.content, WriteMedia)])
  }

  function WriteOperation(operation: Operation): Json {
    Object(if operation.responses.None? then map[]
           else map["responses" := WriteTable(operation.responses.value, WriteResponse)])
  }

  function WritePathItem(operations: map<string, Operation>): Json {
    WriteTable(operations, WriteOperation)
  }

  function WriteContract(version: string, paths: Paths, schemas: map<string, Schema>): Json {
    Object(map[
      "openapi" := String(version),
      "paths" := WriteTable(paths, WritePathItem),
      "components" := Object(map["schemas" := WriteTable(schemas, Write)])])
  }

  lemma TableRoundTrip<T>(table: map<string, T>, write: T -> Json, decode: Json -> Option<T>)
    requires forall k :: k in table ==> decode(write(table[k])) == Some(table[k])
    ensures DecodeTable(WriteTable(table, write), decode) == Some(table)
  {
    var fields := WriteTable(table, write).fields;
    assert forall k :: k in fields ==> decode(fields[k]) == Some(table[k]);
    assert (map k | k in fields :: decode(fields[k]).value) == table;
  }

  lemma ResponseRoundTrip(response: Response)
    ensures DecodeResponse(WriteResponse(response)) == Some(response)
  {
    forall media | media in response.content
      ensures DecodeMedia(WriteMedia(response.content[media])) == Some(response.content[media])
    {
      SchemaRoundTrip(response.content[media]);
    }
    TableRoundTrip(response.content, WriteMedia, DecodeMedia);
  }

  lemma OperationRoundTrip(operation: Operation)
    ensures DecodeOperation(WriteOperation(operation)) == Some(operation)
  {
    if operation.responses.Some? {
      var responses := operation.responses.value;
      forall status | status in responses
        ensures DecodeResponse(WriteResponse(responses[status])) == Some(responses[status])
      {
        ResponseRoundTrip(responses[status]);
      }
      TableRoundTrip(responses, WriteResponse, DecodeResponse);
    }
  }

  lemma PathsRoundTrip(paths: Paths)
    ensures DecodePaths(WriteTable(paths, WritePathItem)) == Some(paths)
  {
    forall path | path in paths
      ensures DecodePathItem(WritePathItem(paths[path])) == Some(paths[path])
    {
      forall verb | verb in paths[path]
        ensures DecodeOperation(WriteOperation(paths[path][verb])) == Some(paths[path][verb])
      {
        OperationRoundTrip(paths[path][verb]);
      }
      TableRoundTrip(paths[path], WriteOperation, DecodeOperation);
    }
    TableRoundTrip(paths, WritePathItem, DecodePathItem);
  }

  lemma ComponentsRoundTrip(schemas: map<string, Schema>)
    ensures DecodeComponents(Object(map["schemas" := WriteTable(schemas, Write)])).Some?
  {
    forall k | k in schemas
      ensures Decode(Write(schemas[k])) == Some(schemas[k])
    {
      SchemaRoundTrip(schemas[k]);
    }
    TableRoundTrip(schemas, Write, Decode);
  }

  ghost predicate IsVersion30(version: string) {
    exists rest :: version == "3.0." + rest
  }

  lemma VersionPrefix(version: string)
    ensures "3.0." <= version <==> IsVersion30(version)
  {
    if "3.0." <= version {
      assert version == "3.0." + version[4..];
    }
  }

  lemma ContractFields(version: string, paths: Paths, schemas: map<string, Schema>)
    ensures var fields := WriteContract(version, paths, schemas).fields;
            && Field(fields, "openapi") == String(version)
            && Field(fields, "paths") == WriteTable(paths, WritePathItem)
            && Field(fields, "components") == Object(map["schemas" := WriteTable(schemas, Write)])
  {
  }

  /** A written contract is loaded with its paths; only the wrong version and the lack of any
      path keep it from loading. */
  lemma ContractRoundTrip(version: string, paths: Paths, schemas: map<string, Schema>,
      floatFits: NumberLiteral -> bool)
    ensures var root := WriteContract(version, paths, schemas);
            Load(Parsed(root), floatFits) ==
            if !IsVersion30(version) then Failure(UnsupportedVersion(version))
            else if paths == map[] then Failure(MissingPaths)
            else Success(Contract(Document(root, floatFits), version, paths))
  {
    PathsRoundTrip(paths);
    ComponentsRoundTrip(schemas);
    ContractFields(version, paths, schemas);
    VersionPrefix(version);
    LoadByMembers(WriteContract(version, paths, schemas).fields, floatFits);
  }

  /** What the members of a document make of its load. */
  lemma LoadByMembers(fields: map<string, Json>, floatFits: NumberLiteral -> bool)
    ensures var version, paths := DecodeString(Field(fields, "openapi")), DecodePaths(Field(fields, "paths"));
            Load(Parsed(Object(fields)), floatFits) ==
            if version.None? || paths.None? || DecodeComponents(Field(fields, "components")).None?
            then Failure(InvalidJson)
            else if !("3.0." <= version.value) then Failure(UnsupportedVersion(version.value))
            else if paths.value == map[] then Failure(MissingPaths)
            else Success(Contract(Document(Object(fields), floatFits), version.value, paths.value))
  {
  }

  // ---------------------------------------------------------------- which documents load

  ghost predicate IsTable(v: Json, ok: Json -> bool) {
    v.Null? || (v.Object? && forall k :: k in v.fields ==> ok(v.fields[k]))
  }

  predicate IsSchema(v: Json) {
    Decode(v).Some?
  }

  predicate IsMedia(v: Json) {
    v.Null? || (v.Object? && IsSchema(Field(v.fields, "schema")))
  }

  predicate IsResponse(v: Json) {
    v.Null? || (v.Object? && var content := Field(v.fields, "content");
      content.Null? || (content.Object? && forall k :: k in content.fields ==> IsMedia(content.fields[k])))
  }

  predicate IsOperation(v: Json) {
    v.Null? || (v.Object? && var responses := Field(v.fields, "responses");
      responses.Null? || (responses.Object? && forall k :: k in responses.fields ==> IsResponse(responses.fields[k])))
  }

  predicate IsPathItem(v: Json) {
    v.Null? || (v.Object? && forall k :: k in v.fields ==> IsOperation(v.fields[k]))
  }

  ghost predicate IsComponents(v: Json) {
    v.Null? || (v.Object? && IsTable(Field(v.fields, "schemas"), IsSchema))
  }

  lemma TableDecodes<T>(v: Json, ok: Json -> bool, decode: Json -> Option<T>)
    requires forall item :: ok(item) <==> decode(item).Some?
    ensures IsTable(v, ok) <==> DecodeTable(v, decode).Some?
  {
  }

  lemma PathItemsDecode()
    ensures forall v :: IsPathItem(v) <==> DecodePathItem(v).Some?
  {
    forall v
      ensures IsResponse(v) <==> DecodeResponse(v).Some?
    {
      if v.Object? {
        TableDecodes(Field(v.fields, "content"), IsMedia, DecodeMedia);
      }
    }
    forall v
      ensures IsOperation(v) <==> DecodeOperation(v).Some?
    {
      if v.Object? {
        TableDecodes(Field(v.fields, "responses"), IsResponse, DecodeResponse);
      }
    }
    forall v
      ensures IsPathItem(v) <==> DecodePathItem(v).Some?
    {
      TableDecodes(v, IsOperation, DecodeOperation);
    }
  }

  /** The document itself says whether it loads: an `openapi` text that begins with `3.0.`,
      at least one path, and members of the right kinds down to the schemas. */
  ghost predicate IsLoadable(root: Json) {
    && root.Object?
    && (exists rest :: Field(root.fields, "openapi") == String("3.0." + rest))
    && Field(root.fields, "paths").Object? && Field(root.fields, "paths").fields != map[]
    && IsTable(Field(root.fields, "paths"), IsPathItem)
    && IsComponents(Field(root.fields, "components"))
  }

  lemma WhenDocumentsLoad(root: Json, floatFits: NumberLiteral -> bool)
    ensures Load(Parsed(root), floatFits).Success? <==> IsLoadable(root)
  {
    if root.Object? {
      var fields := root.fields;
      var version := Field(fields, "openapi");
      LoadByMembers(fields, floatFits);
      PathItemsDecode();
      TableDecodes(Field(fields, "paths"), IsPathItem, DecodePathItem);
      ComponentsDecode(Field(fields, "components"));
      if version.String? {
        VersionPrefix(version.s);
      }
      TableIsEmpty(Field(fields, "paths"), DecodePathItem);
      if exists rest :: version == String("3.0." + rest) {
        assert IsVersion30(version.s);
      }
    }
  }

  lemma ComponentsDecode(v: Json)
    ensures IsComponents(v) <==> DecodeComponents(v).Some?
  {
    if v.Object? {
      TableDecodes(Field(v.fields, "schemas"), IsSchema, Decode);
    }
  }

  lemma TableIsEmpty<T>(v: Json, decode: Json -> Option<T>)
    ensures DecodeTable(v, decode).Some? ==>
              (DecodeTable(v, decode).value == map[] <==> v.Null? || (v.Object? && v.fields == map[]))
  {
    if v.Object? && DecodeTable(v, decode).Some? {
      assert DecodeTable(v, decode).value.Keys == v.fields.Keys;
    }
  }
}
