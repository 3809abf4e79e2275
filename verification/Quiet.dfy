/** Contracts with nothing to report: what the scan makes of contracts that are written from
    schemas without the features it looks for. */
module Quiet {
  import opened Wrappers
  import opened Json
  import opened Schemas
  import opened Validation
  import opened Scan
  import opened ScanReport
  import opened Routes
  import opened Contracts
  import opened Writing

  // ---------------------------------------------------------------- quiet values

  /** No object in the value carries a feature. */
  ghost predicate IsQuiet(v: Json) {
    match v
    case Object(fields) =>
      (forall f :: f != Not ==> !Carries(f, fields)) && forall k :: k in fields ==> IsQuiet(fields[k])
    case Array(items) => forall i :: 0 <= i < |items| ==> IsQuiet(items[i])
    case _ => true
  }

  lemma {:induction false} QuietCountsNothing(f: Feature, v: Json)
    requires IsQuiet(v) && f != Not
    ensures Tally(f, v) == 0
    decreases v
  {
    MarkedObjectsCarry(f, v);
    forall step | step in Steps(v)
      ensures Tally(f, Child(v, step).value) == 0
    {
      QuietCountsNothing(f, Child(v, step).value);
    }
    NothingInParts(f, v, Steps(v));
  }

  /** The keys that the scan looks at. */
  predicate IsScanKey(name: string) {
    || name == "$ref" || name == "oneOf" || name == "anyOf" || name == "allOf" || name == "additionalProperties"
  }

  lemma PlainNames(fields: map<string, Json>)
    requires forall name :: name in fields ==> !IsScanKey(name) && IsQuiet(fields[name])
    ensures IsQuiet(Object(fields))
  {
  }

  // ---------------------------------------------------------------- quiet schemas

  /** A schema without compositions, with references under `#/` only and `additionalProperties`
      a boolean or absent, whose properties have no names that the scan looks at. */
  ghost predicate IsQuietSchema(s: Schema)
    decreases s
  {
    && (s.ref == "" || exists pointer :: s.ref == "#/" + pointer)
    && s.oneOf == [] && s.anyOf == [] && s.allOf == []
    && (s.additional.None? || s.additional.value.Bool?)
    && (forall i :: 0 <= i < |s.enum| ==> IsQuiet(s.enum[i]))
    && (forall name :: name in s.properties ==> !IsScanKey(name) && IsQuietSchema(s.properties[name]))
    && (s.items.Some? ==> IsQuietSchema(s.items.value))
    && (s.negated.Some? ==> IsQuietSchema(s.negated.value))
  }

  lemma WrittenNodeIsQuiet(s: Schema, f: Feature)
    requires IsQuietSchema(s) && f != Not
    ensures !Carries(f, Write(s).fields)
  {
    SimpleEntries(s);
    ListEntries(s);
    WrittenField(s, "$ref");
    WrittenField(s, "oneOf");
    WrittenField(s, "anyOf");
    WrittenField(s, "allOf");
    WrittenField(s, "additionalProperties");
  }

  lemma StringsAreQuiet(names: seq<string>)
    ensures IsQuiet(Array(Strings(names)))
  {
  }

  lemma {:induction false} WrittenSchemaIsQuiet(s: Schema)
    requires IsQuietSchema(s)
    ensures IsQuiet(Write(s))
    decreases s, 1
  {
    var fields := Write(s).fields;
    forall f | f != Not
      ensures !Carries(f, fields)
    {
      WrittenNodeIsQuiet(s, f);
    }
    forall key | key in fields
      ensures IsQuiet(fields[key])
    {
      WrittenEntryIsQuiet(s, key);
    }
  }

  lemma {:induction false} WrittenEntryIsQuiet(s: Schema, key: string)
    requires IsQuietSchema(s) && Entry(s, key).Some?
    ensures IsQuiet(Entry(s, key).value)
    decreases s, 0
  {
    StringsAreQuiet(s.required);
    if key == "properties" {
      var properties := WriteProperties(s);
      forall name | name in properties
        ensures !IsScanKey(name) && IsQuiet(properties[name])
      {
        WrittenSchemaIsQuiet(s.properties[name]);
      }
      PlainNames(properties);
    } else if key == "items" {
      WrittenSchemaIsQuiet(s.items.value);
    } else if key == "not" {
      WrittenSchemaIsQuiet(s.negated.value);
    }
  }

  // ---------------------------------------------------------------- quiet contracts

  ghost predicate IsQuietResponse(response: Response) {
    forall media :: media in response.content ==> !IsScanKey(media) && IsQuietSchema(response.content[media])
  }

  ghost predicate IsQuietOperation(operation: Operation) {
    operation.responses.Some? ==>
      forall status :: status in operation.responses.value ==>
                         !IsScanKey(status) && IsQuietResponse(operation.responses.value[status])
  }

  ghost predicate IsQuietPaths(paths: Paths) {
    forall path :: path in paths ==>
                     && !IsScanKey(path)
                     && forall verb :: verb in paths[path] ==> !IsScanKey(verb) && IsQuietOperation(paths[path][verb])
  }

  lemma TableIsQuiet<T>(table: map<string, T>, write: T -> Json)
    requires forall name :: name in table ==> !IsScanKey(name) && IsQuiet(write(table[name]))
    ensures IsQuiet(WriteTable(table, write))
  {
    PlainNames(WriteTable(table, write).fields);
  }

  lemma SingleIsQuiet(name: string, v: Json)
    requires !IsScanKey(name) && IsQuiet(v)
    ensures IsQuiet(Object(map[name := v]))
  {
    PlainNames(map[name := v]);
  }

  lemma ResponseIsQuiet(response: Response)
    requires IsQuietResponse(response)
    ensures IsQuiet(WriteResponse(response))
  {
    forall media | media in response.content
      ensures !IsScanKey(media) && IsQuiet(WriteMedia(response.content[media]))
    {
      WrittenSchemaIsQuiet(response.content[media]);
      SingleIsQuiet("schema", Write(response.content[media]));
    }
    TableIsQuiet(response.content, WriteMedia);
    SingleIsQuiet("content", WriteTable(response.content, WriteMedia));
  }

  lemma OperationIsQuiet(operation: Operation)
    requires IsQuietOperation(operation)
    ensures IsQuiet(WriteOperation(operation))
  {
    if operation.responses.Some? {
      var responses := operation.responses.value;
      forall status | status in responses
        ensures !IsScanKey(status) && IsQuiet(WriteResponse(responses[status]))
      {
        ResponseIsQuiet(responses[status]);
      }
      TableIsQuiet(responses, WriteResponse);
      SingleIsQuiet("responses", WriteTable(responses, WriteResponse));
    } else {
      PlainNames(map[]);
    }
  }

  lemma PathsAreQuiet(paths: Paths)
    requires IsQuietPaths(paths)
    ensures IsQuiet(WriteTable(paths, WritePathItem))
  {
    forall path | path in paths
      ensures !IsScanKey(path) && IsQuiet(WritePathItem(paths[path]))
    {
      forall verb | verb in paths[path]
        ensures !IsScanKey(verb) && IsQuiet(WriteOperation(paths[path][verb]))
      {
        OperationIsQuiet(paths[path][verb]);
      }
      TableIsQuiet(paths[path], WriteOperation);
    }
    TableIsQuiet(paths, WritePathItem);
  }

  lemma ComponentsAreQuiet(schemas: map<string, Schema>)
    requires forall name :: name in schemas ==> !IsScanKey(name) && IsQuietSchema(schemas[name])
    ensures IsQuiet(Object(map["schemas" := WriteTable(schemas, Write)]))
  {
    forall name | name in schemas
      ensures !IsScanKey(name) && IsQuiet(Write(schemas[name]))
    {
      WrittenSchemaIsQuiet(schemas[name]);
    }
    TableIsQuiet(schemas, Write);
    SingleIsQuiet("schemas", WriteTable(schemas, Write));
  }

  lemma ContractMember(version: string, paths: Paths, schemas: map<string, Schema>, name: string)
    requires name in WriteContract(version, paths, schemas).fields
    ensures !IsScanKey(name)
    ensures var v := WriteContract(version, paths, schemas).fields[name];
            || v == String(version) || v == WriteTable(paths, WritePathItem)
            || v == Object(map["schemas" := WriteTable(schemas, Write)])
  {
    assert name == "openapi" || name == "paths" || name == "components";
    assert "paths"[0] !in {'o', 'a'} && |"components"| == 10;
  }

  lemma ContractIsQuiet(version: string, paths: Paths, schemas: map<string, Schema>)
    requires IsQuietPaths(paths)
    requires forall name :: name in schemas ==> !IsScanKey(name) && IsQuietSchema(schemas[name])
    ensures IsQuiet(WriteContract(version, paths, schemas))
  {
    PathsAreQuiet(paths);
    ComponentsAreQuiet(schemas);
    var fields := WriteContract(version, paths, schemas).fields;
    forall name | name in fields
      ensures !IsScanKey(name) && IsQuiet(fields[name])
    {
      ContractMember(version, paths, schemas, name);
    }
    PlainNames(fields);
  }

  /** A contract written from such schemas loads and reports nothing: boolean
      `additionalProperties`, local references and `not` are not counted. */
  lemma QuietContractReportsNothing(version: string, paths: Paths, schemas: map<string, Schema>,
      floatFits: NumberLiteral -> bool)
    requires IsVersion30(version) && paths != map[] && IsQuietPaths(paths)
    requires forall name :: name in schemas ==> !IsScanKey(name) && IsQuietSchema(schemas[name])
    ensures var loaded := Load(Parsed(WriteContract(version, paths, schemas)), floatFits);
            loaded.Success? && loaded.value.paths == paths && forall f :: Reported(loaded.value.doc, f) == 0
  {
    ContractRoundTrip(version, paths, schemas, floatFits);
    ContractIsQuiet(version, paths, schemas);
    forall f | f != Not
      ensures Tally(f, WriteContract(version, paths, schemas)) == 0
    {
      QuietCountsNothing(f, WriteContract(version, paths, schemas));
    }
  }
}
