/** Which unsupported features validation against a schema can stop at: computed from the
    schema, and proved to be exactly those that some value brings out. */
module Reach {
  import opened Wrappers
  import opened Json
  import opened Schemas
  import opened Validation
  import opened Sorting
  import opened Diagnostics
  import opened References

  // ---------------------------------------------------------------- what a schema leads to

  ghost predicate Accepts(doc: Document, s: Schema, open: set<string>) {
    exists v :: Validate(doc, s, v, [], open).Accepted?
  }

  /** Properties are validated in ascending order, so one is reached if those before it that
      a value must have can pass. */
  ghost predicate CanPassBefore(doc: Document, s: Schema, name: string, open: set<string>) {
    forall other :: other in s.required && other in s.properties && other != name && Le(other, name) ==>
                      Accepts(doc, s.properties[other], open)
  }

  /** Extra properties are left to a schema, and all properties that a value must have can
      pass. */
  ghost predicate LeavesExtras(doc: Document, s: Schema, open: set<string>) {
    && s.ref == "" && Composition(s).None? && EffectiveType(s) == "object"
    && s.additional.Some? && !s.additional.value.Bool?
    && forall name :: name in s.required && name in s.properties ==> Accepts(doc, s.properties[name], open)
  }

  ghost predicate Reaches(doc: Document, f: Feature, s: Schema, open: set<string>)
    decreases Universe(doc, s) - open, s
  {
    if s.ref != "" then
      if !IsLocal(s.ref) then f == NonLocalRefs
      else
        && FollowsRef(doc, s, open)
        && (ResolveAddsNoRef(doc.root, s.ref);
            Reaches(doc, f, ResolveRef(doc.root, s.ref).value, open + {s.ref}))
    else if Composition(s).Some? then Composition(s) == Some(f)
    else if EffectiveType(s) == "object" then
      || (f == AdditionalSchema && LeavesExtras(doc, s, open))
      || exists name :: name in s.properties
           && CanPassBefore(doc, s, name, open) && Reaches(doc, f, s.properties[name], open)
    else EffectiveType(s) == "array" && s.items.Some? && Reaches(doc, f, s.items.value, open)
  }

  // ---------------------------------------------------------------- from a value to the schema

  /** A property is accepted wherever the object stands. */
  lemma AcceptedAnywhere(doc: Document, s: Schema, v: Json, at: Location, open: set<string>)
    requires Validate(doc, s, v, at, open).Accepted?
    ensures Accepts(doc, s, open)
  {
    ReportIsRelative(doc, s, v, at, [], open);
    assert at + [] == at;
  }

  lemma AcceptsWithFewerOpen(doc: Document, s: Schema, open: set<string>)
    requires Accepts(doc, s, open)
    ensures Accepts(doc, s, {})
  {
    var v :| Validate(doc, s, v, [], open).Accepted?;
    GuardOnlyBlamesOpenRefs(doc, s, v, [], open, {});
  }

  lemma RequiredBefore(doc: Document, s: Schema, v: Json, names: seq<string>, j: nat, at: Location, open: set<string>)
    requires s.ref == "" && v.Object? && Sorted(names) && Lists(names, s.properties.Keys) && j < |names|
    requires forall i :: 0 <= i < |names| ==> names[i] in s.properties
    requires forall i :: 0 <= i < j ==> OfProperty(doc, s, v, names[i], at, open).Accepted?
    requires FirstMissing(s.required, v.fields).None?
    ensures CanPassBefore(doc, s, names[j], open)
  {
    FirstMissingIs(s.required, v.fields);
    forall other | other in s.required && other in s.properties && other != names[j] && Le(other, names[j])
      ensures Accepts(doc, s.properties[other], open)
    {
      assert other in names;
      var i :| 0 <= i < |names| && names[i] == other;
      LeTotal(other, names[j]);
      assert i < j;
      AcceptedAnywhere(doc, s.properties[other], v.fields[other], at + [Key(other)], open);
    }
  }

  /** The property whose report is the report of the object is reached. */
  lemma RejectedProperties(doc: Document, s: Schema, v: Json, at: Location, open: set<string>) returns (name: string)
    requires s.ref == "" && v.Object? && FirstMissing(s.required, v.fields).None?
    requires ValidateProperties(doc, s, v, SortedKeys(s.properties.Keys), at, open).Rejected?
    ensures name in s.properties && name in v.fields && CanPassBefore(doc, s, name, open)
    ensures OfProperty(doc, s, v, name, at, open)
            == ValidateProperties(doc, s, v, SortedKeys(s.properties.Keys), at, open)
  {
    var names := SortedKeys(s.properties.Keys);
    var j := FirstRejectedProperty(doc, s, v, names, at, open);
    RequiredBefore(doc, s, v, names, j, at, open);
    name := names[j];
  }

  /** Before the extra properties are looked at, the required ones have been accepted. */
  lemma RequiredPassed(doc: Document, s: Schema, v: Json, at: Location, open: set<string>)
    requires s.ref == "" && v.Object? && FirstMissing(s.required, v.fields).None?
    requires ValidateProperties(doc, s, v, SortedKeys(s.properties.Keys), at, open).Accepted?
    ensures forall name :: name in s.required && name in s.properties ==> Accepts(doc, s.properties[name], open)
  {
    FirstMissingIs(s.required, v.fields);
    var names := SortedKeys(s.properties.Keys);
    PropertiesAccepted(doc, s, v, names, at, open);
    forall name | name in s.required && name in s.properties
      ensures Accepts(doc, s.properties[name], open)
    {
      assert name in names;
      assert OfProperty(doc, s, v, name, at, open).Accepted?;
      AcceptedAnywhere(doc, s.properties[name], v.fields[name], at + [Key(name)], open);
    }
  }

  /** What a value brings out, the schema leads to. */
  lemma {:induction false} StopIsReached(doc: Document, f: Feature, s: Schema, v: Json, at: Location, open: set<string>)
    requires Validate(doc, s, v, at, open).StopsAt(f)
    ensures Reaches(doc, f, s, open)
    decreases Universe(doc, s) - open, s
  {
    if FollowsRef(doc, s, open) {
      ResolveAddsNoRef(doc.root, s.ref);
      StopIsReached(doc, f, ResolveRef(doc.root, s.ref).value, v, at, open + {s.ref});
    } else if s.ref == "" && Composition(s).None? {
      if EffectiveType(s) == "object" {
        StopInObject(doc, f, s, v, at, open);
      } else if EffectiveType(s) == "array" && s.items.Some? && v.Array? {
        var j := FirstRejectedItem(doc, s, v, 0, at, open);
        StopIsReached(doc, f, s.items.value, v.items[j], at + [Index(j)], open);
      }
    }
  }

  lemma {:induction false} StopInObject(doc: Document, f: Feature, s: Schema, v: Json, at: Location, open: set<string>)
    requires Validate(doc, s, v, at, open).StopsAt(f)
    requires s.ref == "" && Composition(s).None? && EffectiveType(s) == "object"
    ensures Reaches(doc, f, s, open)
    decreases Universe(doc, s) - open, s, 0
  {
    assert v.Object? && ValidateMembers(doc, s, v, at, open).StopsAt(f);
    if ValidateProperties(doc, s, v, SortedKeys(s.properties.Keys), at, open).Rejected? {
      var name := RejectedProperties(doc, s, v, at, open);
      StopIsReached(doc, f, s.properties[name], v.fields[name], at + [Key(name)], open);
    } else {
      RequiredPassed(doc, s, v, at, open);
    }
  }

  // ---------------------------------------------------------------- from the schema to a value

  ghost function PassingValue(doc: Document, s: Schema, name: string, open: set<string>): Json {
    if name in s.properties && Accepts(doc, s.properties[name], open) then
      var v :| Validate(doc, s.properties[name], v, [], open).Accepted?;
      v
    else Null
  }

  lemma PassingPasses(doc: Document, s: Schema, name: string, open: set<string>)
    requires name in s.properties && Accepts(doc, s.properties[name], open)
    ensures Validate(doc, s.properties[name], PassingValue(doc, s, name, open), [] + [Key(name)], open).Accepted?
  {
    ReportIsRelative(doc, s.properties[name], PassingValue(doc, s, name, open), [Key(name)], [], open);
    assert [Key(name)] + [] == [] + [Key(name)];
  }

  /** The required properties with values that pass, where there are any. */
  ghost function Passing(doc: Document, s: Schema, open: set<string>): map<string, Json> {
    map name | name in s.required :: PassingValue(doc, s, name, open)
  }

  lemma {:induction false} FreshName(names: set<string>) returns (x: string)
    ensures forall name :: name in names ==> |name| < |x|
    decreases |names|
  {
    x := "x";
    if names != {} {
      var name :| name in names;
      x := FreshName(names - {name});
      if |x| <= |name| {
        x := name + "x";
      }
    }
  }

  /** An object with the required properties and one more. */
  lemma ExtrasStop(doc: Document, s: Schema, open: set<string>) returns (v: Json)
    requires LeavesExtras(doc, s, open)
    ensures Validate(doc, s, v, [], open) == Rejected([], Unsupported(AdditionalSchema))
  {
    var extra := FreshName(s.properties.Keys);
    var fields := Passing(doc, s, open)[extra := Null];
    v := Object(fields);
    var names := SortedKeys(s.properties.Keys);
    forall i | 0 <= i < |names|
      ensures OfProperty(doc, s, v, names[i], [], open).Accepted?
    {
      if names[i] in s.required {
        PassingPasses(doc, s, names[i], open);
      }
    }
    PropertiesAccepted(doc, s, v, names, [], open);
    FirstMissingIs(s.required, fields);
    assert extra in Extras(s, fields);
    assert ValidateMembers(doc, s, v, [], open) == Rejected([], Unsupported(AdditionalSchema));
  }

  /** The report of a property comes through if those before it are accepted. */
  lemma {:induction false} ReportComesThrough(doc: Document, s: Schema, v: Json, names: seq<string>, i: nat,
      at: Location, open: set<string>)
    requires s.ref == "" && v.Object? && i < |names|
    requires forall k :: 0 <= k < |names| ==> names[k] in s.properties
    requires forall k :: 0 <= k < i ==> OfProperty(doc, s, v, names[k], at, open).Accepted?
    requires OfProperty(doc, s, v, names[i], at, open).Rejected?
    ensures ValidateProperties(doc, s, v, names, at, open) == OfProperty(doc, s, v, names[i], at, open)
  {
    if i > 0 {
      assert OfProperty(doc, s, v, names[0], at, open).Accepted?;
      ReportComesThrough(doc, s, v, names[1..], i - 1, at, open);
    }
  }

  /** An object that stops at a property. */
  lemma PropertyStops(doc: Document, f: Feature, s: Schema, name: string, w: Json, open: set<string>) returns (v: Json)
    requires s.ref == "" && Composition(s).None? && EffectiveType(s) == "object"
    requires name in s.properties && CanPassBefore(doc, s, name, open)
    requires Validate(doc, s.properties[name], w, [], open).StopsAt(f)
    ensures Validate(doc, s, v, [], open).StopsAt(f)
  {
    var fields := Passing(doc, s, open)[name := w];
    v := Object(fields);
    var names := SortedKeys(s.properties.Keys);
    assert name in names;
    var i :| 0 <= i < |names| && names[i] == name;
    forall k | 0 <= k < i
      ensures OfProperty(doc, s, v, names[k], [], open).Accepted?
    {
      if names[k] in s.required {
        PassingPasses(doc, s, names[k], open);
      }
    }
    ReportIsRelative(doc, s.properties[name], w, [Key(name)], [], open);
    assert [Key(name)] + [] == [] + [Key(name)];
    ReportComesThrough(doc, s, v, names, i, [], open);
    FirstMissingIs(s.required, fields);
    assert ValidateMembers(doc, s, v, [], open) == OfProperty(doc, s, v, name, [], open);
  }

  lemma ItemStops(doc: Document, f: Feature, s: Schema, w: Json, open: set<string>) returns (v: Json)
    requires s.ref == "" && Composition(s).None? && EffectiveType(s) == "array" && s.items.Some?
    requires Validate(doc, s.items.value, w, [], open).StopsAt(f)
    ensures Validate(doc, s, v, [], open).StopsAt(f)
  {
    v := Array([w]);
    ReportIsRelative(doc, s.items.value, w, [Index(0)], [], open);
    assert [Index(0)] + [] == [] + [Index(0)];
    assert ValidateItems(doc, s, v, 0, [], open) == OfItem(doc, s, v, 0, [], open);
  }

  /** What the schema leads to, some value brings out. */
  lemma {:induction false} ReachedStops(doc: Document, f: Feature, s: Schema, open: set<string>) returns (v: Json)
    requires Reaches(doc, f, s, open)
    ensures Validate(doc, s, v, [], open).StopsAt(f)
    decreases Universe(doc, s) - open, s
  {
    v := Bool(true);
    if FollowsRef(doc, s, open) {
      ResolveAddsNoRef(doc.root, s.ref);
      v := ReachedStops(doc, f, ResolveRef(doc.root, s.ref).value, open + {s.ref});
    } else if s.ref == "" && Composition(s).None? {
      if EffectiveType(s) == "array" {
        var w := ReachedStops(doc, f, s.items.value, open);
        v := ItemStops(doc, f, s, w, open);
      } else if f == AdditionalSchema && LeavesExtras(doc, s, open) {
        v := ExtrasStop(doc, s, open);
      } else {
        var name :| name in s.properties
                    && CanPassBefore(doc, s, name, open) && Reaches(doc, f, s.properties[name], open);
        var w := ReachedStops(doc, f, s.properties[name], open);
        v := PropertyStops(doc, f, s, name, w, open);
      }
    }
  }

  ghost predicate Stops(doc: Document, f: Feature, s: Schema, v: Json, open: set<string>) {
    Validate(doc, s, v, [], open).StopsAt(f)
  }

  /** Some value makes validation against the schema stop at the feature exactly if the
      schema leads to it. */
  lemma ReachIsExact(doc: Document, f: Feature, s: Schema, open: set<string>)
    ensures Reaches(doc, f, s, open) <==> exists v :: Stops(doc, f, s, v, open)
  {
    if Reaches(doc, f, s, open) {
      var v := ReachedStops(doc, f, s, open);
      assert Stops(doc, f, s, v, open);
    }
    forall v | Stops(doc, f, s, v, open)
      ensures Reaches(doc, f, s, open)
    {
      StopIsReached(doc, f, s, v, [], open);
    }
  }
}
