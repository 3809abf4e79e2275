/** What a verdict means: acceptance and mismatch are right, whatever the constructs mean
    that the program does not validate; the other outcomes decide nothing. */
module Verdicts {
  import opened Wrappers
  import opened Json
  import opened Schemas
  import opened Validation
  import opened Sorting
  import opened Diagnostics

  // ---------------------------------------------------------------- conformance

  /** A meaning for what the program leaves undecided: may this value stand under this
      schema, as far as its unsupported construct is concerned? Any meaning will do. */
  type Meaning = (Schema, Json) -> bool

  /** Conformance, with references unfolded at most `n` deep. Only the part that the
      validator does not support is left to `meaning`. */
  ghost predicate Conforms(n: nat, doc: Document, meaning: Meaning, s: Schema, v: Json)
    decreases n, s
  {
    if s.ref != "" then
      if !IsLocal(s.ref) || ResolveRef(doc.root, s.ref).None? then meaning(s, v)
      else n > 0 && Conforms(n - 1, doc, meaning, ResolveRef(doc.root, s.ref).value, v)
    else if v.Null? && s.nullable then true
    else if Composition(s).Some? then meaning(s, v)
    else
      match EffectiveType(s)
      case "" => true
      case typ =>
        && (s.enum == [] || v in s.enum)
        && if typ == "object" then
             && v.Object?
             && (forall name :: name in s.required ==> name in v.fields)
             && (forall k :: k in s.properties && k in v.fields ==>
                   Conforms(n, doc, meaning, s.properties[k], v.fields[k]))
             && (v.fields.Keys <= s.properties.Keys || AllowsExtras(meaning, s, v))
           else if typ == "array" then
             && v.Array?
             && (s.items.Some? ==> forall i :: 0 <= i < |v.items| ==>
                   Conforms(n, doc, meaning, s.items.value, v.items[i]))
           else if IsScalarType(typ) then ScalarConforms(doc, typ, v)
           else meaning(s, v)
  }

  ghost predicate AllowsExtras(meaning: Meaning, s: Schema, v: Json) {
    match s.additional
    case None => true
    case Some(Bool(b)) => b
    case Some(_) => meaning(s, v)
  }

  /** The scalar types that the validator knows. */
  predicate IsScalarType(typ: string) {
    typ == "string" || typ == "boolean" || typ == "number" || typ == "integer"
  }

  ghost predicate ScalarConforms(doc: Document, typ: string, v: Json) {
    || (typ == "string" && v.String?)
    || (typ == "boolean" && v.Bool?)
    || (typ == "number" && v.Number? && doc.floatFits(v.literal))
    || (typ == "integer" && v.Number? && IsInt64(v.literal))
  }

  // ---------------------------------------------------------------- acceptance

  /** The references that can still be followed. */
  ghost function Remaining(doc: Document, s: Schema, open: set<string>): nat {
    |Universe(doc, s) - open|
  }

  lemma RemainingInside(doc: Document, s: Schema, part: Schema, open: set<string>)
    requires s.ref == ""
    requires (exists k :: k in s.properties && part == s.properties[k]) || s.items == Some(part)
    ensures Remaining(doc, part, open) <= Remaining(doc, s, open)
  {
    SubsetSize(Universe(doc, part) - open, Universe(doc, s) - open);
  }

  lemma RemainingAfterRef(doc: Document, s: Schema, open: set<string>)
    requires FollowsRef(doc, s, open)
    ensures Remaining(doc, ResolveRef(doc.root, s.ref).value, open + {s.ref}) < Remaining(doc, s, open)
  {
    ResolveAddsNoRef(doc.root, s.ref);
    var target := ResolveRef(doc.root, s.ref).value;
    SubsetSize(Universe(doc, target) - (open + {s.ref}), Universe(doc, s) - open - {s.ref});
  }

  /** Acceptance means conformance: under every meaning of the unsupported constructs, with
      no more unfolding than there are references left to follow. */
  lemma {:induction false} AcceptIsSound(n: nat, doc: Document, meaning: Meaning, s: Schema, v: Json, at: Location,
      open: set<string>)
    requires Validate(doc, s, v, at, open).Accepted?
    requires n >= Remaining(doc, s, open)
    ensures Conforms(n, doc, meaning, s, v)
    decreases Universe(doc, s) - open, s, 1
  {
    if s.ref != "" {
      RemainingAfterRef(doc, s, open);
      ResolveAddsNoRef(doc.root, s.ref);
      AcceptIsSound(n - 1, doc, meaning, ResolveRef(doc.root, s.ref).value, v, at, open + {s.ref});
    } else if Reached(Node(s, v, at)) && EffectiveType(s) == "object" {
      AcceptedObjectConforms(n, doc, meaning, s, v, at, open);
    } else if Reached(Node(s, v, at)) && EffectiveType(s) == "array" {
      AcceptedArrayConforms(n, doc, meaning, s, v, at, open);
    }
  }

  lemma {:induction false} AcceptedObjectConforms(n: nat, doc: Document, meaning: Meaning, s: Schema, v: Json,
      at: Location, open: set<string>)
    requires Reached(Node(s, v, at)) && EffectiveType(s) == "object"
    requires Validate(doc, s, v, at, open).Accepted?
    requires n >= Remaining(doc, s, open)
    ensures Conforms(n, doc, meaning, s, v)
    decreases Universe(doc, s) - open, s, 0
  {
    ObjectAccepted(doc, s, v, at, open);
    forall k | k in s.properties && k in v.fields
      ensures Conforms(n, doc, meaning, s.properties[k], v.fields[k])
    {
      RemainingInside(doc, s, s.properties[k], open);
      assert OfProperty(doc, s, v, k, at, open).Accepted?;
      AcceptIsSound(n, doc, meaning, s.properties[k], v.fields[k], at + [Key(k)], open);
    }
    ObjectOfConformingParts(n, doc, meaning, s, v);
  }

  lemma ObjectOfConformingParts(n: nat, doc: Document, meaning: Meaning, s: Schema, v: Json)
    requires s.ref == "" && Composition(s).None? && EffectiveType(s) == "object" && v.Object? && EnumAllows(s, v)
    requires forall name :: name in s.required ==> name in v.fields
    requires forall k :: k in s.properties && k in v.fields ==> Conforms(n, doc, meaning, s.properties[k], v.fields[k])
    requires v.fields.Keys <= s.properties.Keys || s.additional.None? || s.additional == Some(Bool(true))
    ensures Conforms(n, doc, meaning, s, v)
  {
  }

  lemma {:induction false} AcceptedArrayConforms(n: nat, doc: Document, meaning: Meaning, s: Schema, v: Json,
      at: Location, open: set<string>)
    requires Reached(Node(s, v, at)) && EffectiveType(s) == "array"
    requires Validate(doc, s, v, at, open).Accepted?
    requires n >= Remaining(doc, s, open)
    ensures Conforms(n, doc, meaning, s, v)
    decreases Universe(doc, s) - open, s, 0
  {
    if s.items.Some? {
      ItemsAccepted(doc, s, v, 0, at, open);
      RemainingInside(doc, s, s.items.value, open);
      forall i | 0 <= i < |v.items|
        ensures Conforms(n, doc, meaning, s.items.value, v.items[i])
      {
        assert OfItem(doc, s, v, i, at, open).Accepted?;
        AcceptIsSound(n, doc, meaning, s.items.value, v.items[i], at + [Index(i)], open);
      }
    }
    ArrayOfConformingParts(n, doc, meaning, s, v);
  }

  lemma ArrayOfConformingParts(n: nat, doc: Document, meaning: Meaning, s: Schema, v: Json)
    requires s.ref == "" && Composition(s).None? && EffectiveType(s) == "array" && v.Array? && EnumAllows(s, v)
    requires s.items.Some? ==>
               forall i :: 0 <= i < |v.items| ==> Conforms(n, doc, meaning, s.items.value, v.items[i])
    ensures Conforms(n, doc, meaning, s, v)
  {
  }

  /** What acceptance of an object says about its parts. */
  lemma ObjectAccepted(doc: Document, s: Schema, v: Json, at: Location, open: set<string>)
    requires Reached(Node(s, v, at)) && EffectiveType(s) == "object"
    requires Validate(doc, s, v, at, open).Accepted?
    ensures v.Object? && Composition(s).None? && EnumAllows(s, v)
    ensures forall name :: name in s.required ==> name in v.fields
    ensures forall k :: k in s.properties ==> OfProperty(doc, s, v, k, at, open).Accepted?
    ensures v.fields.Keys <= s.properties.Keys || s.additional.None? || s.additional == Some(Bool(true))
  {
    FirstMissingIs(s.required, v.fields);
    var names := SortedKeys(s.properties.Keys);
    PropertiesAccepted(doc, s, v, names, at, open);
    NoExtras(s, v.fields);
    forall k | k in s.properties
      ensures OfProperty(doc, s, v, k, at, open).Accepted?
    {
      assert k in names;
    }
  }

  // ---------------------------------------------------------------- mismatch

  /** A mismatch means non-conformance: under every meaning, however far references are
      unfolded. */
  lemma {:induction false} MismatchIsSound(n: nat, doc: Document, meaning: Meaning, s: Schema, v: Json,
      at: Location, open: set<string>)
    requires Validate(doc, s, v, at, open).Rejected?
    requires !Validate(doc, s, v, at, open).problem.Undecided()
    ensures !Conforms(n, doc, meaning, s, v)
    decreases Universe(doc, s) - open, s
  {
    if FollowsRef(doc, s, open) {
      ResolveAddsNoRef(doc.root, s.ref);
      if n > 0 {
        MismatchIsSound(n - 1, doc, meaning, ResolveRef(doc.root, s.ref).value, v, at, open + {s.ref});
      }
    } else if LooksInside(doc, s, v, at, open) {
      var inside, step := RejectedPart(doc, s, v, at, open);
      RemainingOfPart(doc, s, step, open);
      MismatchIsSound(n, doc, meaning, inside, Child(v, step).value, at + [step], open);
      NonConformingPart(n, doc, meaning, s, v, step);
    } else {
      ReportHere(doc, s, v, at, open);
      NonConformingHere(n, doc, meaning, s, v, Validate(doc, s, v, at, open).problem);
    }
  }

  lemma NonConformingPart(n: nat, doc: Document, meaning: Meaning, s: Schema, v: Json, step: Step)
    requires s.ref == "" && !(v.Null? && s.nullable) && Composition(s).None?
    requires SubSchema(s, step).Some? && Child(v, step).Some?
    requires !Conforms(n, doc, meaning, SubSchema(s, step).value, Child(v, step).value)
    ensures !Conforms(n, doc, meaning, s, v)
  {
  }

  lemma NonConformingHere(n: nat, doc: Document, meaning: Meaning, s: Schema, v: Json, problem: Problem)
    requires HasProblem(doc, Node(s, v, []), problem) && !problem.Undecided()
    ensures !Conforms(n, doc, meaning, s, v)
  {
  }

  /** The verdict is three-valued. Unless validation stops at something it cannot judge,
      acceptance and conformance are the same thing, for every meaning that the unsupported
      constructs could have and for every depth of unfolding that is deep enough. */
  lemma VerdictIsExact(n: nat, doc: Document, meaning: Meaning, s: Schema, v: Json)
    requires n >= Remaining(doc, s, {})
    ensures var outcome := Validate(doc, s, v, [], {});
            || (outcome.Rejected? && outcome.problem.Undecided())
            || (outcome.Accepted? <==> Conforms(n, doc, meaning, s, v))
  {
    var outcome := Validate(doc, s, v, [], {});
    if outcome.Accepted? {
      AcceptIsSound(n, doc, meaning, s, v, [], {});
    } else if !outcome.problem.Undecided() {
      MismatchIsSound(n, doc, meaning, s, v, [], {});
    }
  }
}
