/** Which failure is reported: the order of the checks, and the witness in the body. */
module Diagnostics {
  import opened Wrappers
  import opened Json
  import opened Schemas
  import opened Validation
  import opened Sorting

  // ---------------------------------------------------------------- children

  lemma {:induction false} PropertiesAccepted(doc: Document, s: Schema, v: Json, names: seq<string>, at: Location,
      open: set<string>)
    requires s.ref == "" && v.Object? && forall i :: 0 <= i < |names| ==> names[i] in s.properties
    ensures ValidateProperties(doc, s, v, names, at, open).Accepted? <==>
            forall i :: 0 <= i < |names| ==> OfProperty(doc, s, v, names[i], at, open).Accepted?
  {
    if names != [] {
      PropertiesAccepted(doc, s, v, names[1..], at, open);
      assert names == [names[0]] + names[1..];
    }
  }

  lemma {:induction false} FirstRejectedProperty(doc: Document, s: Schema, v: Json, names: seq<string>,
      at: Location, open: set<string>)
    returns (j: nat)
    requires s.ref == "" && v.Object? && forall i :: 0 <= i < |names| ==> names[i] in s.properties
    requires ValidateProperties(doc, s, v, names, at, open).Rejected?
    ensures j < |names| && names[j] in v.fields
    ensures ValidateProperties(doc, s, v, names, at, open) == OfProperty(doc, s, v, names[j], at, open)
    ensures forall i :: 0 <= i < j ==> OfProperty(doc, s, v, names[i], at, open).Accepted?
  {
    if OfProperty(doc, s, v, names[0], at, open).Rejected? {
      j := 0;
    } else {
      var k := FirstRejectedProperty(doc, s, v, names[1..], at, open);
      assert names == [names[0]] + names[1..];
      j := k + 1;
    }
  }

  lemma {:induction false} ItemsAccepted(doc: Document, s: Schema, v: Json, i: nat, at: Location, open: set<string>)
    requires s.ref == "" && v.Array? && s.items.Some? && i <= |v.items|
    ensures ValidateItems(doc, s, v, i, at, open).Accepted? <==>
            forall j :: i <= j < |v.items| ==> OfItem(doc, s, v, j, at, open).Accepted?
    decreases |v.items| - i
  {
    if i < |v.items| {
      ItemsAccepted(doc, s, v, i + 1, at, open);
      assert OfItem(doc, s, v, i, at, open).Accepted? || OfItem(doc, s, v, i, at, open).Rejected?;
    }
  }

  lemma {:induction false} FirstRejectedItem(doc: Document, s: Schema, v: Json, i: nat, at: Location,
      open: set<string>)
    returns (j: nat)
    requires s.ref == "" && v.Array? && s.items.Some? && i <= |v.items|
    requires ValidateItems(doc, s, v, i, at, open).Rejected?
    ensures i <= j < |v.items|
    ensures ValidateItems(doc, s, v, i, at, open) == OfItem(doc, s, v, j, at, open)
    ensures forall k :: i <= k < j ==> OfItem(doc, s, v, k, at, open).Accepted?
    decreases |v.items| - i
  {
    if OfItem(doc, s, v, i, at, open).Rejected? {
      j := i;
    } else {
      assert ValidateItems(doc, s, v, i, at, open) == ValidateItems(doc, s, v, i + 1, at, open);
      j := FirstRejectedItem(doc, s, v, i + 1, at, open);
    }
  }

  lemma {:induction false} FirstMissingIs(required: seq<string>, fields: map<string, Json>)
    ensures match FirstMissing(required, fields)
            case None => forall i :: 0 <= i < |required| ==> required[i] in fields
            case Some(name) => exists i :: IsFirstMissing(required, fields, i) && name == required[i]
  {
    if required != [] {
      assert required == [required[0]] + required[1..];
      if required[0] !in fields {
        assert IsFirstMissing(required, fields, 0);
      } else {
        FirstMissingIs(required[1..], fields);
        if FirstMissing(required, fields).Some? {
          var i :| IsFirstMissing(required[1..], fields, i) && FirstMissing(required, fields).value == required[1..][i];
          assert IsFirstMissing(required, fields, i + 1);
        }
      }
    }
  }

  ghost predicate IsFirstMissing(required: seq<string>, fields: map<string, Json>, i: int) {
    && 0 <= i < |required|
    && required[i] !in fields
    && forall j :: 0 <= j < i ==> required[j] in fields
  }

  // ---------------------------------------------------------------- order of the reports

  ghost predicate RejectedProperty(doc: Document, s: Schema, v: Json, name: string, at: Location, open: set<string>)
    requires v.Object?
  {
    name in s.properties && OfProperty(doc, s, v, name, at, open).Rejected?
  }

  /** What is reported when required names and properties give no reason to. */
  lemma ReportAfterProperties(doc: Document, s: Schema, v: Json, at: Location, open: set<string>)
    requires s.ref == "" && Composition(s).None? && EffectiveType(s) == "object" && v.Object?
    requires FirstMissing(s.required, v.fields).None?
    requires ValidateProperties(doc, s, v, SortedKeys(s.properties.Keys), at, open).Accepted?
    ensures var outcome := Validate(doc, s, v, at, open);
            if !(v.fields.Keys <= s.properties.Keys) && s.additional.Some? && s.additional != Some(Bool(true)) then
              if s.additional == Some(Bool(false)) then
                exists name :: IsLeast(name, Extras(s, v.fields))
                  && outcome == Rejected(at, ExtraProperty(name))
              else outcome == Rejected(at, Unsupported(AdditionalSchema))
            else outcome == if s.enum == [] || v in s.enum then Accepted else Rejected(at, NotInEnum)
  {
    NoExtras(s, v.fields);
    if Extras(s, v.fields) != {} {
      assert IsLeast(Least(Extras(s, v.fields)), Extras(s, v.fields));
    }
  }

  /** The failure an object reports, said without any iteration: the first missing name of
      the required list; else what the least failing property reports; else the least
      extra name, or the schema that should judge it; else the enum. */
  lemma ObjectReport(doc: Document, s: Schema, v: Json, at: Location, open: set<string>)
    requires s.ref == "" && Composition(s).None? && EffectiveType(s) == "object" && v.Object?
    ensures var outcome := Validate(doc, s, v, at, open);
            if exists i :: IsFirstMissing(s.required, v.fields, i) then
              exists i :: IsFirstMissing(s.required, v.fields, i)
                && outcome == Rejected(at, MissingRequired(s.required[i]))
            else if exists name :: RejectedProperty(doc, s, v, name, at, open) then
              exists name :: RejectedProperty(doc, s, v, name, at, open)
                && (forall other :: RejectedProperty(doc, s, v, other, at, open) ==> Le(name, other))
                && outcome == OfProperty(doc, s, v, name, at, open)
            else if !(v.fields.Keys <= s.properties.Keys) && s.additional.Some? && s.additional != Some(Bool(true)) then
              if s.additional == Some(Bool(false)) then
                exists name :: IsLeast(name, Extras(s, v.fields))
                  && outcome == Rejected(at, ExtraProperty(name))
              else outcome == Rejected(at, Unsupported(AdditionalSchema))
            else outcome == if s.enum == [] || v in s.enum then Accepted else Rejected(at, NotInEnum)
  {
    FirstMissingIs(s.required, v.fields);
    if FirstMissing(s.required, v.fields).None? {
      var names := SortedKeys(s.properties.Keys);
      PropertiesAccepted(doc, s, v, names, at, open);
      if ValidateProperties(doc, s, v, names, at, open).Rejected? {
        LeastRejectedProperty(doc, s, v, names, at, open);
      } else {
        assert forall name :: name in s.properties ==> name in names;
        ReportAfterProperties(doc, s, v, at, open);
      }
    }
  }

  lemma NoExtras(s: Schema, fields: map<string, Json>)
    ensures Extras(s, fields) == {} <==> fields.Keys <= s.properties.Keys
  {
    if name :| name in fields.Keys && name !in s.properties.Keys {
      assert name in Extras(s, fields);
    }
  }

  lemma LeastRejectedProperty(doc: Document, s: Schema, v: Json, names: seq<string>, at: Location, open: set<string>)
    requires s.ref == "" && v.Object? && Sorted(names) && Lists(names, s.properties.Keys)
    requires forall i :: 0 <= i < |names| ==> names[i] in s.properties
    requires ValidateProperties(doc, s, v, names, at, open).Rejected?
    ensures exists name :: RejectedProperty(doc, s, v, name, at, open)
              && (forall other :: RejectedProperty(doc, s, v, other, at, open) ==> Le(name, other))
              && ValidateProperties(doc, s, v, names, at, open) == OfProperty(doc, s, v, name, at, open)
  {
    var j := FirstRejectedProperty(doc, s, v, names, at, open);
    assert RejectedProperty(doc, s, v, names[j], at, open);
    forall other | RejectedProperty(doc, s, v, other, at, open)
      ensures Le(names[j], other)
    {
      assert other in names;
      var i :| 0 <= i < |names| && names[i] == other;
      LeTotal(other, other);
      assert i >= j;
    }
  }

  /** The failure an array reports: that of its first rejected element, else the enum. */
  lemma ArrayReport(doc: Document, s: Schema, v: Json, at: Location, open: set<string>)
    requires s.ref == "" && Composition(s).None? && EffectiveType(s) == "array" && v.Array?
    ensures var outcome := Validate(doc, s, v, at, open);
            if s.items.Some? && exists i :: 0 <= i < |v.items| && OfItem(doc, s, v, i, at, open).Rejected? then
              exists i :: 0 <= i < |v.items| && OfItem(doc, s, v, i, at, open).Rejected?
                && (forall j :: 0 <= j < i ==> OfItem(doc, s, v, j, at, open).Accepted?)
                && outcome == OfItem(doc, s, v, i, at, open)
            else outcome == if s.enum == [] || v in s.enum then Accepted else Rejected(at, NotInEnum)
  {
    if s.items.Some? {
      ItemsAccepted(doc, s, v, 0, at, open);
      if ValidateItems(doc, s, v, 0, at, open).Rejected? {
        var i := FirstRejectedItem(doc, s, v, 0, at, open);
        assert OfItem(doc, s, v, i, at, open).Rejected?;
      }
    }
  }

  // ---------------------------------------------------------------- witnesses

  /** A place that validation visits: a part of the body under the schema paired with it. */
  datatype Node = Node(schema: Schema, value: Json, at: Location)

  /** One step of the descent: into a property, into an element, or through a reference. */
  ghost predicate Descends(doc: Document, a: Node, b: Node) {
    || (&& a.schema.ref != "" && IsLocal(a.schema.ref)
        && ResolveRef(doc.root, a.schema.ref) == Some(b.schema)
        && b.value == a.value && b.at == a.at)
    || (exists step :: DescendsBy(a, b, step))
  }

  ghost predicate DescendsBy(a: Node, b: Node, step: Step) {
    && a.schema.ref == ""
    && Child(a.value, step) == Some(b.value)
    && SubSchema(a.schema, step) == Some(b.schema)
    && b.at == a.at + [step]
  }

  function SubSchema(s: Schema, step: Step): Option<Schema> {
    match step
    case Key(name) => if EffectiveType(s) == "object" && name in s.properties then Some(s.properties[name]) else None
    case Index(_) => if EffectiveType(s) == "array" then s.items else None
  }

  ghost predicate IsDescent(doc: Document, chain: seq<Node>) {
    chain != [] && forall i {:trigger chain[i]} :: 0 <= i < |chain| - 1 ==> Descends(doc, chain[i], chain[i + 1])
  }

  ghost function Last(chain: seq<Node>): Node
    requires chain != []
  {
    chain[|chain| - 1]
  }

  /** Validation looks at the keywords of this schema. */
  ghost predicate Reached(node: Node) {
    node.schema.ref == "" && !(node.value.Null? && node.schema.nullable)
  }

  /** The problem is really there: this value has it under this schema. */
  ghost predicate HasProblem(doc: Document, node: Node, problem: Problem) {
    match problem
    case NonLocalRef(ref) => node.schema.ref == ref && ref != "" && !IsLocal(ref)
    case UnresolvedRef(ref) => node.schema.ref == ref && IsLocal(ref) && ResolveRef(doc.root, ref).None?
    case CyclicRef(ref) => node.schema.ref == ref && IsLocal(ref)
    case Unsupported(feature) =>
      Reached(node) &&
      if feature == AdditionalSchema then HasUnjudgedExtras(node) else Composition(node.schema) == Some(feature)
    case _ =>
      Reached(node) && Composition(node.schema).None? && HasMismatch(doc, node.schema, node.value, problem)
  }

  ghost predicate HasUnjudgedExtras(node: Node) {
    var s, v := node.schema, node.value;
    && Composition(s).None? && EffectiveType(s) == "object" && v.Object?
    && !(v.fields.Keys <= s.properties.Keys)
    && s.additional.Some? && !s.additional.value.Bool?
  }

  /** The value breaks a keyword of the schema itself, not of a part of it. */
  ghost predicate HasMismatch(doc: Document, s: Schema, v: Json, problem: Problem) {
    var typ := EffectiveType(s);
    match problem
    case NotAnObject => typ == "object" && !v.Object?
    case MissingRequired(name) => typ == "object" && v.Object? && name in s.required && name !in v.fields
    case ExtraProperty(name) =>
      && typ == "object" && v.Object? && s.additional == Some(Bool(false))
      && name in v.fields && name !in s.properties
    case NotAnArray => typ == "array" && !v.Array?
    case NotAString => typ == "string" && !v.String?
    case NotAnInteger => typ == "integer" && !(v.Number? && IsInt64(v.literal))
    case NotANumber => typ == "number" && !(v.Number? && doc.floatFits(v.literal))
    case NotABoolean => typ == "boolean" && !v.Bool?
    case UnknownType(name) =>
      typ == name && typ !in {"object", "array", "string", "integer", "number", "boolean", ""}
    case NotInEnum => typ != "" && s.enum != [] && v !in s.enum
    case _ => false
  }

  /** The references that are open at the end of a descent: those open at its start, and
      those it went through. */
  ghost function Opened(chain: seq<Node>, open: set<string>): set<string> {
    if |chain| <= 1 then open
    else Opened(chain[1..], OpenedBy(chain[0], open))
  }

  ghost function OpenedBy(node: Node, open: set<string>): set<string> {
    if node.schema.ref == "" then open else open + {node.schema.ref}
  }

  /** So an open reference was open at the start or is the reference of an earlier place. */
  lemma {:induction false} OpenedOnDescent(chain: seq<Node>, open: set<string>, ref: string)
    requires ref != ""
    ensures ref in Opened(chain, open) <==>
            ref in open || exists i :: 0 <= i < |chain| - 1 && chain[i].schema.ref == ref
  {
    if |chain| > 1 {
      var rest := chain[1..];
      OpenedOnDescent(rest, OpenedBy(chain[0], open), ref);
      if i :| 0 <= i < |rest| - 1 && rest[i].schema.ref == ref {
        assert chain[i + 1].schema.ref == ref;
      }
      if i :| 0 < i < |chain| - 1 && chain[i].schema.ref == ref {
        assert rest[i - 1].schema.ref == ref;
      }
    }
  }

  /** The references that can be met do not grow on the way down. */
  lemma UniverseShrinks(doc: Document, a: Node, b: Node)
    requires Descends(doc, a, b)
    ensures Universe(doc, b.schema) <= Universe(doc, a.schema)
  {
    if a.schema.ref != "" {
      ResolveAddsNoRef(doc.root, a.schema.ref);
    } else {
      var step :| DescendsBy(a, b, step);
      RemainingOfPart(doc, a.schema, step, {});
    }
  }

  /** Whatever the depth of a descent, the references open at its end are among the `$ref`
      strings of the document and those the first schema itself can meet. */
  lemma {:induction false} OpenedIsBounded(doc: Document, chain: seq<Node>, open: set<string>)
    requires IsDescent(doc, chain)
    ensures Opened(chain, open) <= open + Universe(doc, chain[0].schema)
    ensures |Opened(chain, open)| <= |open + Universe(doc, chain[0].schema)|
  {
    if |chain| > 1 {
      assert Descends(doc, chain[0], chain[1]);
      RestIsDescent(doc, chain);
      UniverseShrinks(doc, chain[0], chain[1]);
      OpenedIsBounded(doc, chain[1..], OpenedBy(chain[0], open));
    }
    SubsetSize(Opened(chain, open), open + Universe(doc, chain[0].schema));
  }

  lemma {:induction false} SubsetSize(a: set<string>, b: set<string>)
    requires a <= b
    ensures |a| <= |b|
  {
    if a != {} {
      var x :| x in a;
      SubsetSize(a - {x}, b - {x});
    }
  }

  /** A cycle is reported exactly at a local reference that is open. */
  ghost predicate BlamesOpenRef(node: Node, problem: Problem, open: set<string>) {
    problem.CyclicRef? <==> node.schema.ref != "" && IsLocal(node.schema.ref) && node.schema.ref in open
  }

  /** Every report has a witness: a descent from the root to the reported place, where the
      problem is and where the validator, with the references open that this descent
      opened, reports it. A cycle is reported there exactly if the reference was open at the
      start or earlier on the descent, so neither a sibling property nor another element has
      a part in it. */
  lemma {:induction false} ReportHasWitness(doc: Document, s: Schema, v: Json, at: Location, open: set<string>)
    returns (chain: seq<Node>)
    requires Validate(doc, s, v, at, open).Rejected?
    ensures IsDescent(doc, chain) && chain[0] == Node(s, v, at)
    ensures var outcome, last := Validate(doc, s, v, at, open), Last(chain);
            && last.at == outcome.at
            && HasProblem(doc, last, outcome.problem)
            && Validate(doc, last.schema, last.value, last.at, Opened(chain, open)) == outcome
            && BlamesOpenRef(last, outcome.problem, Opened(chain, open))
    decreases Universe(doc, s) - open, s
  {
    var node := Node(s, v, at);
    if FollowsRef(doc, s, open) {
      ResolveAddsNoRef(doc.root, s.ref);
      var target := ResolveRef(doc.root, s.ref).value;
      var rest := ReportHasWitness(doc, target, v, at, open + {s.ref});
      chain := Prepend(doc, node, rest, open);
    } else if LooksInside(doc, s, v, at, open) {
      var inside, step := RejectedPart(doc, s, v, at, open);
      RemainingOfPart(doc, s, step, open);
      var rest := ReportHasWitness(doc, inside, Child(v, step).value, at + [step], open);
      assert DescendsBy(node, rest[0], step);
      chain := Prepend(doc, node, rest, open);
    } else {
      chain := [node];
      ReportHere(doc, s, v, at, open);
    }
  }

  lemma Prepend(doc: Document, node: Node, rest: seq<Node>, open: set<string>) returns (chain: seq<Node>)
    requires IsDescent(doc, rest) && Descends(doc, node, rest[0])
    ensures IsDescent(doc, chain) && chain[0] == node && Last(chain) == Last(rest)
    ensures Opened(chain, open) == Opened(rest, OpenedBy(node, open))
  {
    chain := [node] + rest;
    DescentCons(doc, node, rest);
    assert chain[1..] == rest;
  }

  /** The property or element whose report is the report of the whole. */
  lemma RejectedPart(doc: Document, s: Schema, v: Json, at: Location, open: set<string>)
    returns (inside: Schema, step: Step)
    requires LooksInside(doc, s, v, at, open)
    ensures Child(v, step).Some? && SubSchema(s, step) == Some(inside)
    ensures Validate(doc, inside, Child(v, step).value, at + [step], open) == Validate(doc, s, v, at, open)
    ensures Validate(doc, s, v, at, open).Rejected?
  {
    if v.Object? {
      var names := SortedKeys(s.properties.Keys);
      var j := FirstRejectedProperty(doc, s, v, names, at, open);
      inside, step := s.properties[names[j]], Key(names[j]);
    } else {
      var j := FirstRejectedItem(doc, s, v, 0, at, open);
      inside, step := s.items.value, Index(j);
    }
  }

  lemma RemainingOfPart(doc: Document, s: Schema, step: Step, open: set<string>)
    requires s.ref == "" && SubSchema(s, step).Some?
    ensures SubSchema(s, step).value < s
    ensures Universe(doc, SubSchema(s, step).value) - open <= Universe(doc, s) - open
  {
  }

  ghost predicate FollowsRef(doc: Document, s: Schema, open: set<string>) {
    s.ref != "" && IsLocal(s.ref) && s.ref !in open && ResolveRef(doc.root, s.ref).Some?
  }

  /** The report comes from a property or an element. */
  ghost predicate LooksInside(doc: Document, s: Schema, v: Json, at: Location, open: set<string>) {
    && Reached(Node(s, v, at)) && Composition(s).None?
    && if EffectiveType(s) == "object" then
         && v.Object? && FirstMissing(s.required, v.fields).None?
         && ValidateProperties(doc, s, v, SortedKeys(s.properties.Keys), at, open).Rejected?
       else
         && EffectiveType(s) == "array" && v.Array? && s.items.Some?
         && ValidateItems(doc, s, v, 0, at, open).Rejected?
  }

  lemma ReportHere(doc: Document, s: Schema, v: Json, at: Location, open: set<string>)
    requires Validate(doc, s, v, at, open).Rejected?
    requires !FollowsRef(doc, s, open) && !LooksInside(doc, s, v, at, open)
    ensures var outcome := Validate(doc, s, v, at, open);
            && outcome.at == at
            && HasProblem(doc, Node(s, v, at), outcome.problem)
            && (outcome.problem.CyclicRef? ==> outcome.problem.ref in open)
  {
    if s.ref == "" && v.Object? {
      FirstMissingIs(s.required, v.fields);
      NoExtras(s, v.fields);
    }
  }

  lemma DescentCons(doc: Document, node: Node, rest: seq<Node>)
    requires IsDescent(doc, rest) && Descends(doc, node, rest[0])
    ensures IsDescent(doc, [node] + rest) && Last([node] + rest) == Last(rest)
  {
    var chain := [node] + rest;
    forall i {:trigger chain[i]} | 0 <= i < |chain| - 1
      ensures Descends(doc, chain[i], chain[i + 1])
    {
      if i > 0 {
        assert Descends(doc, rest[i - 1], rest[i - 1 + 1]);
      }
    }
  }

  lemma RestIsDescent(doc: Document, chain: seq<Node>)
    requires IsDescent(doc, chain) && |chain| > 1
    ensures IsDescent(doc, chain[1..]) && Last(chain[1..]) == Last(chain)
  {
    var rest := chain[1..];
    forall i {:trigger rest[i]} | 0 <= i < |rest| - 1
      ensures Descends(doc, rest[i], rest[i + 1])
    {
      assert rest[i] == chain[i + 1] && rest[i + 1] == chain[i + 2];
    }
  }

  /** A descent stays in the body: following the reported location from where the descent
      starts leads to the value it ends with. */
  lemma {:induction false} DescentFollowsBody(doc: Document, chain: seq<Node>)
    requires IsDescent(doc, chain)
    ensures chain[0].at <= Last(chain).at
    ensures At(chain[0].value, Last(chain).at[|chain[0].at|..]) == Some(Last(chain).value)
  {
    if |chain| > 1 {
      var rest := chain[1..];
      assert Descends(doc, chain[0], chain[1]);
      RestIsDescent(doc, chain);
      DescentFollowsBody(doc, rest);
      var path := Last(chain).at[|chain[0].at|..];
      if chain[0].schema.ref != "" {
      } else {
        var step :| DescendsBy(chain[0], chain[1], step);
        assert path[0] == step && path[1..] == Last(chain).at[|chain[1].at|..];
      }
    }
  }

  /** The same report, for a value that stands somewhere else. */
  function Moved(front: Location, outcome: Outcome): Outcome {
    match outcome
    case Accepted => Accepted
    case Rejected(at, problem) => Rejected(front + at, problem)
  }

  /** Where a value stands has no influence on the verdict; the location in the report just
      begins with it. */
  lemma {:induction false} ReportIsRelative(doc: Document, s: Schema, v: Json, front: Location, at: Location,
      open: set<string>)
    ensures Validate(doc, s, v, front + at, open) == Moved(front, Validate(doc, s, v, at, open))
    decreases Universe(doc, s) - open, s, 1
  {
    if FollowsRef(doc, s, open) {
      ResolveAddsNoRef(doc.root, s.ref);
      ReportIsRelative(doc, ResolveRef(doc.root, s.ref).value, v, front, at, open + {s.ref});
    } else if s.ref == "" {
      if v.Object? {
        MembersAreRelative(doc, s, v, front, at, open);
      } else if v.Array? && s.items.Some? {
        ItemsAreRelative(doc, s, v, 0, front, at, open);
      }
      WholeIsRelative(doc, s, v, front, at, open);
    }
  }

  lemma WholeIsRelative(doc: Document, s: Schema, v: Json, front: Location, at: Location, open: set<string>)
    requires s.ref == ""
    requires v.Object? ==>
               ValidateMembers(doc, s, v, front + at, open) == Moved(front, ValidateMembers(doc, s, v, at, open))
    requires v.Array? && s.items.Some? ==>
               ValidateItems(doc, s, v, 0, front + at, open) == Moved(front, ValidateItems(doc, s, v, 0, at, open))
    ensures Validate(doc, s, v, front + at, open) == Moved(front, Validate(doc, s, v, at, open))
  {
  }

  lemma {:induction false} MembersAreRelative(doc: Document, s: Schema, v: Json, front: Location, at: Location,
      open: set<string>)
    requires s.ref == "" && v.Object?
    ensures ValidateMembers(doc, s, v, front + at, open) == Moved(front, ValidateMembers(doc, s, v, at, open))
    decreases Universe(doc, s) - open, s, 0
  {
    PropertiesAreRelative(doc, s, v, SortedKeys(s.properties.Keys), front, at, open);
    RelativeMembers(doc, s, v, SortedKeys(s.properties.Keys), front, at, open);
  }

  lemma RelativeMembers(doc: Document, s: Schema, v: Json, names: seq<string>, front: Location, at: Location,
      open: set<string>)
    requires s.ref == "" && v.Object? && names == SortedKeys(s.properties.Keys)
    requires ValidateProperties(doc, s, v, names, front + at, open)
             == Moved(front, ValidateProperties(doc, s, v, names, at, open))
    ensures ValidateMembers(doc, s, v, front + at, open) == Moved(front, ValidateMembers(doc, s, v, at, open))
  {
  }

  lemma {:induction false} PropertiesAreRelative(doc: Document, s: Schema, v: Json, names: seq<string>,
      front: Location, at: Location, open: set<string>)
    requires s.ref == "" && v.Object? && forall i :: 0 <= i < |names| ==> names[i] in s.properties
    ensures ValidateProperties(doc, s, v, names, front + at, open)
            == Moved(front, ValidateProperties(doc, s, v, names, at, open))
    decreases Universe(doc, s) - open, s, 0, 0, |names|
  {
    if names != [] {
      if names[0] in v.fields {
        ReportIsRelative(doc, s.properties[names[0]], v.fields[names[0]], front, at + [Key(names[0])], open);
        assert front + at + [Key(names[0])] == front + (at + [Key(names[0])]);
      }
      PropertiesAreRelative(doc, s, v, names[1..], front, at, open);
    }
  }

  lemma {:induction false} ItemsAreRelative(doc: Document, s: Schema, v: Json, i: nat, front: Location, at: Location,
      open: set<string>)
    requires s.ref == "" && v.Array? && s.items.Some? && i <= |v.items|
    ensures ValidateItems(doc, s, v, i, front + at, open) == Moved(front, ValidateItems(doc, s, v, i, at, open))
    decreases Universe(doc, s) - open, s, 0, |v.items| - i
  {
    if i < |v.items| {
      ReportIsRelative(doc, s.items.value, v.items[i], front, at + [Index(i)], open);
      assert front + at + [Index(i)] == front + (at + [Index(i)]);
      ItemsAreRelative(doc, s, v, i + 1, front, at, open);
    }
  }

  /** The location in a report leads, in the response body itself, to a value that has the
      reported problem under the schema that a descent from the root pairs with it. */
  lemma ReportedPlaceIsInBody(doc: Document, s: Schema, v: Json) returns (schema: Schema)
    requires Validate(doc, s, v, [], {}).Rejected?
    ensures var outcome := Validate(doc, s, v, [], {});
            && At(v, outcome.at).Some?
            && HasProblem(doc, Node(schema, At(v, outcome.at).value, outcome.at), outcome.problem)
            && exists chain :: IsDescent(doc, chain) && chain[0] == Node(s, v, [])
                 && Last(chain) == Node(schema, At(v, outcome.at).value, outcome.at)
  {
    var chain := ReportHasWitness(doc, s, v, [], {});
    DescentFollowsBody(doc, chain);
    schema := Last(chain).schema;
    assert Last(chain).at[|chain[0].at|..] == Last(chain).at;
  }
}
