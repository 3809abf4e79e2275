/** The cycle guard, and what following references amounts to. */
module References {
  import opened Wrappers
  import opened Json
  import opened Schemas
  import opened Validation
  import opened Sorting
  import opened Diagnostics

  // ---------------------------------------------------------------- the guard

  /** The outcome blames a reference that is open only in the larger set. */
  predicate Blames(outcome: Outcome, open: set<string>, smaller: set<string>) {
    outcome.Rejected? && outcome.problem.CyclicRef? && outcome.problem.ref in open - smaller
  }

  /** Which references are open at the start changes an outcome in one way only: by a cycle
      reported at one of them. In particular a smaller set never turns an acceptance into a
      rejection. */
  lemma {:induction false} GuardOnlyBlamesOpenRefs(doc: Document, s: Schema, v: Json, at: Location,
      open: set<string>, smaller: set<string>)
    requires smaller <= open
    requires !Blames(Validate(doc, s, v, at, open), open, smaller)
    ensures Validate(doc, s, v, at, smaller) == Validate(doc, s, v, at, open)
    decreases Universe(doc, s) - open, s, 1, 0
  {
    if FollowsRef(doc, s, open) {
      ResolveAddsNoRef(doc.root, s.ref);
      assert open + {s.ref} - (smaller + {s.ref}) == open - smaller;
      GuardOnlyBlamesOpenRefs(doc, ResolveRef(doc.root, s.ref).value, v, at, open + {s.ref}, smaller + {s.ref});
    } else if Reached(Node(s, v, at)) && Composition(s).None? {
      if EffectiveType(s) == "object" && v.Object? {
        GuardOnMembers(doc, s, v, at, open, smaller);
      } else if EffectiveType(s) == "array" && v.Array? && s.items.Some? {
        GuardOnItems(doc, s, v, 0, at, open, smaller);
      }
    }
  }

  lemma {:induction false} GuardOnMembers(doc: Document, s: Schema, v: Json, at: Location, open: set<string>,
      smaller: set<string>)
    requires s.ref == "" && v.Object?
    requires smaller <= open
    requires !Blames(ValidateMembers(doc, s, v, at, open), open, smaller)
    ensures ValidateMembers(doc, s, v, at, smaller) == ValidateMembers(doc, s, v, at, open)
    decreases Universe(doc, s) - open, s, 0
  {
    if FirstMissing(s.required, v.fields).None? {
      GuardOnProperties(doc, s, v, SortedKeys(s.properties.Keys), at, open, smaller);
    }
  }

  lemma {:induction false} GuardOnProperties(doc: Document, s: Schema, v: Json, names: seq<string>, at: Location,
      open: set<string>, smaller: set<string>)
    requires s.ref == "" && v.Object? && forall i :: 0 <= i < |names| ==> names[i] in s.properties
    requires smaller <= open
    requires !Blames(ValidateProperties(doc, s, v, names, at, open), open, smaller)
    ensures ValidateProperties(doc, s, v, names, at, smaller) == ValidateProperties(doc, s, v, names, at, open)
    decreases Universe(doc, s) - open, s, 0, 0, |names|
  {
    if names != [] {
      if names[0] in v.fields {
        GuardOnlyBlamesOpenRefs(doc, s.properties[names[0]], v.fields[names[0]], at + [Key(names[0])], open, smaller);
      }
      if OfProperty(doc, s, v, names[0], at, open).Accepted? {
        GuardOnProperties(doc, s, v, names[1..], at, open, smaller);
      }
    }
  }

  lemma {:induction false} GuardOnItems(doc: Document, s: Schema, v: Json, i: nat, at: Location, open: set<string>,
      smaller: set<string>)
    requires s.ref == "" && v.Array? && s.items.Some? && i <= |v.items|
    requires smaller <= open
    requires !Blames(ValidateItems(doc, s, v, i, at, open), open, smaller)
    ensures ValidateItems(doc, s, v, i, at, smaller) == ValidateItems(doc, s, v, i, at, open)
    decreases Universe(doc, s) - open, s, 0, |v.items| - i
  {
    if i < |v.items| {
      GuardOnlyBlamesOpenRefs(doc, s.items.value, v.items[i], at + [Index(i)], open, smaller);
      if OfItem(doc, s, v, i, at, open).Accepted? {
        GuardOnItems(doc, s, v, i + 1, at, open, smaller);
      }
    }
  }

  // ---------------------------------------------------------------- inlining

  /** The references in the domain of `rank` are local and resolve, and what they point to
      only mentions references of a lower rank: the reference graph has no cycle. */
  ghost predicate Ranked(root: Json, rank: map<string, nat>) {
    forall ref :: ref in rank ==>
      && IsLocal(ref)
      && ResolveRef(root, ref).Some?
      && Below(rank, rank[ref], ResolveRef(root, ref).value)
  }

  ghost predicate Below(rank: map<string, nat>, bound: nat, s: Schema) {
    forall ref :: ref in WalkRefs(s) ==> ref in rank && rank[ref] < bound
  }

  /** The schema with every reference on the validator's way replaced by its target. The
      siblings of a reference disappear. */
  ghost function Inline(root: Json, rank: map<string, nat>, bound: nat, s: Schema): (flat: Schema)
    requires Ranked(root, rank) && Below(rank, bound, s)
    ensures WalkRefs(flat) == {} && flat.ref == ""
    decreases bound, s, 1
  {
    if s.ref != "" then Inline(root, rank, rank[s.ref], ResolveRef(root, s.ref).value)
    else
      var items := if s.items.Some? then Some(Inline(root, rank, bound, s.items.value)) else None;
      s.(properties := InlineProperties(root, rank, bound, s), items := items)
  }

  ghost function InlineProperties(root: Json, rank: map<string, nat>, bound: nat, s: Schema): (flat: map<string,
      Schema>)
    requires Ranked(root, rank) && Below(rank, bound, s) && s.ref == ""
    ensures flat.Keys == s.properties.Keys
    ensures forall k :: k in flat ==> WalkRefs(flat[k]) == {}
    decreases bound, s, 0
  {
    map k | k in s.properties :: Inline(root, rank, bound, s.properties[k])
  }

  /** Two schemas that differ at most inside their properties and items. */
  ghost predicate SameKeywords(s: Schema, s': Schema) {
    && s.ref == "" && s'.ref == ""
    && s'.nullable == s.nullable && s'.enum == s.enum && s'.required == s.required && s'.additional == s.additional
    && s'.properties.Keys == s.properties.Keys && (s'.items.Some? <==> s.items.Some?)
    && EffectiveType(s') == EffectiveType(s) && Composition(s') == Composition(s)
  }

  lemma KeywordsSurvive(s: Schema, properties: map<string, Schema>, items: Option<Schema>)
    requires s.ref == "" && properties.Keys == s.properties.Keys && (items.Some? <==> s.items.Some?)
    ensures SameKeywords(s, s.(properties := properties, items := items))
  {
    assert |properties| == |properties.Keys| && |s.properties| == |s.properties.Keys|;
  }

  lemma InlineKeepsKeywords(root: Json, rank: map<string, nat>, bound: nat, s: Schema)
    requires Ranked(root, rank) && Below(rank, bound, s) && s.ref == ""
    ensures SameKeywords(s, Inline(root, rank, bound, s))
  {
    var flat := Inline(root, rank, bound, s);
    KeywordsSurvive(s, flat.properties, flat.items);
  }

  lemma InlinedProperty(root: Json, rank: map<string, nat>, bound: nat, s: Schema, name: string)
    requires Ranked(root, rank) && Below(rank, bound, s) && s.ref == "" && name in s.properties
    ensures var flat := Inline(root, rank, bound, s);
            name in flat.properties && flat.properties[name] == Inline(root, rank, bound, s.properties[name])
  {
    var properties := InlineProperties(root, rank, bound, s);
    assert name in properties && properties[name] == Inline(root, rank, bound, s.properties[name]);
  }

  /** No open reference is among those still to come. */
  ghost predicate OpenAbove(rank: map<string, nat>, bound: nat, open: set<string>) {
    forall ref :: ref in open && ref in rank ==> rank[ref] >= bound
  }

  /** Following references is inlining: when the references reachable from a schema are
      local, resolvable and acyclic, the outcome, down to the reported place and problem,
      is that of the reference-free schema, which needs no document and no guard. */
  lemma {:induction false} FollowingIsInlining(doc: Document, flatDoc: Document, rank: map<string, nat>,
      bound: nat, s: Schema, v: Json, at: Location, open: set<string>, flatOpen: set<string>)
    requires flatDoc.floatFits == doc.floatFits
    requires Ranked(doc.root, rank) && Below(rank, bound, s) && OpenAbove(rank, bound, open)
    ensures Validate(doc, s, v, at, open) == Validate(flatDoc, Inline(doc.root, rank, bound, s), v, at, flatOpen)
    decreases bound, s, 2, 0
  {
    if s.ref != "" {
      FollowingIsInlining(
        doc, flatDoc, rank, rank[s.ref], ResolveRef(doc.root, s.ref).value, v, at, open + {s.ref}, flatOpen);
    } else {
      InlineKeepsKeywords(doc.root, rank, bound, s);
      if v.Object? {
        InliningMembers(doc, flatDoc, rank, bound, s, v, at, open, flatOpen);
      }
      if v.Array? && s.items.Some? {
        InliningItems(doc, flatDoc, rank, bound, s, v, 0, at, open, flatOpen);
      }
      OutcomesAgree(doc, s, open, flatDoc, Inline(doc.root, rank, bound, s), flatOpen, v, at);
    }
  }

  lemma OutcomesAgree(doc: Document, s: Schema, open: set<string>, doc': Document, s': Schema, open': set<string>,
      v: Json, at: Location)
    requires SameKeywords(s, s') && doc'.floatFits == doc.floatFits
    requires v.Object? ==> ValidateMembers(doc, s, v, at, open) == ValidateMembers(doc', s', v, at, open')
    requires v.Array? && s.items.Some? ==>
               ValidateItems(doc, s, v, 0, at, open) == ValidateItems(doc', s', v, 0, at, open')
    ensures Validate(doc, s, v, at, open) == Validate(doc', s', v, at, open')
  {
  }

  lemma {:induction false} InliningMembers(doc: Document, flatDoc: Document, rank: map<string, nat>, bound: nat,
      s: Schema, v: Json, at: Location, open: set<string>, flatOpen: set<string>)
    requires flatDoc.floatFits == doc.floatFits
    requires Ranked(doc.root, rank) && Below(rank, bound, s) && OpenAbove(rank, bound, open)
    requires s.ref == "" && v.Object?
    ensures var flat := Inline(doc.root, rank, bound, s);
            ValidateMembers(doc, s, v, at, open) == ValidateMembers(flatDoc, flat, v, at, flatOpen)
    decreases bound, s, 1, 0
  {
    InlineKeepsKeywords(doc.root, rank, bound, s);
    InliningProperties(doc, flatDoc, rank, bound, s, v, SortedKeys(s.properties.Keys), at, open, flatOpen);
    MembersAgree(doc, s, open, flatDoc, Inline(doc.root, rank, bound, s), flatOpen, v, at);
  }

  lemma MembersAgree(doc: Document, s: Schema, open: set<string>, doc': Document, s': Schema, open': set<string>,
      v: Json, at: Location)
    requires SameKeywords(s, s') && v.Object?
    requires var names := SortedKeys(s.properties.Keys);
             ValidateProperties(doc, s, v, names, at, open) == ValidateProperties(doc', s', v, names, at, open')
    ensures ValidateMembers(doc, s, v, at, open) == ValidateMembers(doc', s', v, at, open')
  {
    SameAdditional(s, s', v.fields);
  }

  lemma SameAdditional(s: Schema, s': Schema, fields: map<string, Json>)
    requires SameKeywords(s, s')
    ensures AdditionalProblem(s, fields) == AdditionalProblem(s', fields)
  {
    assert Extras(s, fields) == Extras(s', fields);
  }

  lemma {:induction false} InliningProperties(doc: Document, flatDoc: Document, rank: map<string, nat>, bound: nat,
      s: Schema, v: Json, names: seq<string>, at: Location, open: set<string>, flatOpen: set<string>)
    requires flatDoc.floatFits == doc.floatFits
    requires Ranked(doc.root, rank) && Below(rank, bound, s) && OpenAbove(rank, bound, open)
    requires s.ref == "" && v.Object? && forall i :: 0 <= i < |names| ==> names[i] in s.properties
    ensures var flat := Inline(doc.root, rank, bound, s);
            && (forall i :: 0 <= i < |names| ==> names[i] in flat.properties)
            && ValidateProperties(doc, s, v, names, at, open)
               == ValidateProperties(flatDoc, flat, v, names, at, flatOpen)
    decreases bound, s, 0, |names|
  {
    var flat := Inline(doc.root, rank, bound, s);
    assert flat.properties.Keys == s.properties.Keys;
    if names != [] {
      var name := names[0];
      if name in v.fields {
        InlinedProperty(doc.root, rank, bound, s, name);
        FollowingIsInlining(
          doc, flatDoc, rank, bound, s.properties[name], v.fields[name], at + [Key(name)], open, flatOpen);
      }
      InliningProperties(doc, flatDoc, rank, bound, s, v, names[1..], at, open, flatOpen);
    }
  }

  lemma {:induction false} InliningItems(doc: Document, flatDoc: Document, rank: map<string, nat>, bound: nat,
      s: Schema, v: Json, i: nat, at: Location, open: set<string>, flatOpen: set<string>)
    requires flatDoc.floatFits == doc.floatFits
    requires Ranked(doc.root, rank) && Below(rank, bound, s) && OpenAbove(rank, bound, open)
    requires s.ref == "" && v.Array? && s.items.Some? && i <= |v.items|
    ensures var flat := Inline(doc.root, rank, bound, s);
            && flat.items.Some?
            && ValidateItems(doc, s, v, i, at, open) == ValidateItems(flatDoc, flat, v, i, at, flatOpen)
    decreases bound, s, 0, |v.items| - i
  {
    if i < |v.items| {
      FollowingIsInlining(doc, flatDoc, rank, bound, s.items.value, v.items[i], at + [Index(i)], open, flatOpen);
      InliningItems(doc, flatDoc, rank, bound, s, v, i + 1, at, open, flatOpen);
    }
  }

  lemma RefFreeStep(doc: Document, a: Node, b: Node)
    requires Descends(doc, a, b) && WalkRefs(a.schema) == {}
    ensures WalkRefs(b.schema) == {}
  {
    var step :| DescendsBy(a, b, step);
    assert WalkRefs(b.schema) <= WalkRefs(a.schema);
  }

  /** Without references there is no problem with references. */
  lemma {:induction false} RefFreeDescent(doc: Document, chain: seq<Node>)
    requires IsDescent(doc, chain) && WalkRefs(chain[0].schema) == {}
    ensures Last(chain).schema.ref == ""
  {
    if |chain| > 1 {
      var rest := chain[1..];
      assert Descends(doc, chain[0], chain[0 + 1]);
      RestIsDescent(doc, chain);
      RefFreeStep(doc, chain[0], chain[1]);
      RefFreeDescent(doc, rest);
    }
  }

  /** Acyclic, local and resolvable references are always resolved: no value is turned down
      for a reference. */
  lemma RankedNeverBlamesRefs(doc: Document, rank: map<string, nat>, bound: nat, s: Schema, v: Json, at: Location)
    requires Ranked(doc.root, rank) && Below(rank, bound, s)
    ensures var outcome := Validate(doc, s, v, at, {});
            outcome.Rejected? ==>
              && !outcome.problem.CyclicRef? && !outcome.problem.UnresolvedRef? && !outcome.problem.NonLocalRef?
  {
    var flat := Inline(doc.root, rank, bound, s);
    FollowingIsInlining(doc, doc, rank, bound, s, v, at, {}, {});
    if Validate(doc, flat, v, at, {}).Rejected? {
      var chain := ReportHasWitness(doc, flat, v, at, {});
      RefFreeDescent(doc, chain);
    }
  }
}
