/** The load-time scan for unsupported features, and what its silence promises. */
module Scan {
  import opened Json
  import opened Schemas
  import opened Validation

  // ---------------------------------------------------------------- counting

  /** An object node has a feature, whatever the node is used for. */
  predicate Marks(f: Feature, v: Json) {
    && v.Object?
    && match f
       case NonLocalRefs => "$ref" in v.fields && v.fields["$ref"].String? && !IsLocal(v.fields["$ref"].s)
       case OneOf => "oneOf" in v.fields
       case AnyOf => "anyOf" in v.fields
       case AllOf => "allOf" in v.fields
       case Not => "not" in v.fields
       case AdditionalSchema => "additionalProperties" in v.fields && !v.fields["additionalProperties"].Bool?
  }

  ghost function KeySteps(names: set<string>): set<Step> {
    set name | name in names :: Key(name)
  }

  ghost function IndexSteps(lo: nat, hi: nat): set<Step> {
    set i: nat | lo <= i < hi :: Index(i)
  }

  /** The steps that lead to the children of a value. */
  ghost function Steps(v: Json): set<Step> {
    match v
    case Object(fields) => KeySteps(fields.Keys)
    case Array(items) => IndexSteps(0, |items|)
    case _ => {}
  }

  ghost function Own(f: Feature, v: Json): nat {
    if Marks(f, v) then 1 else 0
  }

  /** What the scan adds to a count while it visits a value. */
  ghost function Tally(f: Feature, v: Json): nat
    decreases v, 1
  {
    Own(f, v) + Sum(Tallies(f, v, Steps(v)))
  }

  /** The same for some of the children, one by one. */
  ghost function Tallies(f: Feature, v: Json, steps: set<Step>): map<Step, nat>
    requires steps <= Steps(v)
    decreases v, 0
  {
    map step | step in steps :: Tally(f, Child(v, step).value)
  }

  ghost function Sum(m: map<Step, nat>): nat
    decreases |m|
  {
    if m == map[] then 0
    else
      var step := Pick(m);
      m[step] + Sum(m - {step})
  }

  ghost function Pick(m: map<Step, nat>): (step: Step)
    requires m != map[]
    ensures step in m
  {
    var step :| step in m;
    step
  }

  /** The order of the additions does not matter. */
  lemma {:induction false} SumInAnyOrder(m: map<Step, nat>, step: Step)
    requires step in m
    ensures Sum(m) == m[step] + Sum(m - {step})
    decreases |m|
  {
    var picked := Pick(m);
    if picked != step {
      SumInAnyOrder(m - {picked}, step);
      SumInAnyOrder(m - {step}, picked);
      assert m - {picked} - {step} == m - {step} - {picked};
    }
  }

  /** What is counted below some children, whichever of them is visited first. */
  ghost function TallyParts(f: Feature, v: Json, steps: set<Step>): nat
    requires steps <= Steps(v)
  {
    Sum(Tallies(f, v, steps))
  }

  lemma TalliesWithout(f: Feature, v: Json, steps: set<Step>, step: Step)
    requires step in steps && steps <= Steps(v)
    ensures Tallies(f, v, steps) - {step} == Tallies(f, v, steps - {step})
    ensures step in Tallies(f, v, steps) && Tallies(f, v, steps)[step] == Tally(f, Child(v, step).value)
  {
  }

  lemma TallyInAnyOrder(f: Feature, v: Json, steps: set<Step>, step: Step)
    requires step in steps && steps <= Steps(v)
    ensures TallyParts(f, v, steps) == Tally(f, Child(v, step).value) + TallyParts(f, v, steps - {step})
  {
    TalliesWithout(f, v, steps, step);
    SumInAnyOrder(Tallies(f, v, steps), step);
  }

  lemma {:induction false} NothingInParts(f: Feature, v: Json, steps: set<Step>)
    requires steps <= Steps(v) && forall step :: step in steps ==> Tally(f, Child(v, step).value) == 0
    ensures TallyParts(f, v, steps) == 0
    decreases |steps|
  {
    if steps == {} {
      assert Tallies(f, v, steps) == map[];
    } else {
      var step :| step in steps;
      TallyInAnyOrder(f, v, steps, step);
      NothingInParts(f, v, steps - {step});
    }
  }

  // ---------------------------------------------------------------- the sites of a feature

  ghost function Locations(v: Json): set<Location> {
    {[]} + match v
           case Object(fields) => (set k, l | k in fields && l in Locations(fields[k]) :: [Key(k)] + l)
           case Array(items) => (set i: nat, l | 0 <= i < |items| && l in Locations(items[i]) :: [Index(i)] + l)
           case _ => {}
  }

  lemma {:induction false} LocationsAreAll(v: Json, loc: Location)
    ensures loc in Locations(v) <==> At(v, loc).Some?
    decreases |loc|
  {
    if loc != [] {
      var child := Child(v, loc[0]);
      assert loc == [loc[0]] + loc[1..];
      if child.Some? {
        LocationsAreAll(child.value, loc[1..]);
      }
    }
  }

  /** Where in a value the nodes with a feature are. */
  ghost function Sites(f: Feature, v: Json): set<Location> {
    set loc | loc in Locations(v) && At(v, loc).Some? && Marks(f, At(v, loc).value)
  }

  /** The sites below some children, each child's by its own step. */
  ghost function PartSites(f: Feature, v: Json, steps: set<Step>): map<Step, set<Location>>
    requires steps <= Steps(v)
  {
    map step | step in steps :: Sites(f, Child(v, step).value)
  }

  ghost function Spread(parts: map<Step, set<Location>>): set<Location> {
    set step, loc | step in parts && loc in parts[step] :: [step] + loc
  }

  ghost function Below(step: Step, locs: set<Location>): set<Location> {
    set loc | loc in locs :: [step] + loc
  }

  lemma {:induction false} BelowSize(step: Step, locs: set<Location>)
    ensures |Below(step, locs)| == |locs|
    decreases |locs|
  {
    if locs != {} {
      var loc :| loc in locs;
      BelowSize(step, locs - {loc});
      assert ([step] + loc)[1..] == loc;
      assert Below(step, locs - {loc}) == Below(step, locs) - {[step] + loc} by {
        forall other | other in locs - {loc}
          ensures [step] + other != [step] + loc
        {
          assert ([step] + other)[1..] == other;
        }
      }
    }
  }

  lemma InSpread(parts: map<Step, set<Location>>, loc: Location)
    ensures loc in Spread(parts) <==> loc != [] && loc[0] in parts && loc[1..] in parts[loc[0]]
  {
    if loc in Spread(parts) {
      var step, rest :| step in parts && rest in parts[step] && loc == [step] + rest;
      assert rest == loc[1..];
    } else if loc != [] {
      assert loc == [loc[0]] + loc[1..];
    }
  }

  lemma SpreadSplit(parts: map<Step, set<Location>>, step: Step)
    requires step in parts
    ensures |Spread(parts)| == |parts[step]| + |Spread(parts - {step})|
  {
    var below, others := Below(step, parts[step]), Spread(parts - {step});
    BelowSize(step, parts[step]);
    forall loc
      ensures loc in Spread(parts) <==> loc in below + others
      ensures !(loc in below && loc in others)
    {
      InSpread(parts, loc);
      InSpread(parts - {step}, loc);
      if loc != [] {
        assert loc == [loc[0]] + loc[1..];
      }
    }
    assert Spread(parts) == below + others && below !! others;
  }

  lemma SitesByPart(f: Feature, v: Json)
    ensures Sites(f, v) == (if Marks(f, v) then {[]} else {}) + Spread(PartSites(f, v, Steps(v)))
  {
    var parts := PartSites(f, v, Steps(v));
    forall loc
      ensures loc in Sites(f, v) <==> loc in (if Marks(f, v) then {[]} else {}) + Spread(parts)
    {
      LocationsAreAll(v, loc);
      InSpread(parts, loc);
      if loc != [] && loc[0] in Steps(v) {
        LocationsAreAll(Child(v, loc[0]).value, loc[1..]);
      }
    }
  }

  /** Each count is the number of nodes with that feature. */
  lemma {:induction false} TallyCountsSites(f: Feature, v: Json)
    ensures Tally(f, v) == |Sites(f, v)|
    decreases v, 1
  {
    SitesByPart(f, v);
    TallyCountsPartSites(f, v, Steps(v));
    InSpread(PartSites(f, v, Steps(v)), []);
    assert (if Marks(f, v) then {[]} else {}) !! Spread(PartSites(f, v, Steps(v)));
  }

  lemma NoParts(f: Feature, v: Json)
    ensures TallyParts(f, v, {}) == 0 && Spread(PartSites(f, v, {})) == {}
  {
    assert Tallies(f, v, {}) == map[];
  }

  /** One part more adds its own sites. */
  lemma PartSitesSplit(f: Feature, v: Json, steps: set<Step>, step: Step)
    requires step in steps && steps <= Steps(v)
    ensures |Spread(PartSites(f, v, steps))|
            == |Sites(f, Child(v, step).value)| + |Spread(PartSites(f, v, steps - {step}))|
  {
    SpreadSplit(PartSites(f, v, steps), step);
    assert PartSites(f, v, steps) - {step} == PartSites(f, v, steps - {step});
  }

  lemma {:induction false} TallyCountsPartSites(f: Feature, v: Json, steps: set<Step>)
    requires steps <= Steps(v)
    ensures TallyParts(f, v, steps) == |Spread(PartSites(f, v, steps))|
    decreases v, 0, |steps|
  {
    if steps == {} {
      NoParts(f, v);
    } else {
      var step :| step in steps;
      TallyInAnyOrder(f, v, steps, step);
      TallyCountsSites(f, Child(v, step).value);
      TallyCountsPartSites(f, v, steps - {step});
      PartSitesSplit(f, v, steps, step);
    }
  }

  // ---------------------------------------------------------------- the program

  function CountOf(counts: map<Feature, nat>, f: Feature): nat {
    if f in counts then counts[f] else 0
  }

  /** The shared map of counts. */
  class FeatureCounts {
    var counts: map<Feature, nat>

    constructor ()
      ensures counts == map[]
    {
      counts := map[];
    }

    method Increment(f: Feature)
      modifies this
      ensures counts == old(counts)[f := CountOf(old(counts), f) + 1]
    {
      counts := counts[f := CountOf(counts, f) + 1];
    }
  }

  /** The features that the scan looks for; `not` is not among them. */
  const SCANNED: seq<Feature> := [NonLocalRefs, AllOf, OneOf, AnyOf, AdditionalSchema]

  ghost predicate Added(before: map<Feature, nat>, after: map<Feature, nat>, f: Feature, more: int) {
    CountOf(after, f) == CountOf(before, f) + if f == Not then 0 else more
  }

  method ScanNode(v: Json, state: FeatureCounts)
    modifies state
    ensures forall f :: Added(old(state.counts), state.counts, f, Own(f, v))
  {
    for i := 0 to |SCANNED|
      invariant forall f :: Added(old(state.counts), state.counts, f, if f in SCANNED[..i] then Own(f, v) else 0)
    {
      if Marks(SCANNED[i], v) {
        state.Increment(SCANNED[i]);
      }
      assert SCANNED[..i + 1] == SCANNED[..i] + [SCANNED[i]];
    }
    assert SCANNED[..|SCANNED|] == SCANNED;
    forall f: Feature
      ensures f in SCANNED <==> f != Not
    {
      assert f == NonLocalRefs || f == AllOf || f == OneOf || f == AnyOf || f == AdditionalSchema || f == Not;
    }
  }

  /** `scanUnsupportedFeatureValue`: the members of an object are visited in the arbitrary
      order of map iteration. */
  method ScanValue(v: Json, state: FeatureCounts)
    modifies state
    ensures forall f :: Added(old(state.counts), state.counts, f, Tally(f, v))
    decreases v, 1
  {
    ScanNode(v, state);
    if v.Object? {
      ScanMembers(v, state);
    } else if v.Array? {
      ScanElements(v, state);
    } else {
      assert forall f :: Tallies(f, v, Steps(v)) == map[];
    }
    assert forall f :: Tally(f, v) == Own(f, v) + TallyParts(f, v, Steps(v));
  }

  method ScanMembers(v: Json, state: FeatureCounts)
    requires v.Object?
    modifies state
    ensures forall f :: Added(old(state.counts), state.counts, f, TallyParts(f, v, Steps(v)))
    decreases v, 0
  {
    var rest := v.fields.Keys;
    while rest != {}
      invariant rest <= v.fields.Keys
      invariant forall f :: Added(old(state.counts), state.counts, f,
                                  TallyParts(f, v, Steps(v)) - TallyParts(f, v, KeySteps(rest)))
    {
      var name :| name in rest;
      ScanValue(v.fields[name], state);
      forall f
        ensures TallyParts(f, v, KeySteps(rest)) == Tally(f, v.fields[name]) + TallyParts(f, v, KeySteps(rest - {name}))
      {
        TallyInAnyOrder(f, v, KeySteps(rest), Key(name));
        assert KeySteps(rest) - {Key(name)} == KeySteps(rest - {name});
      }
      rest := rest - {name};
    }
    assert KeySteps(rest) == {};
    assert forall f :: Tallies(f, v, {}) == map[];
  }

  method ScanElements(v: Json, state: FeatureCounts)
    requires v.Array?
    modifies state
    ensures forall f :: Added(old(state.counts), state.counts, f, TallyParts(f, v, Steps(v)))
    decreases v, 0
  {
    for i := 0 to |v.items|
      invariant forall f :: Added(old(state.counts), state.counts, f,
                                  TallyParts(f, v, Steps(v)) - TallyParts(f, v, IndexSteps(i, |v.items|)))
    {
      ScanValue(v.items[i], state);
      forall f
        ensures TallyParts(f, v, IndexSteps(i, |v.items|))
                == Tally(f, v.items[i]) + TallyParts(f, v, IndexSteps(i + 1, |v.items|))
      {
        TallyInAnyOrder(f, v, IndexSteps(i, |v.items|), Index(i));
        assert IndexSteps(i, |v.items|) - {Index(i)} == IndexSteps(i + 1, |v.items|);
      }
    }
    assert forall f :: Tallies(f, v, {}) == map[];
  }
}
