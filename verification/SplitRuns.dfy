/** Commands that run at the same time. Each has two critical sections, and anything else may
    happen in between: configure asks the manager for its judgement and then stores the rule;
    load and unload read whether a rule is stored and then replace the contract. */
module SplitRuns {
  import opened Wrappers
  import opened Text
  import opened Json
  import opened Routes
  import opened Stores
  import opened Server
  import opened Contracts
  import opened ContractPaths
  import opened Control
  import opened SmallContracts
  import Runs
  import Verdicts

  /** A critical section: one half of a command, or an event that has only one. A second half
      names the event that was its first half; each carries what it saw or resulted in. */
  datatype Half =
    | Judge(rule: ResponseRule, override: Override, consulted: Option<Active>,
        judged: Result<seq<Warning>, OperationError>)
    | StoreRule(judge: nat)
    | ReadFlag(behaviorActive: bool)
    | SwapLoaded(read: nat, command: LoadCommand, files: Files, loaded: Result<Active, OperationError>)
    | SwapNone(read: nat, force: bool, unloaded: Result<Option<Active>, OperationError>)
    | Single(event: Runs.Event)
  {
    predicate Forces() {
      (SwapLoaded? && command.force) || (SwapNone? && force)
    }

    /** Replaces the active contract. */
    predicate Swaps() {
      (SwapLoaded? && loaded.Success?) || (SwapNone? && unloaded.Success?)
    }
  }

  /** The world of whole commands, and the contract that was consulted about the rule in
      force. */
  datatype World = World(base: Runs.World, consulted: Option<Active>)
  {
    function Rule(): Option<ResponseRule> {
      base.Rule()
    }

    function Contract(): Option<Active> {
      base.Contract()
    }
  }

  /** The event that a second half names is a first half of the right kind. */
  predicate IsJudged(front: seq<Half>, judge: nat) {
    judge < |front| && front[judge].Judge? && front[judge].judged.Success?
  }

  predicate IsRead(front: seq<Half>, read: nat) {
    read < |front| && front[read].ReadFlag?
  }

  /** The whole event whose effect a half has: a command has its effect in its second half. */
  function Effect(front: seq<Half>, e: Half): Option<Runs.Event> {
    match e
    case Judge(_, _, _, _) => None
    case StoreRule(judge) =>
      if IsJudged(front, judge)
      then Some(Runs.Configure(front[judge].rule, front[judge].override, front[judge].judged))
      else None
    case ReadFlag(_) => None
    case SwapLoaded(_, command, files, result) => Some(Runs.LoadFile(command, files, result))
    case SwapNone(_, force, result) => Some(Runs.Unload(force, result))
    case Single(event) => Some(event)
  }

  function Step(front: seq<Half>, w: World, e: Half): World {
    var effect := Effect(front, e);
    if effect.None? then w
    else World(Runs.Step(w.base, effect.value), if e.StoreRule? then front[e.judge].consulted else w.consulted)
  }

  /** The event can happen now: what it saw is what there is. */
  ghost predicate Possible(front: seq<Half>, w: World, e: Half) {
    match e
    case Judge(_, _, consulted, _) => consulted == w.Contract()
    case StoreRule(judge) => IsJudged(front, judge)
    case ReadFlag(behaviorActive) => behaviorActive == w.Rule().Some?
    case SwapLoaded(read, _, _, _) => IsRead(front, read)
    case SwapNone(read, force, result) =>
      IsRead(front, read) && result == UnloadContract(w.Contract(), force, front[read].behaviorActive)
    case Single(event) => !event.Configure? && !event.LoadFile? && !event.Unload?
  }

  /** Its result is the one that the plane gives, for what the command saw. */
  ghost predicate Answered(setup: Setup, front: seq<Half>, e: Half) {
    && (e.Judge? ==> e.judged == AdmitRule(setup, e.consulted, e.rule, e.override))
    && (e.SwapLoaded? && IsRead(front, e.read) ==>
          e.loaded == LoadContract(setup.root, e.files, setup.floatFits, e.command, front[e.read].behaviorActive))
    && (e.Single? && e.event.Deliver? ==> e.event.delivered == SendEvent(setup.hasSender, e.event.sent))
  }

  ghost predicate AllAnswered(setup: Setup, events: seq<Half>) {
    forall i {:trigger events[i]} :: 0 <= i < |events| ==> Answered(setup, events[..i], events[i])
  }

  function Run(start: World, events: seq<Half>): World {
    if events == [] then start
    else Step(events[..|events| - 1], Run(start, events[..|events| - 1]), events[|events| - 1])
  }

  ghost predicate IsRun(start: World, events: seq<Half>) {
    events != [] ==>
      var front := events[..|events| - 1];
      IsRun(start, front) && Possible(front, Run(start, front), events[|events| - 1])
  }

  /** The world in which event number `i` happens. */
  function Before(start: World, events: seq<Half>, i: nat): World
    requires i <= |events|
  {
    Run(start, events[..i])
  }

  lemma {:induction false} PrefixIsRun(start: World, events: seq<Half>, n: nat)
    requires IsRun(start, events) && n <= |events|
    ensures IsRun(start, events[..n])
    decreases |events|
  {
    if n < |events| {
      var front := events[..|events| - 1];
      assert front[..n] == events[..n];
      PrefixIsRun(start, front, n);
    } else {
      assert events[..n] == events;
    }
  }

  lemma EventWasPossible(start: World, events: seq<Half>, i: nat)
    requires IsRun(start, events) && i < |events|
    ensures Possible(events[..i], Before(start, events, i), events[i])
  {
    PrefixIsRun(start, events, i + 1);
    assert events[..i + 1][..i] == events[..i];
  }

  lemma NextBefore(start: World, events: seq<Half>, i: nat)
    requires i < |events|
    ensures Before(start, events, i + 1) == Step(events[..i], Before(start, events, i), events[i])
  {
    assert events[..i + 1][..i] == events[..i];
  }

  // ---------------------------------------------------------------- whole commands

  /** The effects of a run, in their order, as events of whole commands. */
  function Effects(events: seq<Half>): seq<Runs.Event> {
    if events == [] then []
    else
      var front, last := events[..|events| - 1], events[|events| - 1];
      Effects(front) + if Effect(front, last).Some? then [Effect(front, last).value] else []
  }

  /** However commands overlap, the world is the one that their effects make. What holds of
      every sequence of events, like the results on the logs, holds here too. */
  lemma {:induction false} EffectsMakeTheWorld(start: World, events: seq<Half>)
    ensures Run(start, events).base == Runs.Run(start.base, Effects(events))
  {
    if events != [] {
      var front, last := events[..|events| - 1], events[|events| - 1];
      EffectsMakeTheWorld(start, front);
      if Effect(front, last).Some? {
        assert Effects(events)[..|Effects(events)| - 1] == Effects(front);
      } else {
        assert Effects(events) == Effects(front);
      }
    }
  }

  /** However commands overlap, both logs are what was recorded since the last reset, and each
      observation describes a rule that was stored. */
  lemma OverlapKeepsLogs(start: World, events: seq<Half>, o: Observation) returns (i: int, rule: ResponseRule)
    requires Runs.IsStart(start.base)
    ensures var store, effects := Run(start, events).base.plane.store, Effects(events);
            && store.observations == Runs.Recorded(start.base, effects, Runs.SinceReset(effects))
            && store.deliveries == Runs.Delivered(effects, Runs.SinceReset(effects))
            && (o in store.observations ==> Runs.StoresRule(effects, i, rule) && Runs.Describes(o, rule))
  {
    var effects := Effects(events);
    EffectsMakeTheWorld(start, events);
    Runs.LogsSinceReset(start.base, effects);
    i, rule := -1, ResponseRule("", "", "", 0, "", "");
    if o in Run(start, events).base.plane.store.observations {
      i, rule := Runs.ObservationsDescribeRules(start.base, effects, o);
    }
  }

  /** The halves of a whole event, with nothing in between, from position `n` on. */
  function Halves(n: nat, w: Runs.World, e: Runs.Event): seq<Half> {
    match e
    case Configure(rule, override, result) =>
      [Judge(rule, override, w.Contract(), result)] + if result.Success? then [StoreRule(n)] else []
    case LoadFile(command, files, result) => [ReadFlag(w.Rule().Some?), SwapLoaded(n, command, files, result)]
    case Unload(force, result) => [ReadFlag(w.Rule().Some?), SwapNone(n, force, result)]
    case _ => [Single(e)]
  }

  function Expand(start: Runs.World, events: seq<Runs.Event>): seq<Half> {
    if events == [] then []
    else
      var front, last := events[..|events| - 1], events[|events| - 1];
      Expand(start, front) + Halves(|Expand(start, front)|, Runs.Run(start, front), last)
  }

  // ---------------------------------------------------------------- a discipline

  /** No contract was replaced while a judged rule waited to be stored. */
  predicate HasFreshJudgement(front: seq<Half>, e: Half) {
    e.StoreRule? ==> forall k :: e.judge < k < |front| ==> !front[k].Swaps()
  }

  /** No rule was stored between the read of the flag and the swap it permits. */
  predicate HasFreshFlag(front: seq<Half>, e: Half) {
    && (e.SwapLoaded? ==> forall k :: e.read < k < |front| ==> !front[k].StoreRule?)
    && (e.SwapNone? ==> forall k :: e.read < k < |front| ==> !front[k].StoreRule?)
  }

  predicate JudgementsAreFresh(events: seq<Half>) {
    forall i {:trigger events[i]} :: 0 <= i < |events| ==> HasFreshJudgement(events[..i], events[i])
  }

  predicate FlagsAreFresh(events: seq<Half>) {
    forall i {:trigger events[i]} :: 0 <= i < |events| ==> HasFreshFlag(events[..i], events[i])
  }

  /** A run of real commands under the discipline. */
  ghost predicate IsDisciplined(setup: Setup, start: World, events: seq<Half>) {
    IsRun(start, events) && AllAnswered(setup, events) && JudgementsAreFresh(events) && FlagsAreFresh(events)
  }

  lemma PrefixIsDisciplined(setup: Setup, start: World, events: seq<Half>, n: nat)
    requires IsDisciplined(setup, start, events) && n <= |events|
    ensures IsDisciplined(setup, start, events[..n])
  {
    PrefixIsRun(start, events, n);
    var front := events[..n];
    forall i {:trigger front[i]} | 0 <= i < n
      ensures Answered(setup, front[..i], front[i])
      ensures HasFreshJudgement(front[..i], front[i]) && HasFreshFlag(front[..i], front[i])
    {
      assert front[..i] == events[..i] && front[i] == events[i];
    }
  }

  lemma OneMore(start: World, front: seq<Half>, e: Half)
    ensures Run(start, front + [e]) == Step(front, Run(start, front), e)
    ensures IsRun(start, front + [e]) <==> IsRun(start, front) && Possible(front, Run(start, front), e)
  {
    assert (front + [e])[..|front + [e]| - 1] == front;
  }

  lemma OneMoreDisciplined(setup: Setup, start: World, front: seq<Half>, e: Half)
    requires IsDisciplined(setup, start, front) && Possible(front, Run(start, front), e)
    requires Answered(setup, front, e) && HasFreshJudgement(front, e) && HasFreshFlag(front, e)
    ensures IsDisciplined(setup, start, front + [e])
  {
    OneMore(start, front, e);
    var events := front + [e];
    forall i {:trigger events[i]} | 0 <= i < |events|
      ensures Answered(setup, events[..i], events[i])
      ensures HasFreshJudgement(events[..i], events[i]) && HasFreshFlag(events[..i], events[i])
    {
      if i < |front| {
        assert events[..i] == front[..i] && events[i] == front[i];
      } else {
        assert events[..i] == front;
      }
    }
  }

  lemma FirstHalf(setup: Setup, front: seq<Half>, w: World, e: Runs.Event)
    requires Runs.Possible(setup, w.base, e)
    ensures var halves := Halves(|front|, w.base, e);
            && Possible(front, w, halves[0]) && Answered(setup, front, halves[0])
            && HasFreshJudgement(front, halves[0]) && HasFreshFlag(front, halves[0])
            && Step(front, w, halves[0]).base == if |halves| > 1 then w.base else Runs.Step(w.base, e)
  {
  }

  lemma SecondHalf(setup: Setup, front: seq<Half>, w: World, e: Runs.Event)
    requires Runs.Possible(setup, w.base, e) && |Halves(|front|, w.base, e)| > 1
    ensures var halves := Halves(|front|, w.base, e);
            var middle := front + [halves[0]];
            && Possible(middle, w, halves[1]) && Answered(setup, middle, halves[1])
            && HasFreshJudgement(middle, halves[1]) && HasFreshFlag(middle, halves[1])
            && Step(middle, w, halves[1]).base == Runs.Step(w.base, e)
            && Step(front, w, halves[0]) == w
  {
  }

  /** One whole event, taken apart. */
  lemma HalvesAreDisciplined(setup: Setup, start: World, front: seq<Half>, w: Runs.World, e: Runs.Event)
    requires IsDisciplined(setup, start, front) && Run(start, front).base == w && Runs.Possible(setup, w, e)
    ensures var events := front + Halves(|front|, w, e);
            IsDisciplined(setup, start, events) && Run(start, events).base == Runs.Step(w, e)
  {
    var halves := Halves(|front|, w, e);
    FirstHalf(setup, front, Run(start, front), e);
    OneMore(start, front, halves[0]);
    OneMoreDisciplined(setup, start, front, halves[0]);
    if |halves| > 1 {
      var middle := front + [halves[0]];
      SecondHalf(setup, front, Run(start, front), e);
      OneMore(start, middle, halves[1]);
      OneMoreDisciplined(setup, start, middle, halves[1]);
      assert middle + [halves[1]] == front + halves;
    } else {
      assert halves == [halves[0]];
    }
  }

  /** Every run of whole commands is a run of halves under the discipline, which ends in the
      same world. */
  lemma {:induction false} WholeCommandsAreDisciplined(setup: Setup, start: World, events: seq<Runs.Event>)
    requires Runs.IsRun(setup, start.base, events)
    ensures var halves := Expand(start.base, events);
            IsDisciplined(setup, start, halves) && Run(start, halves).base == Runs.Run(start.base, events)
  {
    if events != [] {
      var front, last := events[..|events| - 1], events[|events| - 1];
      WholeCommandsAreDisciplined(setup, start, front);
      HalvesAreDisciplined(setup, start, Expand(start.base, front), Runs.Run(start.base, front), last);
    }
  }

  // ---------------------------------------------------------------- provenance, step by step

  /** The contract that was consulted about the rule in force is the active one. */
  ghost predicate Belongs(w: World) {
    w.Rule().Some? ==> w.consulted == w.Contract()
  }

  /** A store is harmless if the judging contract is still active; a swap, if no rule is
      stored or it changes nothing. */
  ghost predicate IsHarmless(front: seq<Half>, w: World, e: Half) {
    && (e.StoreRule? && IsJudged(front, e.judge) ==> front[e.judge].consulted == w.Contract())
    && (e.Swaps() ==> w.Rule().None? || w.Contract() == if e.SwapLoaded? then Some(e.loaded.value) else None)
  }

  lemma StepKeepsBelonging(front: seq<Half>, w: World, e: Half)
    requires Belongs(w) && Possible(front, w, e)
    ensures Belongs(Step(front, w, e)) <==> IsHarmless(front, w, e)
  {
  }

  ghost predicate AlwaysBelongs(start: World, events: seq<Half>) {
    forall i :: 0 <= i <= |events| ==> Belongs(Before(start, events, i))
  }

  ghost predicate AlwaysHarmless(start: World, events: seq<Half>) {
    forall i :: 0 <= i < |events| ==> IsHarmless(events[..i], Before(start, events, i), events[i])
  }

  lemma EventKeepsBelonging(start: World, events: seq<Half>, i: nat)
    requires IsRun(start, events) && i < |events| && Belongs(Before(start, events, i))
    ensures Belongs(Before(start, events, i + 1)) <==>
            IsHarmless(events[..i], Before(start, events, i), events[i])
  {
    NextBefore(start, events, i);
    EventWasPossible(start, events, i);
    StepKeepsBelonging(events[..i], Before(start, events, i), events[i]);
  }

  lemma {:induction false} HarmlessBelongs(start: World, events: seq<Half>, n: nat)
    requires Belongs(start) && IsRun(start, events) && AlwaysHarmless(start, events) && n <= |events|
    ensures Belongs(Before(start, events, n))
    decreases n
  {
    if n > 0 {
      HarmlessBelongs(start, events, n - 1);
      EventKeepsBelonging(start, events, n - 1);
    }
  }

  lemma BelongingIsHarmless(start: World, events: seq<Half>, i: nat)
    requires IsRun(start, events) && AlwaysBelongs(start, events) && i < |events|
    ensures IsHarmless(events[..i], Before(start, events, i), events[i])
  {
    assert Belongs(Before(start, events, i)) && Belongs(Before(start, events, i + 1));
    EventKeepsBelonging(start, events, i);
  }

  /** Exactly when every rule in force, all through a run, belongs to the active contract:
      when each single event was harmless where it happened. */
  lemma BelongsThroughout(start: World, events: seq<Half>)
    requires Belongs(start) && IsRun(start, events)
    ensures AlwaysBelongs(start, events) <==> AlwaysHarmless(start, events)
  {
    if AlwaysHarmless(start, events) {
      forall n | 0 <= n <= |events|
        ensures Belongs(Before(start, events, n))
      {
        HarmlessBelongs(start, events, n);
      }
    }
    if AlwaysBelongs(start, events) {
      forall i | 0 <= i < |events|
        ensures IsHarmless(events[..i], Before(start, events, i), events[i])
      {
        BelongingIsHarmless(start, events, i);
      }
    }
  }

  // ---------------------------------------------------------------- the discipline suffices

  lemma {:induction false} SameContract(start: World, events: seq<Half>, lo: nat, hi: nat)
    requires IsRun(start, events)
    requires lo <= hi <= |events| && forall k :: lo <= k < hi ==> !events[k].Swaps()
    ensures Before(start, events, hi).Contract() == Before(start, events, lo).Contract()
    decreases hi
  {
    if lo < hi {
      NextBefore(start, events, hi - 1);
      EventWasPossible(start, events, hi - 1);
      SameContract(start, events, lo, hi - 1);
    }
  }

  lemma {:induction false} StaysEmpty(start: World, events: seq<Half>, lo: nat, hi: nat)
    requires IsRun(start, events)
    requires lo <= hi <= |events| && forall k :: lo <= k < hi ==> !events[k].StoreRule?
    requires Before(start, events, lo).Rule().None?
    ensures Before(start, events, hi).Rule().None?
    decreases hi
  {
    if lo < hi {
      NextBefore(start, events, hi - 1);
      EventWasPossible(start, events, hi - 1);
      StaysEmpty(start, events, lo, hi - 1);
    }
  }

  lemma StoreIsHarmless(start: World, events: seq<Half>, i: nat)
    requires IsRun(start, events) && i < |events| && HasFreshJudgement(events[..i], events[i])
    requires events[i].StoreRule?
    ensures IsHarmless(events[..i], Before(start, events, i), events[i])
  {
    EventWasPossible(start, events, i);
    var judge := events[i].judge;
    EventWasPossible(start, events, judge);
    forall k | judge <= k < i
      ensures !events[k].Swaps()
    {
      assert events[k] == events[..i][k];
    }
    SameContract(start, events, judge, i);
  }

  lemma FlagWasFalse(setup: Setup, front: seq<Half>, w: World, e: Half)
    requires e.Swaps() && !e.Forces() && Possible(front, w, e) && Answered(setup, front, e)
    ensures IsRead(front, e.read) && !front[e.read].behaviorActive
  {
  }

  lemma SwapIsHarmless(start: World, events: seq<Half>, i: nat)
    requires IsRun(start, events) && i < |events| && HasFreshFlag(events[..i], events[i])
    requires events[i].Swaps()
    requires IsRead(events[..i], events[i].read) && !events[events[i].read].behaviorActive
    ensures IsHarmless(events[..i], Before(start, events, i), events[i])
  {
    var read := events[i].read;
    EventWasPossible(start, events, read);
    assert Before(start, events, read).Rule().None?;
    forall k | read <= k < i
      ensures !events[k].StoreRule?
    {
      assert events[k] == events[..i][k];
    }
    StaysEmpty(start, events, read, i);
  }

  /** With commands overlapping in any other way, no force, and any overrides: a rule in
      force always belongs to the active contract. */
  lemma DisciplineSuffices(setup: Setup, start: World, events: seq<Half>)
    requires Belongs(start) && IsDisciplined(setup, start, events)
    requires forall i :: 0 <= i < |events| ==> !events[i].Forces()
    ensures AlwaysBelongs(start, events)
  {
    forall i | 0 <= i < |events|
      ensures IsHarmless(events[..i], Before(start, events, i), events[i])
    {
      if events[i].StoreRule? {
        StoreIsHarmless(start, events, i);
      } else if events[i].Swaps() {
        EventWasPossible(start, events, i);
        FlagWasFalse(setup, events[..i], Before(start, events, i), events[i]);
        SwapIsHarmless(start, events, i);
      }
    }
    BelongsThroughout(start, events);
  }

  /** The judgement behind the rule in force. */
  lemma {:induction false} StoredWasJudged(start: World, events: seq<Half>) returns (i: int)
    requires start.Rule().None? && IsRun(start, events)
    ensures var w := Run(start, events);
            w.Rule().Some? ==>
              && 0 <= i < |events| && events[i].Judge? && events[i].judged.Success?
              && w.Rule() == Some(events[i].rule) && w.consulted == events[i].consulted
  {
    i := -1;
    if events != [] {
      var front, last := events[..|events| - 1], events[|events| - 1];
      if last.StoreRule? {
        i := last.judge;
      } else {
        i := StoredWasJudged(start, front);
      }
    }
  }

  /** So under this discipline the answer that let the rule in force pass, given to some
      configure command of the run, is the one that the contract that is active now gives to
      the same rule with the same override; and if strict mode applies, the rule validates. */
  lemma AnswerStillHolds(setup: Setup, start: World, events: seq<Half>) returns (i: int)
    requires start.Rule().None? && IsDisciplined(setup, start, events)
    requires forall i :: 0 <= i < |events| ==> !events[i].Forces()
    ensures var w := Run(start, events);
            w.Rule().Some? ==>
              && 0 <= i < |events| && events[i].Judge? && w.Rule() == Some(events[i].rule)
              && events[i].judged.Success?
              && AdmitRule(setup, w.Contract(), events[i].rule, events[i].override) == events[i].judged
              && (w.Contract().Some? && EffectiveMode(w.Contract().value, events[i].override) == Some(Strict) ==>
                    ValidateRule(w.Contract().value.contract, setup.parse, events[i].rule) == RuleAccepted)
  {
    i := StoredWasJudged(start, events);
    DisciplineSuffices(setup, start, events);
    assert Before(start, events, |events|) == Run(start, events) by {
      assert events[..|events|] == events;
    }
    var w := Run(start, events);
    if w.Rule().Some? {
      assert Answered(setup, events[..i], events[i]);
      if w.Contract().Some? && EffectiveMode(w.Contract().value, events[i].override) == Some(Strict) {
        StrictMeansValid(setup, w.Contract().value, events[i].rule, events[i].override);
      }
    }
  }

  lemma StrictMeansValid(setup: Setup, active: Active, rule: ResponseRule, override: Override)
    requires AdmitRule(setup, Some(active), rule, override).Success?
    requires EffectiveMode(active, override) == Some(Strict)
    ensures ValidateRule(active.contract, setup.parse, rule) == RuleAccepted
  {
  }

  // ---------------------------------------------------------------- what is served

  /** Strict throughout: no force, no override, and only contracts that are loaded with the
      text `strict`, or with none. */
  ghost predicate IsStrict(e: Half) {
    && !e.Forces()
    && (e.Judge? ==> !e.override.modeSet)
    && (e.SwapLoaded? ==> MeansStrict(e.command.validationMode))
  }

  lemma LoadsInItsMode(setup: Setup, front: seq<Half>, e: Half)
    requires e.SwapLoaded? && e.loaded.Success? && IsRead(front, e.read) && Answered(setup, front, e)
    ensures Some(e.loaded.value.mode) == NormalizeMode(e.command.validationMode)
  {
  }

  lemma {:induction false} StaysStrict(setup: Setup, start: World, events: seq<Half>)
    requires Runs.HasStrictContract(start.base) && IsRun(start, events) && AllAnswered(setup, events)
    requires forall i :: 0 <= i < |events| ==> IsStrict(events[i])
    ensures Runs.HasStrictContract(Run(start, events).base)
  {
    if events != [] {
      var front, last := events[..|events| - 1], events[|events| - 1];
      forall i {:trigger front[i]} | 0 <= i < |front|
        ensures Answered(setup, front[..i], front[i])
      {
        assert front[..i] == events[..i] && front[i] == events[i];
      }
      StaysStrict(setup, start, front);
      assert IsStrict(last) && Answered(setup, front, last);
      if last.SwapLoaded? && last.loaded.Success? {
        ModeTexts(last.command.validationMode);
        LoadsInItsMode(setup, front, last);
      }
    }
  }

  /** Commands may overlap under the discipline, and requests may overlap with everything:
      every response served while a contract is active is one the contract allows. */
  lemma OverlappingResponsesConform(setup: Setup, start: World, events: seq<Half>, i: nat, meaning: Verdicts.Meaning)
    requires Runs.IsStart(start.base) && Runs.HasStrictContract(start.base) && IsDisciplined(setup, start, events)
    requires forall j :: 0 <= j < |events| ==> IsStrict(events[j])
    requires i < |events| && events[i].Single? && events[i].event.Match?
    ensures var w, event := Before(start, events, i), events[i].event;
            var begun := Begin(w.base.plane.store, event.verb, event.path);
            begun.Some? && w.Contract().Some? ==>
              && begun.value.rule.verb == event.verb && begun.value.rule.path == event.path
              && Allows(w.Contract().value.contract, meaning, setup.parse, begun.value.rule)
  {
    var front := events[..i];
    var w := Before(start, events, i);
    PrefixIsDisciplined(setup, start, events, i);
    assert forall j :: 0 <= j < |front| ==> IsStrict(front[j]);
    StaysStrict(setup, start, front);
    var k := AnswerStillHolds(setup, start, front);
    if w.Rule().Some? && w.Contract().Some? {
      assert IsStrict(front[k]);
      RuleVerdictIsExact(w.Contract().value.contract, meaning, setup.parse, w.Rule().value);
    }
  }

  // ---------------------------------------------------------------- both halves of it are needed

  const EMPTY := World(Runs.World(PlaneState(EMPTY_STORE, None), map[]), None)

  /** A file that loads wherever the root is: a contract with one operation, no links. */
  const COMMAND := LoadCommand("c.json", "", "", false)

  const FILES := Files(_ => Parsed(Root(Null, Null)), path => Some(path))

  lemma LoadSucceeds(root: Path, files: Files, floatFits: NumberLiteral -> bool, command: LoadCommand)
    requires IsName(command.path) && TrimSpace(command.path) == command.path
    requires NormalizeMode(command.validationMode).Some?
    requires files.links(root + [command.path]) == Some(root + [command.path])
    requires Load(files.read(root + [command.path]), floatFits).Success?
    ensures var loaded := LoadContract(root, files, floatFits, command, false);
            && loaded.Success?
            && loaded.value.contract == Load(files.read(root + [command.path]), floatFits).value
  {
    NameIsInside(root, files.links, command.path);
  }

  lemma CommandIsPlain()
    ensures IsName(COMMAND.path) && TrimSpace(COMMAND.path) == COMMAND.path
    ensures NormalizeMode(COMMAND.validationMode).Some?
  {
    assert forall i :: 0 <= i < |COMMAND.path| ==> !IsSpace(COMMAND.path[i]);
  }

  ghost function LoadedContract(setup: Setup): (result: Result<Active, OperationError>)
    ensures result.Success? && exists s :: result.value.contract.paths == LoadedPaths(s)
  {
    CommandIsPlain();
    RootLoads(Null, Null, setup.floatFits);
    LoadSucceeds(setup.root, FILES, setup.floatFits, COMMAND);
    LoadContract(setup.root, FILES, setup.floatFits, COMMAND, false)
  }

  /** Four events of a configure and a load that overlap: first the rule is judged, while
      there is no contract, and the flag is read, while there is no rule. */
  ghost function Overlap(third: Half, fourth: Half, rule: ResponseRule): seq<Half> {
    [Judge(rule, NO_OVERRIDE, None, Success([])), ReadFlag(false), third, fourth]
  }

  ghost function TheSwap(setup: Setup): (swap: Half)
    ensures IsSwap(swap)
  {
    SwapLoaded(1, COMMAND, FILES, LoadedContract(setup))
  }

  /** A load without force that succeeds with the flag of event number 1, and activates a
      small contract. */
  ghost predicate IsSwap(e: Half) {
    && e.SwapLoaded? && e.read == 1 && !e.command.force && e.loaded.Success?
    && exists s :: e.loaded.value.contract.paths == LoadedPaths(s)
  }

  lemma OverlapRuns(third: Half, fourth: Half, rule: ResponseRule)
    ensures var begun := [Judge(rule, NO_OVERRIDE, None, Success([])), ReadFlag(false)];
            var w := Step(begun, EMPTY, third);
            && Run(EMPTY, Overlap(third, fourth, rule)) == Step(begun + [third], w, fourth)
            && (Possible(begun, EMPTY, third) && Possible(begun + [third], w, fourth) ==>
                  IsRun(EMPTY, Overlap(third, fourth, rule)))
  {
    var judge := Judge(rule, NO_OVERRIDE, None, Success([]));
    OneMore(EMPTY, [], judge);
    assert [] + [judge] == [judge];
    OneMore(EMPTY, [judge], ReadFlag(false));
    var begun := [judge, ReadFlag(false)];
    assert [judge] + [ReadFlag(false)] == begun;
    OneMore(EMPTY, begun, third);
    OneMore(EMPTY, begun + [third], fourth);
    assert begun + [third] + [fourth] == Overlap(third, fourth, rule);
  }

  lemma RuleIsJudged(setup: Setup, front: seq<Half>, rule: ResponseRule)
    requires setup.validator(rule)
    ensures Answered(setup, front, Judge(rule, NO_OVERRIDE, None, Success([])))
  {
  }

  lemma SwapIsAnswered(setup: Setup, front: seq<Half>)
    requires |front| > 1 && front[1] == ReadFlag(false)
    ensures Answered(setup, front, TheSwap(setup))
  {
  }

  lemma OverlapIsAnswered(setup: Setup, third: Half, fourth: Half, rule: ResponseRule)
    requires setup.validator(rule)
    requires third == StoreRule(0) || third == TheSwap(setup)
    requires fourth == StoreRule(0) || fourth == TheSwap(setup)
    ensures AllAnswered(setup, Overlap(third, fourth, rule))
  {
    var events := Overlap(third, fourth, rule);
    forall i {:trigger events[i]} | 0 <= i < |events|
      ensures Answered(setup, events[..i], events[i])
    {
      if i == 0 {
        RuleIsJudged(setup, events[..i], rule);
      } else if i > 1 {
        SwapIsAnswered(setup, events[..i]);
      }
    }
  }

  /** No force, and at the end the rule is served beside a contract that was not consulted
      about it. */
  ghost predicate Fails(events: seq<Half>, rule: ResponseRule) {
    && IsRun(EMPTY, events)
    && (forall i :: 0 <= i < |events| ==> !events[i].Forces())
    && var w := Run(EMPTY, events);
       && !Belongs(w) && w.Contract().Some?
       && Begin(w.base.plane.store, rule.verb, rule.path) == Some(Pending(rule.verb, rule.path, rule))
       && exists s :: w.Contract().value.contract.paths == LoadedPaths(s)
  }

  lemma StoreThenSwapFails(swap: Half, rule: ResponseRule)
    requires IsSwap(swap)
    ensures var events := Overlap(StoreRule(0), swap, rule);
            Fails(events, rule) && JudgementsAreFresh(events) && !FlagsAreFresh(events)
  {
    OverlapRuns(StoreRule(0), swap, rule);
    var events := Overlap(StoreRule(0), swap, rule);
    assert events[..3][2].StoreRule? && events[3].SwapLoaded?;
  }

  lemma SwapThenStoreFails(swap: Half, rule: ResponseRule)
    requires IsSwap(swap)
    ensures var events := Overlap(swap, StoreRule(0), rule);
            Fails(events, rule) && !JudgementsAreFresh(events) && FlagsAreFresh(events)
  {
    OverlapRuns(swap, StoreRule(0), rule);
    var events := Overlap(swap, StoreRule(0), rule);
    assert events[..3][2].Swaps() && events[3].StoreRule?;
  }

  /** Neither half of the discipline can be dropped. If the flag is read before the rule is
      stored and used after it, or the contract is swapped, with a flag read just before,
      while the judged rule waits to be stored, the rule is served beside a contract that was
      not consulted. Both loads succeed. */
  lemma DisciplineIsNeeded(setup: Setup, rule: ResponseRule)
    requires setup.validator(rule)
    ensures var events := Overlap(StoreRule(0), TheSwap(setup), rule);
            && Fails(events, rule) && AllAnswered(setup, events)
            && JudgementsAreFresh(events) && !FlagsAreFresh(events)
    ensures var events := Overlap(TheSwap(setup), StoreRule(0), rule);
            && Fails(events, rule) && AllAnswered(setup, events)
            && !JudgementsAreFresh(events) && FlagsAreFresh(events)
  {
    var swap := TheSwap(setup);
    StoreThenSwapFails(swap, rule);
    SwapThenStoreFails(swap, rule);
    OverlapIsAnswered(setup, StoreRule(0), swap, rule);
    OverlapIsAnswered(setup, swap, StoreRule(0), rule);
  }

  /** The contract may even forbid what is served then: any rule for a method that it does
      not define. */
  lemma ForbiddenRuleIsServed(events: seq<Half>, rule: ResponseRule, meaning: Verdicts.Meaning, parse: string -> Body)
    requires Fails(events, rule) && ToLower(rule.verb) != "get"
    ensures !Allows(Run(EMPTY, events).Contract().value.contract, meaning, parse, rule)
  {
    var contract := Run(EMPTY, events).Contract().value.contract;
    var s :| contract.paths == LoadedPaths(s);
    OtherMethodIsForbidden(contract, s, meaning, parse, rule);
  }
}
