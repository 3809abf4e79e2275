/** Whole runs of the process: commands one at a time, requests interleaved between their
    two steps. */
module Runs {
  import opened Wrappers
  import opened Stores
  import opened Control
  import opened Contracts
  import opened Server
  import Verdicts

  /** What happens, commands with their results. */
  datatype Event =
    | Configure(rule: ResponseRule, override: Override, configured: Result<seq<Warning>, OperationError>)
    | LoadFile(command: LoadCommand, files: Files, loaded: Result<Active, OperationError>)
    | Unload(force: bool, unloaded: Result<Option<Active>, OperationError>)
    | ResetAll
    | Deliver(sent: Result<Delivery, string>, delivered: Result<Delivery, SendError>)
    | Match(request: nat, verb: string, path: string)
    | Record(request: nat)
  {
    predicate IsRefused() {
      || (Configure? && configured.Failure?)
      || (LoadFile? && loaded.Failure?)
      || (Unload? && unloaded.Failure?)
      || (Deliver? && delivered.Failure?)
    }

    predicate Forces() {
      (LoadFile? && command.force) || (Unload? && force)
    }
  }

  /** The plane, and the requests between their two steps. */
  datatype World = World(plane: PlaneState, pending: map<nat, Pending>)
  {
    function Rule(): Option<ResponseRule> {
      plane.store.rule
    }

    function Contract(): Option<Active> {
      plane.active
    }
  }

  function Step(w: World, e: Event): World {
    match e
    case Configure(rule, _, result) =>
      if result.Failure? then w else w.(plane := w.plane.(store := w.plane.store.(rule := Some(rule))))
    case LoadFile(_, _, result) =>
      if result.Failure? then w else w.(plane := w.plane.(active := Some(result.value)))
    case Unload(_, result) =>
      if result.Failure? then w else w.(plane := w.plane.(active := None))
    case ResetAll => w.(plane := w.plane.(store := w.plane.store.Reset()))
    case Deliver(_, result) =>
      if result.Failure? then w
      else w.(plane := w.plane.(store := w.plane.store.(deliveries := w.plane.store.deliveries + [result.value])))
    case Match(request, verb, path) =>
      var begun := Begin(w.plane.store, verb, path);
      if request in w.pending || begun.None? then w
      else w.(pending := w.pending[request := begun.value])
    case Record(request) =>
      if request !in w.pending then w
      else World(w.plane.(store := Finish(w.plane.store, w.pending[request])), w.pending - {request})
  }

  /** The result of a command is the one that the plane gives in this world. */
  ghost predicate Possible(setup: Setup, w: World, e: Event) {
    match e
    case Configure(rule, override, result) => result == ConfigureSpec(setup, w.plane, rule, override).1
    case LoadFile(command, files, result) => result == LoadSpec(setup, w.plane, command, files).1
    case Unload(force, result) => result == UnloadSpec(w.plane, force).1
    case Deliver(sent, result) => result == SendSpec(setup, w.plane, sent).1
    case _ => true
  }

  /** What the methods of the plane do is a step, with a possible result. */
  lemma CommandsAreSteps(setup: Setup, w: World, rule: ResponseRule, override: Override, command: LoadCommand,
      files: Files, force: bool, sent: Result<Delivery, string>)
    ensures var (plane, result) := ConfigureSpec(setup, w.plane, rule, override);
            var e := Configure(rule, override, result);
            Possible(setup, w, e) && Step(w, e) == w.(plane := plane)
    ensures var (plane, result) := LoadSpec(setup, w.plane, command, files);
            var e := LoadFile(command, files, result);
            Possible(setup, w, e) && Step(w, e) == w.(plane := plane)
    ensures var (plane, result) := UnloadSpec(w.plane, force);
            var e := Unload(force, result);
            Possible(setup, w, e) && Step(w, e) == w.(plane := plane)
    ensures var (plane, result) := SendSpec(setup, w.plane, sent);
            var e := Deliver(sent, result);
            Possible(setup, w, e) && Step(w, e) == w.(plane := plane)
  {
  }

  function Run(start: World, events: seq<Event>): World {
    if events == [] then start
    else Step(Run(start, events[..|events| - 1]), events[|events| - 1])
  }

  /** At the start there is no behavior; a contract may have been loaded already. */
  ghost predicate IsStart(start: World) {
    start.plane.store == EMPTY_STORE && start.pending == map[]
  }

  /** The events can happen one after the other. */
  ghost predicate IsRun(setup: Setup, start: World, events: seq<Event>) {
    events != [] ==>
      var front := events[..|events| - 1];
      IsRun(setup, start, front) && Possible(setup, Run(start, front), events[|events| - 1])
  }

  /** The world in which event number `i` happens. */
  function Before(start: World, events: seq<Event>, i: nat): World
    requires i <= |events|
  {
    Run(start, events[..i])
  }

  lemma BeforeInPrefix(start: World, events: seq<Event>, n: nat, i: nat)
    requires i <= n <= |events|
    ensures Before(start, events[..n], i) == Before(start, events, i)
  {
    assert events[..n][..i] == events[..i];
  }

  lemma {:induction false} PrefixIsRun(setup: Setup, start: World, events: seq<Event>, n: nat)
    requires IsRun(setup, start, events) && n <= |events|
    ensures IsRun(setup, start, events[..n])
    decreases |events|
  {
    if n < |events| {
      var front := events[..|events| - 1];
      assert front[..n] == events[..n];
      PrefixIsRun(setup, start, front, n);
    } else {
      assert events[..n] == events;
    }
  }

  // ---------------------------------------------------------------- single events

  /** A request that nothing interrupts does both its steps on one store. */
  lemma UninterruptedRequest(w: World, request: nat, verb: string, path: string)
    requires request !in w.pending
    ensures var w' := Step(Step(w, Match(request, verb, path)), Record(request));
            match Begin(w.plane.store, verb, path)
            case Some(begun) => w' == w.(plane := w.plane.(store := Finish(w.plane.store, begun)))
            case None => w' == w
  {
    if Begin(w.plane.store, verb, path).Some? {
      assert w.pending[request := Begin(w.plane.store, verb, path).value] - {request} == w.pending;
    }
  }

  // ---------------------------------------------------------------- refusals and loads

  /** The events that were not refused, in their order. */
  function Effective(events: seq<Event>): seq<Event> {
    if events == [] then []
    else
      var front, last := events[..|events| - 1], events[|events| - 1];
      Effective(front) + if last.IsRefused() then [] else [last]
  }

  /** Refused commands might as well not have been given: without them the run is still
      possible and ends in the same world, its logs, its contract and the requests under way
      included. */
  lemma {:induction false} RefusalsLeaveNoTrace(setup: Setup, start: World, events: seq<Event>)
    ensures Run(start, Effective(events)) == Run(start, events)
    ensures IsRun(setup, start, events) ==> IsRun(setup, start, Effective(events))
  {
    if events != [] {
      var front, last := events[..|events| - 1], events[|events| - 1];
      RefusalsLeaveNoTrace(setup, start, front);
      if !last.IsRefused() {
        assert Effective(events)[..|Effective(events)| - 1] == Effective(front);
      } else {
        assert Effective(events) == Effective(front);
      }
    }
  }

  /** Event `i` changed the active contract, to this. */
  ghost predicate SetsContract(events: seq<Event>, i: int, active: Option<Active>) {
    0 <= i < |events| && !events[i].IsRefused() &&
    ((events[i].LoadFile? && active == Some(events[i].loaded.value)) || (events[i].Unload? && active == None))
  }

  /** The active contract is that of the last load that succeeded, unless an unload did
      later; resets, rules, requests and whatever was refused have no part in it. */
  lemma {:induction false} ContractWasLoaded(start: World, events: seq<Event>) returns (i: int)
    ensures if i < 0 then Run(start, events).Contract() == start.Contract()
            else SetsContract(events, i, Run(start, events).Contract())
    ensures forall j :: 0 <= j < |events| && i < j && (events[j].LoadFile? || events[j].Unload?) ==>
                          events[j].IsRefused()
  {
    i := -1;
    if events != [] {
      var front, last := events[..|events| - 1], events[|events| - 1];
      if (last.LoadFile? || last.Unload?) && !last.IsRefused() {
        i := |front|;
      } else {
        i := ContractWasLoaded(start, front);
      }
    }
  }

  // ---------------------------------------------------------------- provenance

  /** Event `i` stored this rule. */
  predicate StoresRule(events: seq<Event>, i: int, rule: ResponseRule) {
    0 <= i < |events| && events[i].Configure? && events[i].rule == rule && events[i].configured.Success?
  }

  /** The event that stored the rule in force: none stored or removed a rule after it. */
  lemma {:induction false} RuleWasStored(start: World, events: seq<Event>) returns (i: int)
    requires IsStart(start)
    ensures var rule := Run(start, events).Rule();
            rule.Some? ==>
              && StoresRule(events, i, rule.value)
              && forall j :: i < j < |events| ==>
                   !events[j].ResetAll? && (events[j].Configure? ==> events[j].IsRefused())
  {
    i := -1;
    if events != [] {
      var front, last := events[..|events| - 1], events[|events| - 1];
      if last.Configure? && !last.IsRefused() {
        i := |front|;
      } else {
        i := RuleWasStored(start, front);
      }
    }
  }

  lemma StoringKeepsContract(w: World, e: Event)
    requires e.Configure? && e.configured.Success?
    ensures Step(w, e).Contract() == w.Contract() && Step(w, e).Rule() == Some(e.rule)
  {
  }

  lemma RuleGuardsContract(setup: Setup, w: World, e: Event)
    requires Possible(setup, w, e) && !e.Forces() && !e.ResetAll? && w.Rule().Some?
    ensures Step(w, e).Contract() == w.Contract() && Step(w, e).Rule().Some?
  {
  }

  /** Without force, no load and no unload succeeds while a rule is stored. */
  lemma {:induction false} ContractStays(setup: Setup, start: World, events: seq<Event>, i: nat)
    requires IsRun(setup, start, events) && i < |events|
    requires forall j :: 0 <= j < |events| ==> !events[j].Forces()
    requires events[i].Configure? && StoresRule(events, i, events[i].rule)
    requires forall j :: i < j < |events| ==> !events[j].ResetAll?
    ensures Run(start, events).Contract() == Before(start, events, i).Contract()
    ensures Run(start, events).Rule().Some?
    decreases |events|
  {
    var front := events[..|events| - 1];
    if i < |front| {
      ContractStays(setup, start, front, i);
      BeforeInPrefix(start, events, |front|, i);
      RuleGuardsContract(setup, Run(start, front), events[|front|]);
    } else {
      StoringKeepsContract(Run(start, front), events[i]);
    }
  }

  /** What the manager said to the rule that event `i` stored. */
  lemma StoredRuleWasJudged(setup: Setup, start: World, events: seq<Event>, i: nat)
    requires IsRun(setup, start, events) && i < |events|
    requires events[i].Configure? && StoresRule(events, i, events[i].rule)
    ensures JudgeRule(Before(start, events, i).Contract(), setup.parse, events[i].rule, events[i].override).Success?
  {
    PrefixIsRun(setup, start, events, i + 1);
    assert events[..i + 1][..i] == events[..i];
  }

  lemma StrictJudgement(active: Active, setup: Setup, rule: ResponseRule, override: Override)
    requires JudgeRule(Some(active), setup.parse, rule, override).Success?
    requires EffectiveMode(active, override) == Some(Strict)
    ensures ValidateRule(active.contract, setup.parse, rule) == RuleAccepted
  {
  }

  /** The rule in force was checked against the contract that is active now, or stored
      while, as now, there was none; and if strict mode applied to it, it validates. This
      holds after every run without force, whatever the overrides. */
  lemma RuleBelongsToContract(setup: Setup, start: World, events: seq<Event>) returns (i: int)
    requires IsStart(start) && IsRun(setup, start, events)
    requires forall j :: 0 <= j < |events| ==> !events[j].Forces()
    ensures var w := Run(start, events);
            w.Rule().Some? ==>
              && StoresRule(events, i, w.Rule().value)
              && Before(start, events, i).Contract() == w.Contract()
              && JudgeRule(w.Contract(), setup.parse, w.Rule().value, events[i].override).Success?
              && (w.Contract().Some? && EffectiveMode(w.Contract().value, events[i].override) == Some(Strict) ==>
                    ValidateRule(w.Contract().value.contract, setup.parse, w.Rule().value) == RuleAccepted)
  {
    i := RuleWasStored(start, events);
    var w := Run(start, events);
    if w.Rule().Some? {
      ContractStays(setup, start, events, i);
      StoredRuleWasJudged(setup, start, events, i);
      if w.Contract().Some? && EffectiveMode(w.Contract().value, events[i].override) == Some(Strict) {
        StrictJudgement(w.Contract().value, setup, w.Rule().value, events[i].override);
      }
    }
  }

  // ---------------------------------------------------------------- what is served

  /** Strict throughout: no force, no override, and only contracts that are loaded with the
      text `strict`, or with none. */
  ghost predicate IsStrict(e: Event) {
    && !e.Forces()
    && (e.Configure? ==> !e.override.modeSet)
    && (e.LoadFile? ==> MeansStrict(e.command.validationMode))
  }

  predicate HasStrictContract(w: World) {
    w.Contract().Some? ==> w.Contract().value.mode == Strict
  }

  lemma LoadsInItsMode(setup: Setup, w: World, e: Event)
    requires e.LoadFile? && e.loaded.Success? && Possible(setup, w, e)
    ensures Some(e.loaded.value.mode) == NormalizeMode(e.command.validationMode)
  {
  }

  lemma {:induction false} StaysStrict(setup: Setup, start: World, events: seq<Event>)
    requires HasStrictContract(start) && IsRun(setup, start, events)
    requires forall j :: 0 <= j < |events| ==> IsStrict(events[j])
    ensures HasStrictContract(Run(start, events))
  {
    if events != [] {
      var front, last := events[..|events| - 1], events[|events| - 1];
      StaysStrict(setup, start, front);
      assert IsStrict(last);
      if last.LoadFile? && last.loaded.Success? {
        ModeTexts(last.command.validationMode);
        LoadsInItsMode(setup, Run(start, front), last);
      }
    }
  }

  /** Every response served while a contract is active is one the contract allows: it
      defines the operation and the status, and the content type and the body conform,
      under every meaning of what the validator does not support. */
  lemma ServedResponsesConform(setup: Setup, start: World, events: seq<Event>, i: nat, meaning: Verdicts.Meaning)
    requires IsStart(start) && HasStrictContract(start) && IsRun(setup, start, events)
    requires forall j :: 0 <= j < |events| ==> IsStrict(events[j])
    requires i < |events| && events[i].Match?
    ensures var w := Before(start, events, i);
            var begun := Begin(w.plane.store, events[i].verb, events[i].path);
            begun.Some? && w.Contract().Some? ==>
              && begun.value.rule.verb == events[i].verb && begun.value.rule.path == events[i].path
              && Allows(w.Contract().value.contract, meaning, setup.parse, begun.value.rule)
  {
    var front := events[..i];
    var w := Before(start, events, i);
    PrefixIsRun(setup, start, events, i);
    StaysStrict(setup, start, front);
    assert forall j :: 0 <= j < |front| ==> IsStrict(front[j]);
    var k := RuleBelongsToContract(setup, start, front);
    if w.Rule().Some? && w.Contract().Some? {
      assert IsStrict(front[k]);
      RuleVerdictIsExact(w.Contract().value.contract, meaning, setup.parse, w.Rule().value);
    }
  }

  /** A request is answered exactly if its method and path are those of the rule in force,
      and then with the status, the content type if there is one, and the body that an
      earlier event stored under its id. */
  lemma RepliesComeFromRules(start: World, events: seq<Event>, i: nat) returns (k: int)
    requires IsStart(start) && i < |events| && events[i].Match?
    ensures var rule := Before(start, events, i).Rule();
            var begun := Begin(Before(start, events, i).plane.store, events[i].verb, events[i].path);
            && (begun.Some? <==>
                  rule.Some? && rule.value.verb == events[i].verb && rule.value.path == events[i].path)
            && (begun.Some? ==>
                  && k < i && StoresRule(events, k, rule.value)
                  && match begun.value.Answer()
                     case Configured(statusCode, contentType, body) =>
                       && statusCode == rule.value.statusCode && body == rule.value.body
                       && (rule.value.contentType != "" ==> contentType == Some(rule.value.contentType))
                       && (rule.value.contentType == "" ==> contentType == None)
                     case NotImplemented => false)
  {
    k := RuleWasStored(start, events[..i]);
  }

  // ---------------------------------------------------------------- the logs

  lemma StepOnPending(w: World, e: Event, request: nat)
    requires request in Step(w, e).pending
    ensures var pending := Step(w, e).pending[request];
            || (request in w.pending && w.pending[request] == pending)
            || (e.Match? && Begin(w.plane.store, e.verb, e.path) == Some(pending))
  {
  }

  /** A request under way was matched by an earlier event, against the rule stored then. */
  lemma {:induction false} PendingWasMatched(start: World, events: seq<Event>, request: nat) returns (i: nat)
    requires IsStart(start) && request in Run(start, events).pending
    ensures var pending := Run(start, events).pending[request];
            && i < |events| && events[i].Match?
            && Begin(Before(start, events, i).plane.store, events[i].verb, events[i].path) == Some(pending)
  {
    var front, last := events[..|events| - 1], events[|events| - 1];
    var w, pending := Run(start, front), Run(start, events).pending[request];
    StepOnPending(w, last, request);
    if request in w.pending && w.pending[request] == pending {
      i := PendingWasMatched(start, front, request);
      BeforeInPrefix(start, events, |front|, i);
    } else {
      i := |front|;
    }
  }

  predicate Describes(o: Observation, rule: ResponseRule) {
    o == Observation(rule.verb, rule.path, rule.id, rule.statusCode)
  }

  /** However requests, resets and new rules are interleaved, a logged observation describes
      a rule that an earlier event of the run stored. */
  lemma {:induction false} ObservationsDescribeRules(start: World, events: seq<Event>, o: Observation)
    returns (i: int, rule: ResponseRule)
    requires IsStart(start) && o in Run(start, events).plane.store.observations
    ensures StoresRule(events, i, rule) && Describes(o, rule)
  {
    var front, last := events[..|events| - 1], events[|events| - 1];
    var w := Run(start, front);
    StepOnLogs(w, last);
    if o in w.plane.store.observations {
      i, rule := ObservationsDescribeRules(start, front, o);
    } else {
      var m := PendingWasMatched(start, front, last.request);
      rule := w.pending[last.request].rule;
      i := RuleWasStored(start, front[..m]);
      assert front[..m] == events[..m];
    }
  }

  /** What one event adds to the observations. */
  function ObservedBy(w: World, e: Event): seq<Observation> {
    if e.Record? && e.request in w.pending then [w.pending[e.request].Observed()] else []
  }

  function DeliveredBy(e: Event): seq<Delivery> {
    if e.Deliver? && e.delivered.Success? then [e.delivered.value] else []
  }

  /** Only reset removes from the logs, and then everything. */
  lemma StepOnLogs(w: World, e: Event)
    ensures var s, s' := w.plane.store, Step(w, e).plane.store;
            && s'.observations == (if e.ResetAll? then [] else s.observations + ObservedBy(w, e))
            && s'.deliveries == (if e.ResetAll? then [] else s.deliveries + DeliveredBy(e))
            && s'.generation == (if e.ResetAll? then (s.generation + 1) % GENERATIONS else s.generation)
  {
  }

  /** The number of events up to and including the last reset. */
  function SinceReset(events: seq<Event>): (n: nat)
    ensures n <= |events|
    ensures forall i :: n <= i < |events| ==> !events[i].ResetAll?
    ensures n > 0 ==> events[n - 1].ResetAll?
  {
    if events == [] then 0
    else if events[|events| - 1].ResetAll? then |events|
    else SinceReset(events[..|events| - 1])
  }

  /** The observations that the events from number `from` on record, in their order. */
  function Recorded(start: World, events: seq<Event>, from: nat): seq<Observation> {
    if |events| <= from then []
    else
      var front := events[..|events| - 1];
      Recorded(start, front, from) + ObservedBy(Run(start, front), events[|events| - 1])
  }

  function Delivered(events: seq<Event>, from: nat): seq<Delivery> {
    if |events| <= from then []
    else Delivered(events[..|events| - 1], from) + DeliveredBy(events[|events| - 1])
  }

  /** Each log is exactly what was recorded since the last reset. */
  lemma {:induction false} LogsSinceReset(start: World, events: seq<Event>)
    requires IsStart(start)
    ensures Run(start, events).plane.store.observations == Recorded(start, events, SinceReset(events))
    ensures Run(start, events).plane.store.deliveries == Delivered(events, SinceReset(events))
  {
    if events != [] {
      var front := events[..|events| - 1];
      LogsSinceReset(start, front);
      StepOnLogs(Run(start, front), events[|events| - 1]);
    }
  }

  function Resets(events: seq<Event>): nat {
    if events == [] then 0
    else Resets(events[..|events| - 1]) + if events[|events| - 1].ResetAll? then 1 else 0
  }

  /** The generation counts the resets, modulo 2^64. */
  lemma {:induction false} GenerationCountsResets(start: World, events: seq<Event>)
    requires IsStart(start)
    ensures Run(start, events).plane.store.generation == Resets(events) % 18_446_744_073_709_551_616
  {
    if events != [] {
      var front := events[..|events| - 1];
      GenerationCountsResets(start, front);
      StepOnLogs(Run(start, front), events[|events| - 1]);
      OneMoreReset(Resets(front));
    }
  }

  lemma OneMoreReset(n: nat)
    ensures (n % GENERATIONS + 1) % GENERATIONS == (n + 1) % GENERATIONS
  {
    var q, r := n / GENERATIONS, n % GENERATIONS;
    assert n == q * GENERATIONS + r;
    assert (n + 1) % GENERATIONS == if r + 1 == GENERATIONS then 0 else r + 1;
  }
}
