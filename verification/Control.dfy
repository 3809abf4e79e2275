/** The control plane: the manager of the one active contract, and the commands. */
module Control {
  import opened Wrappers
  import opened Text
  import opened Json
  import opened Validation
  import opened Scan
  import opened ScanReport
  import opened Contracts
  import opened Writing
  import opened ContractPaths
  import opened Stores

  // ---------------------------------------------------------------- modes and decisions

  datatype Mode = Strict | Warn | Off

  /** `normalizeValidationMode`; no text means strict. */
  function NormalizeMode(text: string): Option<Mode> {
    var mode := ToLower(TrimSpace(text));
    if mode == "" || mode == "strict" then Some(Strict)
    else if mode == "warn" then Some(Warn)
    else if mode == "off" then Some(Off)
    else None
  }

  datatype Active = Active(contract: Contract, contractId: string, mode: Mode)

  datatype Override = Override(mode: string, reason: string, modeSet: bool)

  const NO_OVERRIDE := Override("", "", false)

  datatype OperationError =
    | NoPath
    | ResetRequired
    | InvalidMode
    | PathRefused(pathError: PathError)
    | LoadFailed(loadError: LoadError)
    | ReasonRequired
    | ValidationFailed(verdict: RuleVerdict)
    | RefusedByValidator

  datatype Warning = Skipped(reason: string) | ValidationOff | Violation(verdict: RuleVerdict)

  /** The mode that applies to a rule: the override's, if it names one that exists. */
  function EffectiveMode(active: Active, override: Override): Option<Mode> {
    if override.modeSet then NormalizeMode(override.mode) else Some(active.mode)
  }

  /** What the manager says to a rule, given the contract that is active. */
  ghost function JudgeRule(active: Option<Active>, parse: string -> Body, rule: ResponseRule, override: Override):
      Result<seq<Warning>, OperationError> {
    if active.None? then Success([])
    else
      match EffectiveMode(active.value, override)
      case None => Failure(InvalidMode)
      case Some(Off) =>
        if !override.modeSet then Success([ValidationOff])
        else if TrimSpace(override.reason) == "" then Failure(ReasonRequired)
        else Success([Skipped(TrimSpace(override.reason))])
      case Some(mode) =>
        var verdict := ValidateRule(active.value.contract, parse, rule);
        if verdict == RuleAccepted then Success([])
        else if mode == Warn then Success([Violation(verdict)])
        else Failure(ValidationFailed(verdict))
  }

  datatype LoadCommand = LoadCommand(path: string, contractId: string, validationMode: string, force: bool)

  /** The files as one load finds them. */
  datatype Files = Files(read: Path -> File, links: Links)

  /** The contract that a load would make active, or why it is refused. */
  ghost function LoadContract(root: Path, files: Files, floatFits: NumberLiteral -> bool, command: LoadCommand,
      behaviorActive: bool): Result<Active, OperationError>
  {
    if TrimSpace(command.path) == "" then Failure(NoPath)
    else if behaviorActive && !command.force then Failure(ResetRequired)
    else
      var mode := NormalizeMode(command.validationMode);
      if mode.None? then Failure(InvalidMode)
      else
        match ResolveSpec(root, files.links, command.path)
        case Failure(error) => Failure(PathRefused(error))
        case Success(resolved) =>
          match Load(files.read(resolved.readPath), floatFits)
          case Failure(error) => Failure(LoadFailed(error))
          case Success(contract) => Success(Active(contract, command.contractId, mode.value))
  }

  // ---------------------------------------------------------------- what the mode texts mean

  /** No text is as good as the word. */
  ghost predicate MeansStrict(text: string) {
    IsBlank(text) || Spells(text, "strict")
  }

  lemma BlankIsEmptyWord(text: string)
    ensures Spells(text, "") <==> IsBlank(text)
  {
    if Spells(text, "") {
      var core :| SurroundedBySpaces(text, core) && InAnyCase(core, "");
      var a, b :| IsBlank(a) && IsBlank(b) && text == a + core + b;
      assert text == a + b;
    }
    if IsBlank(text) {
      assert text == text + "" + "" && IsBlank("");
      assert SurroundedBySpaces(text, "") && InAnyCase("", "");
    }
  }

  lemma SpelledWords(text: string)
    ensures var word := ToLower(TrimSpace(text));
            && (word == "" <==> IsBlank(text)) && (word == "strict" <==> Spells(text, "strict"))
            && (word == "warn" <==> Spells(text, "warn")) && (word == "off" <==> Spells(text, "off"))
  {
    SpellingIsFound(text, "");
    BlankIsEmptyWord(text);
    SpellingIsFound(text, "strict");
    SpellingIsFound(text, "warn");
    SpellingIsFound(text, "off");
  }

  /** Which texts name a mode: four words, the empty one included, in any letter case and
      between spaces, and no others. */
  lemma ModeTexts(text: string)
    ensures NormalizeMode(text) == Some(Strict) <==> MeansStrict(text)
    ensures NormalizeMode(text) == Some(Warn) <==> Spells(text, "warn")
    ensures NormalizeMode(text) == Some(Off) <==> Spells(text, "off")
  {
    SpelledWords(text);
  }

  /** From the text of the load to the judgement of a rule without an override. */
  lemma LoadedTextDecides(root: Path, files: Files, floatFits: NumberLiteral -> bool, command: LoadCommand,
      behaviorActive: bool, active: Active, parse: string -> Body, rule: ResponseRule)
    requires LoadContract(root, files, floatFits, command, behaviorActive) == Success(active)
    ensures var judged := JudgeRule(Some(active), parse, rule, NO_OVERRIDE);
            var verdict := ValidateRule(active.contract, parse, rule);
            if MeansStrict(command.validationMode) then
              judged == if verdict == RuleAccepted then Success([]) else Failure(ValidationFailed(verdict))
            else if Spells(command.validationMode, "warn") then
              judged == Success(if verdict == RuleAccepted then [] else [Violation(verdict)])
            else Spells(command.validationMode, "off") && judged == Success([ValidationOff])
  {
    ModeTexts(command.validationMode);
    assert Some(active.mode) == NormalizeMode(command.validationMode);
  }

  /** A load with any other text fails. */
  lemma OtherTextsDoNotLoad(root: Path, files: Files, floatFits: NumberLiteral -> bool, command: LoadCommand,
      behaviorActive: bool)
    requires !IsBlank(command.path) && (behaviorActive ==> command.force)
    requires !MeansStrict(command.validationMode)
    requires !Spells(command.validationMode, "warn") && !Spells(command.validationMode, "off")
    ensures LoadContract(root, files, floatFits, command, behaviorActive) == Failure(InvalidMode)
  {
    ModeTexts(command.validationMode);
    TrimsToNothing(command.path);
  }

  /** When a load succeeds: the path is there, no rule is stored or the load is forced, the
      text names a mode, the path leads to a place under the root, and the document in it
      is one that loads. */
  lemma WhenCommandsLoad(root: Path, files: Files, floatFits: NumberLiteral -> bool, command: LoadCommand,
      behaviorActive: bool)
    ensures var text, resolved := command.validationMode, ResolveSpec(root, files.links, command.path);
            LoadContract(root, files, floatFits, command, behaviorActive).Success? <==>
              && !IsBlank(command.path) && (behaviorActive ==> command.force)
              && (MeansStrict(text) || Spells(text, "warn") || Spells(text, "off"))
              && resolved.Success? && files.read(resolved.value.readPath).Parsed?
              && IsLoadable(files.read(resolved.value.readPath).root)
  {
    ModeTexts(command.validationMode);
    TrimsToNothing(command.path);
    var resolved := ResolveSpec(root, files.links, command.path);
    if resolved.Success? && files.read(resolved.value.readPath).Parsed? {
      WhenDocumentsLoad(files.read(resolved.value.readPath).root, floatFits);
    }
  }

  lemma TrimsToNothing(text: string)
    ensures TrimSpace(text) == "" <==> IsBlank(text)
  {
    SpellingIsFound(text, "");
    BlankIsEmptyWord(text);
  }

  /** From the text of an override to the judgement, whatever the contract was loaded with. */
  lemma OverrideTextDecides(active: Active, parse: string -> Body, rule: ResponseRule, override: Override)
    requires override.modeSet
    ensures var judged := JudgeRule(Some(active), parse, rule, override);
            var verdict := ValidateRule(active.contract, parse, rule);
            if MeansStrict(override.mode) then
              judged == if verdict == RuleAccepted then Success([]) else Failure(ValidationFailed(verdict))
            else if Spells(override.mode, "warn") then
              judged == Success(if verdict == RuleAccepted then [] else [Violation(verdict)])
            else if Spells(override.mode, "off") then
              if IsBlank(override.reason) then judged == Failure(ReasonRequired)
              else judged == Success([Skipped(TrimSpace(override.reason))])
            else judged == Failure(InvalidMode)
  {
    ModeTexts(override.mode);
    TrimsToNothing(override.reason);
  }

  // ---------------------------------------------------------------- what the modes mean

  /** An override counts as if the contract had been loaded in its mode; only `off` is
      different, it needs a reason. */
  lemma OverrideIsReload(active: Active, parse: string -> Body, rule: ResponseRule, override: Override, mode: Mode)
    requires override.modeSet && NormalizeMode(override.mode) == Some(mode)
    ensures var reloaded := JudgeRule(Some(active.(mode := mode)), parse, rule, NO_OVERRIDE);
            var judged := JudgeRule(Some(active), parse, rule, override);
            if mode != Off then judged == reloaded
            else reloaded.Success? && (judged.Success? <==> TrimSpace(override.reason) != "")
  {
  }

  /** A rule passes exactly if the mode that applies exists and, for strict, the rule is
      valid and, for an override to off, there is a reason. Warnings come with every rule
      that passes without being valid. */
  lemma WhenRulesPass(active: Active, parse: string -> Body, rule: ResponseRule, override: Override)
    ensures var judged := JudgeRule(Some(active), parse, rule, override);
            var valid := ValidateRule(active.contract, parse, rule) == RuleAccepted;
            var mode := EffectiveMode(active, override);
            && (judged.Success? <==>
                  && mode.Some? && (mode == Some(Strict) ==> valid)
                  && (mode == Some(Off) && override.modeSet ==> TrimSpace(override.reason) != ""))
            && (judged.Success? && !valid ==> judged.value != [])
  {
  }

  /** From strict over warn to off, the modes accept more and more; warn accepts silently
      exactly what strict accepts. */
  lemma ModesAreOrdered(active: Active, parse: string -> Body, rule: ResponseRule)
    ensures var strict := JudgeRule(Some(active.(mode := Strict)), parse, rule, NO_OVERRIDE);
            var warn := JudgeRule(Some(active.(mode := Warn)), parse, rule, NO_OVERRIDE);
            var off := JudgeRule(Some(active.(mode := Off)), parse, rule, NO_OVERRIDE);
            && warn.Success? && off.Success?
            && (strict.Success? <==> warn == Success([]))
            && (strict.Failure? ==> warn == Success([Violation(strict.error.verdict)]))
  {
  }

  /** Force skips the guard and nothing else: a forced load does what a load without force
      does while no rule is stored. */
  lemma ForceOnlySkipsTheGuard(root: Path, files: Files, floatFits: NumberLiteral -> bool, command: LoadCommand,
      behaviorActive: bool)
    ensures LoadContract(root, files, floatFits, command.(force := true), behaviorActive)
            == LoadContract(root, files, floatFits, command.(force := false), false)
  {
  }

  // ---------------------------------------------------------------- the report of a load

  datatype FeatureWarning = FeatureWarning(feature: Feature, count: nat)

  /** What a load that succeeds tells its caller. */
  datatype Loaded = Loaded(active: Active, unsupportedFeatures: map<Feature, nat>, warnings: seq<FeatureWarning>)

  function WarningIf(features: map<Feature, nat>, f: Feature): seq<FeatureWarning> {
    if CountOf(features, f) > 0 then [FeatureWarning(f, CountOf(features, f))] else []
  }

  /** `unsupportedFeatureWarnings`. */
  function FeatureWarnings(features: map<Feature, nat>): seq<FeatureWarning> {
    WarningIf(features, NonLocalRefs)
    + WarningIf(features, AllOf)
    + WarningIf(features, OneOf)
    + WarningIf(features, AnyOf)
    + WarningIf(features, AdditionalSchema)
  }

  /** The counts are those of the scan of the loaded document, and the warnings say so. */
  ghost predicate ReportsOn(loaded: Loaded) {
    && (forall f :: CountOf(loaded.unsupportedFeatures, f) == Reported(loaded.active.contract.doc, f))
    && loaded.warnings == FeatureWarnings(loaded.unsupportedFeatures)
  }

  function Activated(result: Result<Loaded, OperationError>): Result<Active, OperationError> {
    match result
    case Success(loaded) => Success(loaded.active)
    case Failure(error) => Failure(error)
  }

  lemma InWarnings(features: map<Feature, nat>, warning: FeatureWarning)
    ensures warning in FeatureWarnings(features) <==>
            warning.feature != Not && warning.count == CountOf(features, warning.feature) > 0
  {
    var f := warning.feature;
    assert f == NonLocalRefs || f == AllOf || f == OneOf || f == AnyOf || f == AdditionalSchema || f == Not;
    assert forall g :: warning in WarningIf(features, g) <==> f == g && warning.count == CountOf(features, g) > 0;
  }

  function Place(f: Feature): nat {
    match f
    case NonLocalRefs => 0
    case AllOf => 1
    case OneOf => 2
    case AnyOf => 3
    case AdditionalSchema => 4
    case Not => 5
  }

  ghost predicate AreBelow(warnings: seq<FeatureWarning>, n: nat) {
    && (forall i :: 0 <= i < |warnings| ==> Place(warnings[i].feature) < n)
    && (forall i, j :: 0 <= i < j < |warnings| ==> Place(warnings[i].feature) < Place(warnings[j].feature))
  }

  lemma NextWarning(warnings: seq<FeatureWarning>, features: map<Feature, nat>, f: Feature)
    requires AreBelow(warnings, Place(f))
    ensures AreBelow(warnings + WarningIf(features, f), Place(f) + 1)
  {
  }

  /** The warnings come in a fixed order. */
  lemma WarningsAreOrdered(features: map<Feature, nat>)
    ensures AreBelow(FeatureWarnings(features), 5)
  {
    var warnings := WarningIf(features, NonLocalRefs);
    NextWarning(warnings, features, AllOf);
    warnings := warnings + WarningIf(features, AllOf);
    NextWarning(warnings, features, OneOf);
    warnings := warnings + WarningIf(features, OneOf);
    NextWarning(warnings, features, AnyOf);
    warnings := warnings + WarningIf(features, AnyOf);
    NextWarning(warnings, features, AdditionalSchema);
  }

  /** There is one warning for each feature that is reported, with its count, in a fixed order
      of the features. */
  lemma WarningsAreTheReport(loaded: Loaded, f: Feature, count: nat)
    requires ReportsOn(loaded)
    ensures FeatureWarning(f, count) in loaded.warnings <==>
            count > 0 && count == Reported(loaded.active.contract.doc, f)
    ensures AreBelow(loaded.warnings, 5)
  {
    assert CountOf(loaded.unsupportedFeatures, f) == Reported(loaded.active.contract.doc, f);
    InWarnings(loaded.unsupportedFeatures, FeatureWarning(f, count));
    WarningsAreOrdered(loaded.unsupportedFeatures);
  }

  /** If a contract later turns a rule down for a feature, its load warned of the feature;
      excepted are `not`, and files with a number beyond float64. */
  lemma RefusalWasAnnounced(root: Path, files: Files, floatFits: NumberLiteral -> bool, command: LoadCommand,
      behaviorActive: bool, loaded: Loaded, parse: string -> Body, rule: ResponseRule, f: Feature)
    requires LoadContract(root, files, floatFits, command, behaviorActive) == Success(loaded.active)
    requires ReportsOn(loaded) && ValidateRule(loaded.active.contract, parse, rule).StopsAt(f)
    requires f != Not && NumbersFit(loaded.active.contract.doc.root, floatFits)
    ensures exists warning :: warning in loaded.warnings && warning.feature == f
  {
    var file := files.read(ResolveSpec(root, files.links, command.path).value.readPath);
    RefusalWasReported(file, floatFits, parse, rule, f);
    var count := Reported(loaded.active.contract.doc, f);
    WarningsAreTheReport(loaded, f, count);
    assert FeatureWarning(f, count) in loaded.warnings;
  }

  // ---------------------------------------------------------------- the manager

  class ContractManager {
    var active: Option<Active>
    const root: Path
    const floatFits: NumberLiteral -> bool
    const parse: string -> Body

    constructor (root: Path, floatFits: NumberLiteral -> bool, parse: string -> Body)
      ensures active == None
      ensures this.root == root && this.floatFits == floatFits && this.parse == parse
    {
      this.root, this.floatFits, this.parse := root, floatFits, parse;
      active := None;
    }

    /** A failed load leaves the active contract alone. */
    method LoadOpenAPIContract(command: LoadCommand, files: Files, behaviorActive: bool)
      returns (result: Result<Loaded, OperationError>)
      modifies this
      ensures Activated(result) == LoadContract(root, files, floatFits, command, behaviorActive)
      ensures result.Success? ==> ReportsOn(result.value)
      ensures active == if result.Success? then Some(result.value.active) else old(active)
    {
      if TrimSpace(command.path) == "" {
        return Failure(NoPath);
      }
      if behaviorActive && !command.force {
        return Failure(ResetRequired);
      }
      var mode := NormalizeMode(command.validationMode);
      if mode.None? {
        return Failure(InvalidMode);
      }
      var resolved := Resolve(root, files.links, command.path);
      if resolved.Failure? {
        return Failure(PathRefused(resolved.error));
      }
      var loaded := Load(files.read(resolved.value.readPath), floatFits);
      if loaded.Failure? {
        return Failure(LoadFailed(loaded.error));
      }
      var features := ScanUnsupportedFeatures(loaded.value.doc);
      active := Some(Active(loaded.value, command.contractId, mode.value));
      return Success(Loaded(active.value, features, FeatureWarnings(features)));
    }

    method UnloadOpenAPIContract(force: bool, behaviorActive: bool)
      returns (result: Result<Option<Active>, OperationError>)
      modifies this
      ensures result == if behaviorActive && !force then Failure(ResetRequired) else Success(old(active))
      ensures active == if result.Success? then None else old(active)
    {
      if behaviorActive && !force {
        return Failure(ResetRequired);
      }
      var previous := active;
      active := None;
      return Success(previous);
    }

    method ValidateResponseRule(rule: ResponseRule, override: Override)
      returns (result: Result<seq<Warning>, OperationError>)
      ensures result == JudgeRule(active, parse, rule, override)
    {
      var current := active;
      if current.None? {
        return Success([]);
      }
      var mode := current.value.mode;
      if override.modeSet {
        var normalized := NormalizeMode(override.mode);
        if normalized.None? {
          return Failure(InvalidMode);
        }
        mode := normalized.value;
      }
      if mode == Off {
        if override.modeSet && TrimSpace(override.reason) == "" {
          return Failure(ReasonRequired);
        }
        if override.modeSet {
          return Success([Skipped(TrimSpace(override.reason))]);
        }
        return Success([ValidationOff]);
      }
      var verdict := Contracts.ValidateResponseRule(current.value.contract, parse, rule);
      if verdict != RuleAccepted {
        if mode == Warn {
          return Success([Violation(verdict)]);
        }
        return Failure(ValidationFailed(verdict));
      }
      return Success([]);
    }
  }

  // ---------------------------------------------------------------- the plane

  /** What the commands act on: the store and the active contract. */
  datatype PlaneState = PlaneState(store: StoreState, active: Option<Active>)

  /** What never changes while the process runs. The validator is the optional one that the
      plane can be built with; without one, every rule passes it. */
  datatype Setup = Setup(
    root: Path,
    floatFits: NumberLiteral -> bool,
    parse: string -> Body,
    validator: ResponseRule -> bool,
    hasSender: bool)

  /** What both judges together say to a rule. */
  ghost function AdmitRule(setup: Setup, active: Option<Active>, rule: ResponseRule, override: Override):
      Result<seq<Warning>, OperationError> {
    var judged := JudgeRule(active, setup.parse, rule, override);
    if judged.Success? && !setup.validator(rule) then Failure(RefusedByValidator) else judged
  }

  ghost function ConfigureSpec(setup: Setup, s: PlaneState, rule: ResponseRule, override: Override): (PlaneState,
      Result<seq<Warning>, OperationError>) {
    var admitted := AdmitRule(setup, s.active, rule, override);
    (if admitted.Success? then s.(store := s.store.(rule := Some(rule))) else s, admitted)
  }

  ghost function LoadSpec(setup: Setup, s: PlaneState, command: LoadCommand, files: Files): (PlaneState,
      Result<Active, OperationError>)
  {
    var result := LoadContract(setup.root, files, setup.floatFits, command, s.store.rule.Some?);
    (if result.Success? then s.(active := Some(result.value)) else s, result)
  }

  /** `UnloadOpenAPIContract`, given the flag. */
  function UnloadContract(active: Option<Active>, force: bool, behaviorActive: bool):
      Result<Option<Active>, OperationError> {
    if behaviorActive && !force then Failure(ResetRequired) else Success(active)
  }

  ghost function UnloadSpec(s: PlaneState, force: bool): (PlaneState, Result<Option<Active>, OperationError>) {
    var result := UnloadContract(s.active, force, s.store.rule.Some?);
    (if result.Success? then s.(active := None) else s, result)
  }

  datatype SendError = NoEndpoint | SendFailed(message: string)

  /** Sending an event: `sent` is what the sender answers, if there is one. */
  function SendEvent(hasSender: bool, sent: Result<Delivery, string>): Result<Delivery, SendError> {
    if !hasSender then Failure(NoEndpoint)
    else
      match sent
      case Failure(message) => Failure(SendFailed(message))
      case Success(delivery) => Success(delivery)
  }

  function SendSpec(setup: Setup, s: PlaneState, sent: Result<Delivery, string>): (PlaneState,
      Result<Delivery, SendError>) {
    var result := SendEvent(setup.hasSender, sent);
    (if result.Success? then s.(store := s.store.(deliveries := s.store.deliveries + [result.value])) else s, result)
  }

  class LocalPlane {
    const store: Store
    const contractManager: ContractManager
    const validator: ResponseRule -> bool
    const hasSender: bool

    ghost function State(): PlaneState
      requires store.Valid()
      reads store, store.observations, store.webhookDeliveries, contractManager
    {
      PlaneState(store.State(), contractManager.active)
    }

    ghost function Config(): Setup {
      Setup(contractManager.root, contractManager.floatFits, contractManager.parse, validator, hasSender)
    }

    constructor (store: Store, manager: ContractManager, validator: ResponseRule -> bool, hasSender: bool)
      ensures this.store == store && contractManager == manager
      ensures this.validator == validator && this.hasSender == hasSender
    {
      this.store, this.contractManager, this.validator, this.hasSender := store, manager, validator, hasSender;
    }

    method ConfigureResponseRuleWithValidation(rule: ResponseRule, override: Override)
      returns (result: Result<seq<Warning>, OperationError>)
      requires store.Valid()
      modifies store`responseRule
      ensures (State(), result) == ConfigureSpec(Config(), old(State()), rule, override)
      ensures result.Failure? ==> State() == old(State())
    {
      result := contractManager.ValidateResponseRule(rule, override);
      if result.Failure? {
        return;
      }
      if !validator(rule) {
        return Failure(RefusedByValidator);
      }
      store.ConfigureResponseRule(rule);
    }

    method LoadOpenAPIContract(command: LoadCommand, files: Files) returns (result: Result<Loaded, OperationError>)
      requires store.Valid()
      modifies contractManager
      ensures (State(), Activated(result)) == LoadSpec(Config(), old(State()), command, files)
      ensures result.Success? ==> ReportsOn(result.value)
      ensures result.Failure? ==> State() == old(State())
    {
      var behaviorActive := store.HasResponseRule();
      result := contractManager.LoadOpenAPIContract(command, files, behaviorActive);
    }

    method UnloadOpenAPIContract(force: bool) returns (result: Result<Option<Active>, OperationError>)
      requires store.Valid()
      modifies contractManager
      ensures (State(), result) == UnloadSpec(old(State()), force)
      ensures result.Failure? ==> State() == old(State())
    {
      var behaviorActive := store.HasResponseRule();
      result := contractManager.UnloadOpenAPIContract(force, behaviorActive);
    }

    /** An event that was not sent leaves no trace. */
    method SendWebhookEvent(sent: Result<Delivery, string>) returns (result: Result<Delivery, SendError>)
      requires store.Valid()
      modifies store`webhookDeliveries, store`delivered, store.webhookDeliveries
      ensures store.Valid() && (State(), result) == SendSpec(Config(), old(State()), sent)
      ensures result.Success? <==> hasSender && sent.Success?
      ensures result.Failure? ==> State() == old(State())
    {
      if !hasSender {
        return Failure(NoEndpoint);
      }
      if sent.Failure? {
        return Failure(SendFailed(sent.error));
      }
      store.RecordWebhookDeliveryObservation(sent.value);
      return Success(sent.value);
    }

    method Reset()
      requires store.Valid()
      modifies store
      ensures store.Valid() && State() == old(State()).(store := old(store.State()).Reset())
    {
      store.Reset();
    }
  }
}
