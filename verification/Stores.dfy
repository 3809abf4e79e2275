/** The in-memory store: one response rule, a generation counter and two logs. Each method
    runs under the store's lock and is one atomic step. */
module Stores {
  import opened Wrappers

  datatype ResponseRule = ResponseRule(
    id: string,
    verb: string,
    path: string,
    statusCode: int,
    contentType: string,
    body: string)

  datatype Observation = Observation(
    requestMethod: string,
    requestPath: string,
    matchedRuleId: string,
    outcomeStatusCode: int)

  datatype Delivery = Delivery(
    eventId: string,
    endpointName: string,
    verb: string,
    outcome: string,
    statusCode: int,
    error: string)

  /** The contents of a store. */
  datatype StoreState = StoreState(
    generation: nat,
    rule: Option<ResponseRule>,
    observations: seq<Observation>,
    deliveries: seq<Delivery>)
  {
    function Match(verb: string, path: string): Option<ResponseRule> {
      if rule.Some? && rule.value.verb == verb && rule.value.path == path then rule else None
    }

    /** The counter is a 64-bit word and wraps around. */
    function Reset(): StoreState {
      StoreState((generation + 1) % GENERATIONS, None, [], [])
    }
  }

  const EMPTY_STORE := StoreState(0, None, [], [])

  const GENERATIONS: nat := 0x1_0000_0000_0000_0000

  /** `append`: in place while there is room behind the last element, else into new storage. */
  method Append<T(0)>(storage: array<T>, length: nat, item: T) returns (grown: array<T>)
    requires length <= storage.Length
    modifies storage
    ensures grown == storage || fresh(grown)
    ensures length < grown.Length && grown[..length + 1] == old(storage[..length]) + [item]
  {
    grown := storage;
    if length == storage.Length {
      grown := new T[2 * length + 1];
      for i := 0 to length
        invariant storage[..] == old(storage[..])
        invariant grown[..i] == storage[..i]
      {
        grown[i] := storage[i];
      }
    }
    assert grown[..length] == old(storage[..length]);
    grown[length] := item;
    assert grown[..length + 1] == grown[..length] + [item];
  }

  /** `make` and `copy`: a new slice, then overwritten. */
  method CopyOf<T(0)>(storage: array<T>, length: nat) returns (copied: array<T>)
    requires length <= storage.Length
    ensures fresh(copied) && copied[..] == storage[..length]
  {
    copied := new T[length];
    for i := 0 to length
      invariant copied[..i] == storage[..i]
    {
      copied[i] := storage[i];
    }
  }

  /** Each log is a slice: storage that is appended to in place, and the length in use. */
  class Store {
    var generation: nat
    var responseRule: Option<ResponseRule>
    var observations: array<Observation>
    var observed: nat
    var webhookDeliveries: array<Delivery>
    var delivered: nat

    ghost predicate Valid()
      reads this
    {
      observed <= observations.Length && delivered <= webhookDeliveries.Length
    }

    ghost function State(): StoreState
      requires Valid()
      reads this, observations, webhookDeliveries
    {
      StoreState(generation, responseRule, observations[..observed], webhookDeliveries[..delivered])
    }

    constructor ()
      ensures Valid() && fresh(observations) && fresh(webhookDeliveries)
      ensures State() == EMPTY_STORE
    {
      generation := 0;
      responseRule := None;
      observations, observed := new Observation[0], 0;
      webhookDeliveries, delivered := new Delivery[0], 0;
    }

    /** Nil slices: the storage of the old logs is given up, not emptied. */
    method Reset()
      requires Valid()
      modifies this
      ensures Valid() && fresh(observations) && fresh(webhookDeliveries)
      ensures State() == old(State()).Reset()
    {
      responseRule := None;
      observations, observed := new Observation[0], 0;
      webhookDeliveries, delivered := new Delivery[0], 0;
      generation := (generation + 1) % GENERATIONS;
    }

    method ConfigureResponseRule(rule: ResponseRule)
      requires Valid()
      modifies `responseRule
      ensures State() == old(State()).(rule := Some(rule))
    {
      responseRule := Some(rule);
    }

    method HasResponseRule() returns (has: bool)
      requires Valid()
      ensures has <==> State().rule.Some?
    {
      has := responseRule.Some?;
    }

    method MatchResponseRule(verb: string, path: string) returns (matched: Option<ResponseRule>)
      requires Valid()
      ensures matched == State().Match(verb, path)
    {
      if responseRule.None? {
        return None;
      }
      if responseRule.value.verb != verb || responseRule.value.path != path {
        return None;
      }
      return responseRule;
    }

    method RecordObservation(observation: Observation)
      requires Valid()
      modifies `observations, `observed, observations
      ensures Valid() && (observations == old(observations) || fresh(observations))
      ensures State() == old(State()).(observations := old(State()).observations + [observation])
    {
      observations := Append(observations, observed, observation);
      observed := observed + 1;
    }

    method RecordWebhookDeliveryObservation(delivery: Delivery)
      requires Valid()
      modifies `webhookDeliveries, `delivered, webhookDeliveries
      ensures Valid() && (webhookDeliveries == old(webhookDeliveries) || fresh(webhookDeliveries))
      ensures State() == old(State()).(deliveries := old(State()).deliveries + [delivery])
    {
      webhookDeliveries := Append(webhookDeliveries, delivered, delivery);
      delivered := delivered + 1;
    }

    /** A copy in storage of its own. */
    method Observations() returns (copied: array<Observation>)
      requires Valid()
      ensures fresh(copied) && copied[..] == State().observations
    {
      copied := CopyOf(observations, observed);
    }

    method WebhookDeliveryObservations() returns (copied: array<Delivery>)
      requires Valid()
      ensures fresh(copied) && copied[..] == State().deliveries
    {
      copied := CopyOf(webhookDeliveries, delivered);
    }
  }

  // ---------------------------------------------------------------- copies

  /** The calls that change a store. */
  datatype Call =
    | SetRule(rule: ResponseRule)
    | AddObservation(observation: Observation)
    | AddDelivery(delivery: Delivery)
    | ResetStore

  function AfterCalls(s: StoreState, calls: seq<Call>): StoreState {
    if calls == [] then s
    else
      var before := AfterCalls(s, calls[..|calls| - 1]);
      match calls[|calls| - 1]
      case SetRule(rule) => before.(rule := Some(rule))
      case AddObservation(observation) => before.(observations := before.observations + [observation])
      case AddDelivery(delivery) => before.(deliveries := before.deliveries + [delivery])
      case ResetStore => before.Reset()
  }

  method Perform(store: Store, call: Call)
    requires store.Valid()
    modifies store, store.observations, store.webhookDeliveries
    ensures store.Valid() && store.State() == AfterCalls(old(store.State()), [call])
    ensures store.observations == old(store.observations) || fresh(store.observations)
    ensures store.webhookDeliveries == old(store.webhookDeliveries) || fresh(store.webhookDeliveries)
  {
    match call {
      case SetRule(rule) => store.ConfigureResponseRule(rule);
      case AddObservation(observation) => store.RecordObservation(observation);
      case AddDelivery(delivery) => store.RecordWebhookDeliveryObservation(delivery);
      case ResetStore => store.Reset();
    }
  }

  /** Copies show the logs of the moment they were taken for good, whatever calls the store
      receives afterwards, in whatever order, and although logs grow in place. */
  method CopyThenCall(store: Store, calls: seq<Call>)
    returns (observations: array<Observation>, deliveries: array<Delivery>)
    requires store.Valid()
    modifies store, store.observations, store.webhookDeliveries
    ensures store.Valid() && store.State() == AfterCalls(old(store.State()), calls)
    ensures observations[..] == old(store.State()).observations
    ensures deliveries[..] == old(store.State()).deliveries
  {
    observations := store.Observations();
    deliveries := store.WebhookDeliveryObservations();
    for i := 0 to |calls|
      invariant store.Valid() && observations != store.observations && deliveries != store.webhookDeliveries
      invariant store.observations == old(store.observations) || fresh(store.observations)
      invariant store.webhookDeliveries == old(store.webhookDeliveries) || fresh(store.webhookDeliveries)
      invariant store.State() == AfterCalls(old(store.State()), calls[..i])
      invariant observations[..] == old(store.State()).observations
      invariant deliveries[..] == old(store.State()).deliveries
    {
      OneMoreCall(old(store.State()), calls, i);
      Perform(store, calls[i]);
    }
    assert calls[..|calls|] == calls;
  }

  lemma OneMoreCall(s: StoreState, calls: seq<Call>, i: nat)
    requires i < |calls|
    ensures AfterCalls(s, calls[..i + 1]) == AfterCalls(AfterCalls(s, calls[..i]), [calls[i]])
  {
    assert calls[..i + 1][..i] == calls[..i] && [calls[i]][..0] == [];
  }
}
