/** The data plane: a request is matched in one step and recorded in a later one. */
module Server {
  import opened Wrappers
  import opened Stores

  /** Without a content type the header is not set. */
  datatype Reply = Configured(statusCode: int, contentType: Option<string>, body: string) | NotImplemented

  /** A request that has been answered by a rule and is yet to be recorded. */
  datatype Pending = Pending(verb: string, path: string, rule: ResponseRule)
  {
    function Observed(): Observation {
      Observation(verb, path, rule.id, rule.statusCode)
    }

    function Answer(): Reply {
      Configured(rule.statusCode, if rule.contentType == "" then None else Some(rule.contentType), rule.body)
    }
  }

  /** The first step of a request. */
  function Begin(s: StoreState, verb: string, path: string): Option<Pending> {
    var rule :- s.Match(verb, path);
    Some(Pending(verb, path, rule))
  }

  /** The second step. */
  function Finish(s: StoreState, pending: Pending): StoreState {
    s.(observations := s.observations + [pending.Observed()])
  }

  class DataPlane {
    const store: Store

    constructor (store: Store)
      ensures this.store == store
    {
      this.store := store;
    }

    /** `handleDataPlane`, when nothing comes between its two steps. */
    method HandleDataPlane(verb: string, path: string) returns (reply: Reply)
      requires store.Valid()
      modifies store`observations, store`observed, store.observations
      ensures store.Valid()
      ensures var begun := Begin(old(store.State()), verb, path);
              if begun.Some? then
                reply == begun.value.Answer() && store.State() == Finish(old(store.State()), begun.value)
              else reply == NotImplemented && store.State() == old(store.State())
    {
      var rule := store.MatchResponseRule(verb, path);
      if rule.None? {
        return NotImplemented;
      }
      var header := None;
      if rule.value.contentType != "" {
        header := Some(rule.value.contentType);
      }
      reply := Configured(rule.value.statusCode, header, rule.value.body);
      store.RecordObservation(Observation(verb, path, rule.value.id, rule.value.statusCode));
    }
  }
}
