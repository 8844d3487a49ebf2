/** Whole runs of the engine object: what is proved of the state machine's runs holds of the object's. */
module EngineDriver {
  import opened Clocks
  import opened EngineModel
  import opened DiscoveryEngines
  import EngineLaws

  /** One call of the engine, or one thing the outside world does to the objects it uses. */
  method Perform(engine: DiscoveryEngine, e: Event)
    requires engine.Wired()
    modifies engine, engine.backend, engine.clock, engine.registry, engine.transport
    ensures engine.State() == Step(engine.env, old(engine.State()), e)
  {
    hide EngineModel.Start, EngineModel.Stop, EngineModel.AnnounceNow, EngineModel.ProbeNow, EngineModel.PollOnce;
    match e
    case CallStart =>
      var _ := engine.Start();
    case CallStop =>
      engine.Stop();
    case CallAnnounce =>
      var _ := engine.AnnounceNow();
    case CallProbe =>
      var _ := engine.ProbeNow();
    case CallPoll =>
      var _ := engine.PollOnce();
    case ClockRead =>
      var _ := engine.clock.Now();
    case Arrives(d) =>
      if engine.backend.running {
        engine.backend.inbox := engine.backend.inbox + [d];
      }
    case TransportBecomes(running, peers) =>
      engine.transport.running := running;
      engine.transport.peers := peers;
  }

  /** After any events whatsoever the object's state is the run's; and for a new engine it is consistent, timely
      when the clock does not go back, stores the history of accepted announcements, and has connected each peer
      at most once to a transport that remembers. */
  method PerformAll(engine: DiscoveryEngine, events: seq<Event>)
    requires engine.Wired()
    modifies engine, engine.backend, engine.clock, engine.registry, engine.transport
    ensures engine.State() == Run(engine.env, old(engine.State()), events)
    ensures Initial(old(engine.State())) ==>
              && EngineLaws.Consistent(engine.env, engine.State())
              && (Nondecreasing(engine.env.at) ==> EngineLaws.Timely(engine.env, engine.State()))
              && EngineLaws.StoredAnnouncements(engine.registry.peers)
                 == EngineLaws.LastById(EngineLaws.History(engine.env, old(engine.State()), events))
              && (EngineLaws.TransportRemembers(engine.env, old(engine.State()), events) ==>
                    EngineLaws.ConnectedOnce(engine.transport.View()))
  {
    hide Step, EngineLaws.Consistent, EngineLaws.Timely, EngineLaws.StoredAnnouncements, Initial;
    ghost var s := engine.State();
    for i := 0 to |events|
      invariant engine.State() == Run(engine.env, s, events[..i])
    {
      Perform(engine, events[i]);
      assert events[..i + 1][..i] == events[..i];
    }
    assert events[..|events|] == events;
    if Initial(s) {
      RunLaws(engine.env, s, events);
    }
  }

  /** The laws of EngineLaws for one run. */
  lemma RunLaws(env: Env, s: Engine, events: seq<Event>)
    requires Initial(s)
    ensures var r := Run(env, s, events);
            && EngineLaws.Consistent(env, r)
            && (Nondecreasing(env.at) ==> EngineLaws.Timely(env, r))
            && EngineLaws.StoredAnnouncements(r.peers) == EngineLaws.LastById(EngineLaws.History(env, s, events))
            && (EngineLaws.TransportRemembers(env, s, events) ==> EngineLaws.ConnectedOnce(r.transport))
  {
    hide Run, EngineLaws.Consistent, EngineLaws.Timely, EngineLaws.StoredAnnouncements;
    EngineLaws.AlwaysConsistent(env, s, events);
    EngineLaws.RegistryIsHistory(env, s, events);
    if Nondecreasing(env.at) {
      EngineLaws.AlwaysTimely(env, s, events);
    }
    if EngineLaws.TransportRemembers(env, s, events) {
      EngineLaws.ConnectedAtMostOnce(env, s, events);
    }
  }
}
