/** The user-facing service as a class; ServiceModel says what its methods do. */
module Services {
  import opened Serializer
  import opened Types
  import opened Registry
  import opened EngineModel
  import opened DiscoveryEngines
  import opened Notification
  import opened ServiceModel
  import EngineDriver
  import EngineLaws
  import ServiceLaws
  import Batch

  class DiscoveryService {
    const engine: DiscoveryEngine
    const optionsValid: bool
    var handlerInstalled: bool
    var knownPeerCount: nat
    /** The callbacks made so far. */
    var found: seq<PublicPeer>

    ghost function View(): Service
      reads this, engine, engine.clock, engine.backend, engine.registry, engine.transport
    {
      Service(engine.State(), optionsValid, handlerInstalled, knownPeerCount, found)
    }

    ghost predicate Valid()
      reads this, engine, engine.clock, engine.backend, engine.registry, engine.transport
    {
      engine.Wired() && EngineLaws.Consistent(engine.env, engine.State())
    }

    constructor (engine: DiscoveryEngine, optionsValid: bool)
      requires engine.Wired() && Initial(engine.State())
      ensures Valid() && this.engine == engine && this.optionsValid == optionsValid
      ensures New(View())
    {
      this.engine, this.optionsValid := engine, optionsValid;
      handlerInstalled, knownPeerCount, found := false, 0, [];
      new;
      EngineLaws.AlwaysConsistent(engine.env, engine.State(), []);
    }

    /** The count starts from the size of the registry, not from the number of available peers. */
    method Start() returns (ok: bool)
      requires Valid()
      modifies this`knownPeerCount, engine, engine.backend
      ensures Valid()
      ensures View() == Next(engine.env, old(View()), Starts)
      ensures ok == (optionsValid && EngineModel.Start(engine.env, old(engine.State())).1)
      ensures !optionsValid ==> View() == old(View())
      ensures ok && old(engine.State()).status != Running ==>
                knownPeerCount == |AvailableIds(engine.State().peers)| == 0
    {
      hide EngineLaws.Consistent;
      StoppedIsEmpty(engine.env, engine.State());
      ServiceLaws.NextKeepsConsistent(engine.env, View(), Starts);
      if !optionsValid {
        return false;
      }
      knownPeerCount := |engine.registry.peers|;
      ok := engine.Start();
    }

    method Stop()
      requires Valid()
      modifies this`knownPeerCount, engine, engine.backend, engine.registry
      ensures Valid()
      ensures View() == Next(engine.env, old(View()), Stops)
    {
      hide EngineLaws.Consistent;
      ServiceLaws.NextKeepsConsistent(engine.env, View(), Stops);
      engine.Stop();
      knownPeerCount := 0;
    }

    method AnnounceNow() returns (sent: bool)
      requires Valid()
      modifies engine, engine.backend, engine.clock
      ensures Valid()
      ensures View() == Next(engine.env, old(View()), Passes(CallAnnounce))
      ensures sent == EngineModel.AnnounceNow(engine.env, old(engine.State())).1
    {
      hide EngineLaws.Consistent, EngineModel.AnnounceNow;
      ServiceLaws.NextKeepsConsistent(engine.env, View(), Passes(CallAnnounce));
      sent := engine.AnnounceNow();
    }

    method ProbeNow() returns (sent: bool)
      requires Valid()
      modifies engine.backend, engine.clock
      ensures Valid()
      ensures View() == Next(engine.env, old(View()), Passes(CallProbe))
      ensures sent == EngineModel.ProbeNow(engine.env, old(engine.State())).1
    {
      hide EngineLaws.Consistent, EngineModel.ProbeNow;
      ServiceLaws.NextKeepsConsistent(engine.env, View(), Passes(CallProbe));
      sent := engine.ProbeNow();
    }

    /** The handler may be empty, which leaves none installed. */
    method OnPeerFound(handler: bool)
      requires Valid()
      modifies this`handlerInstalled
      ensures Valid()
      ensures View() == Next(engine.env, old(View()), Installs(handler))
    {
      handlerInstalled := handler;
    }

    /** The public peer's constructor reads the clock; the reading is then overwritten. */
    method ToPublicPeer(p: DiscoveredPeer) returns (r: PublicPeer)
      modifies engine.clock
      ensures r == Public(p) && engine.clock.tick == old(engine.clock.tick) + 1
    {
      var now := engine.clock.Now();
      r := PublicPeer(p.announcement.nodeId, p.announcement.host, p.announcement.port, now);
      r := r.(lastSeenAt := p.lastSeenAt);
    }

    /** All peers currently available, each once; none is dropped as invalid. */
    method Peers() returns (result: seq<PublicPeer>, ghost order: seq<bytes>)
      requires Valid()
      modifies engine.clock
      ensures Valid()
      ensures Enumerates(order, AvailableIds(engine.registry.peers))
      ensures result == Publics(Select(engine.registry.peers, order))
      ensures var peers := engine.registry.peers;
              forall id :: id in order <==> id in peers && (peers[id].state == Discovered || peers[id].state == Alive)
      ensures forall i :: 0 <= i < |result| ==> result[i].nodeId == order[i] && Shows(result[i], engine.registry.peers)
      ensures View() == Next(engine.env, old(View()), Lists)
    {
      hide EngineLaws.Consistent, AvailableIds, Shows;
      PublicPeersAreValid(engine.env, engine.State());
      var discovered;
      discovered, order := engine.registry.AvailablePeers();
      ListedAreAvailable(engine.registry.peers, order);
      ServiceLaws.PublicsShowTheRegistry(engine.env, engine.State(), order);
      ListedArePresent(engine.registry.peers, order);
      result := [];
      for i := 0 to |discovered|
        invariant engine.State() == old(engine.State()).(tick := old(engine.clock.tick) + i)
        invariant result == Publics(discovered[..i])
      {
        assert order[i] in order;
        var public := ToPublicPeer(discovered[i]);
        if public.IsValid() {
          result := result + [public];
        }
      }
      assert discovered[..|discovered|] == discovered;
      ServiceLaws.ClockReadingsKeepConsistent(engine.env, old(engine.State()), engine.clock.tick);
    }

    /** The callbacks for the listed peers from a position on; invalid public peers are skipped. */
    method Report(discovered: seq<DiscoveredPeer>, from: nat)
      requires from <= |discovered|
      requires forall i :: from <= i < |discovered| ==> Public(discovered[i]).IsValid()
      modifies this`found, engine.clock
      ensures found == old(found) + Publics(discovered[from..])
      ensures engine.clock.tick == old(engine.clock.tick) + |discovered| - from
    {
      ghost var reported := Publics(discovered[from..]);
      for i := from to |discovered|
        invariant found == old(found) + reported[..i - from]
        invariant engine.clock.tick == old(engine.clock.tick) + i - from
      {
        var public := ToPublicPeer(discovered[i]);
        assert public == reported[i - from];
        if public.IsValid() {
          found := found + [public];
        }
      }
    }

    /** With a handler, the callbacks made are for the reported part of the map's listing, and none is lost to an
        invalid public peer; without one, only the count moves. */
    method NotifyNewPeers() returns (ghost order: seq<bytes>)
      requires Valid()
      modifies this`knownPeerCount, this`found, engine.clock
      ensures Valid()
      ensures Enumerates(order, AvailableIds(old(engine.State()).peers))
      ensures View() == Notified(old(View()), old(engine.State()), order)
      ensures old(found) <= found
      ensures forall i :: |old(found)| <= i < |found| ==> Shows(found[i], engine.registry.peers)
    {
      hide EngineLaws.Consistent, Enumerates, AvailableIds, Select, Shows;
      ghost var s := engine.State();
      PublicPeersAreValid(engine.env, s);
      var discovered;
      discovered, order := engine.registry.AvailablePeers();
      ListedArePresent(s.peers, order);
      SelectReported(s.peers, knownPeerCount, order);
      NotifiedShows(engine.env, View(), order);
      if handlerInstalled && |discovered| > knownPeerCount {
        assert forall i :: 0 <= i < |order| ==> discovered[i] == s.peers[order[i]];
        Report(discovered, knownPeerCount);
      }
      knownPeerCount := |discovered|;
      ServiceLaws.ClockReadingsKeepConsistent(engine.env, s, engine.clock.tick);
      assert engine.State() == s.(tick := engine.clock.tick);
    }

    /** One poll fires one callback for each peer by which the available count exceeds the known count. */
    method Poll() returns (processed: bool, ghost order: seq<bytes>)
      requires Valid()
      modifies this`knownPeerCount, this`found
      modifies engine, engine.clock, engine.backend, engine.registry, engine.transport
      ensures Valid()
      ensures forall i :: |old(found)| <= i < |found| ==> Shows(found[i], engine.registry.peers)
      ensures processed == EngineModel.PollOnce(engine.env, old(engine.State())).1
      ensures Legal(engine.env, old(View()), Polls(order))
      ensures View() == Next(engine.env, old(View()), Polls(order))
      ensures knownPeerCount == |AvailableIds(engine.State().peers)|
      ensures old(found) <= found
      ensures |found| - |old(found)| ==
              if handlerInstalled then ServiceLaws.Excess(knownPeerCount, old(knownPeerCount)) else 0
    {
      hide EngineModel.PollOnce, EngineLaws.Consistent, Enumerates, AvailableIds, Shows;
      ghost var s := View();
      EngineLaws.StepKeepsConsistent(engine.env, engine.State(), CallPoll);
      processed := engine.PollOnce();
      order := NotifyNewPeers();
      ServiceLaws.NextCalls(engine.env, s, Polls(order));
    }

    method PollMany(maxMessages: nat) returns (processed: nat, ghost order: seq<bytes>)
      requires Valid()
      modifies this`knownPeerCount, this`found
      modifies engine, engine.clock, engine.backend, engine.registry, engine.transport
      ensures Valid()
      ensures forall i :: |old(found)| <= i < |found| ==> Shows(found[i], engine.registry.peers)
      ensures Legal(engine.env, old(View()), PollsMany(maxMessages, processed, order))
      ensures View() == Next(engine.env, old(View()), PollsMany(maxMessages, processed, order))
      ensures knownPeerCount == |AvailableIds(engine.State().peers)|
      ensures old(found) <= found
      ensures |found| - |old(found)| ==
              if handlerInstalled then ServiceLaws.Excess(knownPeerCount, old(knownPeerCount)) else 0
    {
      hide EngineModel.PollOnce, Batch.Polls, EngineLaws.Consistent, Enumerates, AvailableIds, Shows;
      ghost var s := View();
      processed := engine.PollMany(maxMessages);
      Batch.BatchKeepsConsistent(engine.env, s.engine, if processed < maxMessages then processed + 1 else processed);
      order := NotifyNewPeers();
      ServiceLaws.NextCalls(engine.env, s, PollsMany(maxMessages, processed, order));
    }
  }

  // ---- Whole runs of the service object ----

  /** The request made by an event: what the service answers is left out. */
  function Asked(e: ServiceEvent): ServiceEvent {
    match e
    case Polls(_) => Polls([])
    case PollsMany(max, _, _) => PollsMany(max, 0, [])
    case _ => e
  }

  /** Makes one request. */
  method Ask(service: DiscoveryService, request: ServiceEvent) returns (ghost e: ServiceEvent)
    requires service.Valid()
    modifies service, service.engine, service.engine.clock, service.engine.backend
    modifies service.engine.registry, service.engine.transport
    ensures service.Valid()
    ensures Asked(e) == Asked(request) && Legal(service.engine.env, old(service.View()), e)
    ensures service.View() == Next(service.engine.env, old(service.View()), e)
  {
    hide EngineAfter, Notified, EngineLaws.Consistent;
    e := request;
    match request
    case Starts =>
      var _ := service.Start();
    case Stops =>
      service.Stop();
    case Installs(handler) =>
      service.OnPeerFound(handler);
    case Passes(event) =>
      ServiceLaws.NextKeepsConsistent(service.engine.env, service.View(), e);
      EngineDriver.Perform(service.engine, event);
      assert EngineAfter(service.engine.env, old(service.View()), e) == service.engine.State() by {
        EngineTakesStep(service.engine.env, old(service.View()), event);
      }
    case Lists =>
      var _, _ := service.Peers();
    case Polls(_) =>
      var _, order := service.Poll();
      e := Polls(order);
    case PollsMany(max, _, _) =>
      var processed, order := service.PollMany(max);
      e := PollsMany(max, processed, order);
  }

  /** Whatever is asked of a new service, and whatever arrives, the object goes through a run of the model, with
      the listings its map happened to give: so the callbacks number the rises of the available count. */
  method AskAll(service: DiscoveryService, requests: seq<ServiceEvent>) returns (ghost events: seq<ServiceEvent>)
    requires service.Valid()
    modifies service, service.engine, service.engine.clock, service.engine.backend
    modifies service.engine.registry, service.engine.transport
    ensures service.Valid()
    ensures |events| == |requests| && forall i :: 0 <= i < |events| ==> Asked(events[i]) == Asked(requests[i])
    ensures LegalRun(service.engine.env, old(service.View()), events)
    ensures service.View() == Serve(service.engine.env, old(service.View()), events)
    ensures New(old(service.View())) ==>
              |service.found| == ServiceLaws.Rises(service.engine.env, old(service.View()), {}, events)
  {
    hide Legal, Next, Asked, EngineLaws.Consistent, ServiceLaws.Rises;
    events := [];
    ghost var s := service.View();
    for i := 0 to |requests|
      invariant service.Valid()
      invariant |events| == i && forall k :: 0 <= k < i ==> Asked(events[k]) == Asked(requests[k])
      invariant LegalRun(service.engine.env, s, events)
      invariant service.View() == Serve(service.engine.env, s, events)
    {
      ghost var e := Ask(service, requests[i]);
      assert (events + [e])[..i] == events;
      events := events + [e];
    }
    if New(s) {
      ServiceLaws.CallbacksAreRises(service.engine.env, s, {}, events);
    }
  }

  // ---- Helpers ----

  lemma EngineTakesStep(env: Env, s: Service, event: Event)
    ensures EngineAfter(env, s, Passes(event)) == Step(env, s.engine, event)
  {
  }

  lemma StoppedIsEmpty(env: Env, s: Engine)
    requires EngineLaws.Consistent(env, s)
    ensures s.status != Running ==> s.peers == map[]
  {
  }

  lemma PublicPeersAreValid(env: Env, s: Engine)
    requires EngineLaws.Consistent(env, s)
    ensures forall id :: id in s.peers ==> Public(s.peers[id]).IsValid()
  {
  }

  lemma ListedAreAvailable(peers: Peers, order: seq<bytes>)
    requires Enumerates(order, AvailableIds(peers))
    ensures forall id :: id in order <==> id in peers && peers[id].Available()
  {
  }

  lemma NotifiedShows(env: Env, s: Service, order: seq<bytes>)
    requires EngineLaws.Consistent(env, s.engine) && Enumerates(order, AvailableIds(s.engine.peers))
    ensures var r := Notified(s, s.engine, order);
            && s.found <= r.found
            && forall i :: |s.found| <= i < |r.found| ==> Shows(r.found[i], s.engine.peers)
  {
    hide EngineLaws.Consistent, Shows;
    ServiceLaws.PublicsShowTheRegistry(env, s.engine, if s.handler then Reported(s.known, order) else []);
  }

  lemma ListedArePresent(peers: Peers, order: seq<bytes>)
    requires Enumerates(order, AvailableIds(peers))
    ensures |order| == |AvailableIds(peers)| && forall i :: 0 <= i < |order| ==> order[i] in peers
  {
    EnumerationSize(order, AvailableIds(peers));
    forall i | 0 <= i < |order| ensures order[i] in peers {
      assert order[i] in order;
    }
  }

  lemma SelectReported(peers: Peers, known: nat, order: seq<bytes>)
    requires forall i :: 0 <= i < |order| ==> order[i] in peers
    ensures forall id :: id in Reported(known, order) ==> id in peers
    ensures Select(peers, Reported(known, order))
         == if |order| <= known then [] else Select(peers, order)[known..]
  {
  }
}
