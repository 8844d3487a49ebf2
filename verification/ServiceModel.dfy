/** The user-facing service as a state machine: an engine, and a callback for newly found peers driven by a count.
    The order in which the peer map is listed is not determined by the state, so it is part of the event. */
module ServiceModel {
  import opened Serializer
  import opened Types
  import opened Registry
  import opened EngineModel
  import opened Notification
  import Batch

  /** What the user sees of a peer. */
  datatype PublicPeer = PublicPeer(nodeId: bytes, host: bytes, port: u16, lastSeenAt: Millis) {
    predicate IsValid() {
      nodeId != [] && host != [] && port != 0 && IsSet(lastSeenAt)
    }
  }

  function Public(p: DiscoveredPeer): PublicPeer {
    PublicPeer(p.announcement.nodeId, p.announcement.host, p.announcement.port, p.lastSeenAt)
  }

  function Publics(ps: seq<DiscoveredPeer>): (r: seq<PublicPeer>)
    ensures |r| == |ps| && forall i :: 0 <= i < |ps| ==> r[i] == Public(ps[i])
  {
    seq(|ps|, i requires 0 <= i < |ps| => Public(ps[i]))
  }

  /** A public peer gives the endpoint and the sighting of the available entry under its id. */
  ghost predicate Shows(q: PublicPeer, peers: Peers) {
    && q.nodeId in peers
    && (peers[q.nodeId].state == Discovered || peers[q.nodeId].state == Alive)
    && q.host == peers[q.nodeId].announcement.host
    && q.port == peers[q.nodeId].announcement.port
    && q.lastSeenAt == peers[q.nodeId].lastSeenAt
  }

  function IdsOf(ps: seq<PublicPeer>): (r: seq<bytes>)
    ensures |r| == |ps| && forall i :: 0 <= i < |ps| ==> r[i] == ps[i].nodeId
  {
    seq(|ps|, i requires 0 <= i < |ps| => ps[i].nodeId)
  }

  // ---- The service ----

  /** found holds the callbacks made so far. */
  datatype Service = Service(engine: Engine, optionsValid: bool, handler: bool, known: nat, found: seq<PublicPeer>)

  /** A public call, or through the engine an event of its own. The last two carry what the state does not
      determine, or what follows from it: the listing of the available peers, and a batch's result. */
  datatype ServiceEvent =
    | Starts
    | Stops
    | Installs(handler: bool)
    | Passes(event: Event)
    | Lists
    | Polls(order: seq<bytes>)
    | PollsMany(max: nat, processed: nat, order: seq<bytes>)

  predicate Notifies(e: ServiceEvent) {
    e.Polls? || e.PollsMany?
  }

  /** The engine after the call, before any notification. */
  function EngineAfter(env: Env, s: Service, e: ServiceEvent): Engine {
    match e
    case Starts => if s.optionsValid then Start(env, s.engine).0 else s.engine
    case Stops => Stop(s.engine)
    case Installs(_) => s.engine
    case Passes(event) => Step(env, s.engine, event)
    case Lists => s.engine.(tick := s.engine.tick + |AvailableIds(s.engine.peers)|)
    case Polls(_) => PollOnce(env, s.engine).0
    case PollsMany(max, n, _) => Batch.Polls(env, s.engine, if n < max then n + 1 else n)
  }

  /** The peers available at a notification. */
  function AvailableAt(env: Env, s: Service, e: ServiceEvent): set<bytes> {
    AvailableIds(EngineAfter(env, s, e).peers)
  }

  /** The event can happen: its listing is one of the available peers, its batch result is the engine's. */
  ghost predicate Legal(env: Env, s: Service, e: ServiceEvent) {
    && (Notifies(e) ==> Enumerates(e.order, AvailableAt(env, s, e)))
    && (e.PollsMany? ==> Batch.Outcome(env, s.engine, e.max, e.processed, EngineAfter(env, s, e)))
  }

  /** With a handler, one callback for each reported peer, each reading the clock once; then the count is updated. */
  ghost function Notified(s: Service, engine: Engine, order: seq<bytes>): Service
    requires Enumerates(order, AvailableIds(engine.peers))
  {
    var reported := if s.handler then Reported(s.known, order) else [];
    Service(engine.(tick := engine.tick + |reported|), s.optionsValid, s.handler, |order|,
            s.found + Publics(Select(engine.peers, reported)))
  }

  /** Starting takes the count from the size of the registry, not from the number of available peers. */
  ghost function Next(env: Env, s: Service, e: ServiceEvent): Service
    requires Legal(env, s, e)
  {
    var engine := EngineAfter(env, s, e);
    match e
    case Starts => s.(engine := engine, known := if s.optionsValid then |s.engine.peers| else s.known)
    case Stops => s.(engine := engine, known := 0)
    case Installs(handler) => s.(handler := handler)
    case Passes(_) => s.(engine := engine)
    case Lists => s.(engine := engine)
    case Polls(order) => Notified(s, engine, order)
    case PollsMany(_, _, order) => Notified(s, engine, order)
  }

  /** A newly constructed service. */
  ghost predicate New(s: Service) {
    Initial(s.engine) && !s.handler && s.known == 0 && s.found == []
  }

  /** The states a service goes through; no further state follows an event that cannot happen. */
  ghost function Serve(env: Env, s: Service, events: seq<ServiceEvent>): Service {
    if events == [] then s else
    var before, e := Serve(env, s, events[..|events| - 1]), events[|events| - 1];
    if Legal(env, before, e) then Next(env, before, e) else before
  }

  ghost predicate LegalRun(env: Env, s: Service, events: seq<ServiceEvent>) {
    events == [] ||
    (var earlier := events[..|events| - 1];
     LegalRun(env, s, earlier) && Legal(env, Serve(env, s, earlier), events[|events| - 1]))
  }
}
