/** Services among honest nodes: what the user is told of a peer is what that peer is configured to announce. */
module ServiceNetwork {
  import opened Serializer
  import opened Registry
  import opened EngineModel
  import opened ServiceModel
  import opened PeerExchange
  import EngineLaws
  import ServiceLaws
  import Batch
  import Network

  // ---- Every callback of every run ----

  /** Every callback is for another node, at the endpoint some node of that id is configured to announce. */
  ghost predicate AuthenticCallbacks(envs: Network.Envs, env: Env, found: seq<PublicPeer>) {
    forall i :: 0 <= i < |found| ==> AuthenticCallback(envs, env, found[i])
  }

  ghost predicate AuthenticCallback(envs: Network.Envs, env: Env, q: PublicPeer) {
    && q.nodeId != env.config.nodeId
    && exists k: nat :: && k < |envs| && q.nodeId == envs[k].config.nodeId
                        && q.host == envs[k].config.announceHost && q.port == envs[k].config.announcePort
  }

  /** What arrives has honestly been sent by then. */
  ghost predicate Receives(envs: Network.Envs, ticks: seq<nat>, e: ServiceEvent)
    requires |ticks| == |envs|
  {
    e.Passes? && e.event.Arrives? ==> Network.Genuine(envs, ticks, e.event.datagram.payload)
  }

  lemma {:induction false} PollsKeepAuthentic(envs: Network.Envs, ticks: seq<nat>, env: Env, s: Engine, k: nat)
    requires |ticks| == |envs| && Network.NodeInvariant(envs, ticks, env, s)
    ensures Network.NodeInvariant(envs, ticks, env, Batch.Polls(env, s, k))
  {
    hide PollOnce, Network.NodeInvariant;
    if k > 0 {
      PollsKeepAuthentic(envs, ticks, env, s, k - 1);
      Network.NodeStepKeepsAuthentic(envs, ticks, env, Batch.Polls(env, s, k - 1), Network.Act(CallPoll));
    }
  }

  lemma ReadingsKeepAuthentic(envs: Network.Envs, ticks: seq<nat>, env: Env, s: Engine, tick: nat)
    requires |ticks| == |envs| && Network.NodeInvariant(envs, ticks, env, s) && tick >= s.tick
    ensures Network.NodeInvariant(envs, ticks, env, s.(tick := tick))
  {
    hide Network.HonestSoFar, Network.GenuineInbox, Network.AuthenticPeers, Network.AuthenticCalls;
    Network.QuietIsHonest(env, s, s.(tick := tick));
  }

  lemma EngineStaysAuthentic(envs: Network.Envs, ticks: seq<nat>, env: Env, s: Service, e: ServiceEvent)
    requires |ticks| == |envs| && Network.NodeInvariant(envs, ticks, env, s.engine) && Receives(envs, ticks, e)
    ensures Network.NodeInvariant(envs, ticks, env, EngineAfter(env, s, e))
  {
    hide Start, Stop, PollOnce, AnnounceNow, ProbeNow, Batch.Polls, AvailableIds;
    hide Network.NodeInvariant, Network.Genuine;
    match e
    case Starts =>
      Network.NodeStepKeepsAuthentic(envs, ticks, env, s.engine, Network.Act(CallStart));
    case Stops =>
      Network.NodeStepKeepsAuthentic(envs, ticks, env, s.engine, Network.Act(CallStop));
    case Installs(_) =>
    case Passes(event) =>
      Network.NodeStepKeepsAuthentic(envs, ticks, env, s.engine, Network.Act(event));
    case Lists =>
      ReadingsKeepAuthentic(envs, ticks, env, s.engine, EngineAfter(env, s, e).tick);
    case Polls(_) =>
      Network.NodeStepKeepsAuthentic(envs, ticks, env, s.engine, Network.Act(CallPoll));
    case PollsMany(max, n, _) =>
      PollsKeepAuthentic(envs, ticks, env, s.engine, if n < max then n + 1 else n);
  }

  /** What the registry shows of an authentic peer is authentic. */
  lemma ShownIsAuthentic(envs: Network.Envs, ticks: seq<nat>, env: Env, s: Engine, q: PublicPeer)
    requires |ticks| == |envs| && Network.NodeInvariant(envs, ticks, env, s) && Shows(q, s.peers)
    ensures AuthenticCallback(envs, env, q)
  {
    hide Network.HonestSoFar, Network.GenuineInbox, Network.AuthenticCalls;
    var a := s.peers[q.nodeId].announcement;
    assert Network.Authentic(envs, ticks, a);
    var k: nat, t: nat :| k < |envs| && t < ticks[k] && a == LocalAnnouncement(envs[k], envs[k].at(t));
  }

  lemma NextStaysAuthentic(envs: Network.Envs, ticks: seq<nat>, env: Env, s: Service, e: ServiceEvent)
    requires |ticks| == |envs| && Network.NodeInvariant(envs, ticks, env, s.engine) && Receives(envs, ticks, e)
    requires Legal(env, s, e) && AuthenticCallbacks(envs, env, s.found)
    ensures var r := Next(env, s, e);
            Network.NodeInvariant(envs, ticks, env, r.engine) && AuthenticCallbacks(envs, env, r.found)
  {
    hide Start, Stop, Step, PollOnce, Batch.Polls, Batch.Outcome;
    hide Network.HonestSoFar, Network.GenuineInbox, Network.AuthenticPeers;
    hide Network.AuthenticCalls, EngineLaws.Consistent, AuthenticCallback, Shows, Receives;
    var r := Next(env, s, e);
    EngineStaysAuthentic(envs, ticks, env, s, e);
    ReadingsKeepAuthentic(envs, ticks, env, EngineAfter(env, s, e), r.engine.tick);
    ServiceLaws.CallbacksShowTheRegistry(env, s, e);
    forall i | |s.found| <= i < |r.found| ensures AuthenticCallback(envs, env, r.found[i]) {
      ShownIsAuthentic(envs, ticks, env, EngineAfter(env, s, e), r.found[i]);
    }
  }

  lemma {:induction false} ServeStaysAuthentic(
    envs: Network.Envs, ticks: seq<nat>, env: Env, s: Service, events: seq<ServiceEvent>)
    requires |ticks| == |envs| && LegalRun(env, s, events)
    requires Network.NodeInvariant(envs, ticks, env, s.engine) && AuthenticCallbacks(envs, env, s.found)
    requires forall n :: 0 <= n < |events| ==> Receives(envs, ticks, events[n])
    ensures var r := Serve(env, s, events);
            Network.NodeInvariant(envs, ticks, env, r.engine) && AuthenticCallbacks(envs, env, r.found)
  {
    hide Legal, Next, Network.NodeInvariant, AuthenticCallbacks, Receives;
    if events != [] {
      var n := |events| - 1;
      ServeStaysAuthentic(envs, ticks, env, s, events[..n]);
      NextStaysAuthentic(envs, ticks, env, Serve(env, s, events[..n]), events[n]);
    }
  }

  /** In a run of a new service that receives whatever nodes of a network have sent, in any order and any number of
      times, every callback ever made is for another node, and gives the host and the port some node of that id is
      configured to announce. */
  lemma CallbacksAreAuthentic(envs: Network.Envs, nodes: Network.Nodes, sending: seq<Network.NetworkEvent>,
                              env: Env, s: Service, events: seq<ServiceEvent>)
    requires |nodes| == |envs| && Network.LegalRun(envs, nodes, sending)
    requires forall k :: 0 <= k < |nodes| ==> Initial(nodes[k])
    requires New(s) && LegalRun(env, s, events)
    requires forall n :: 0 <= n < |events| && events[n].Passes? && events[n].event.Arrives? ==>
               Network.HasBeenSent(Network.NetworkRun(envs, nodes, sending), events[n].event.datagram.payload)
    ensures forall q :: q in Serve(env, s, events).found ==>
              && q.nodeId != env.config.nodeId
              && exists k: nat :: && k < |envs| && q.nodeId == envs[k].config.nodeId
                                  && q.host == envs[k].config.announceHost && q.port == envs[k].config.announcePort
  {
    hide Network.NetworkRun, Network.LegalRun, Network.NetworkInvariant, Network.HasBeenSent, Network.HonestSoFar;
    hide Network.Genuine, Serve, LegalRun, EngineLaws.Consistent;
    var r := Network.NetworkRun(envs, nodes, sending);
    var ticks := Network.Ticks(r);
    Network.AlwaysAuthentic(envs, nodes, sending);
    Network.AllHonest(envs, r);
    forall n | 0 <= n < |events| ensures Receives(envs, ticks, events[n]) {
      if events[n].Passes? && events[n].event.Arrives? {
        Network.SentBytesAreGenuine(envs, r, events[n].event.datagram.payload);
      }
    }
    NewIsAuthentic(envs, ticks, env, s);
    ServeStaysAuthentic(envs, ticks, env, s, events);
    forall q | q in Serve(env, s, events).found ensures AuthenticCallback(envs, env, q) {
      var i :| 0 <= i < |Serve(env, s, events).found| && Serve(env, s, events).found[i] == q;
    }
  }

  lemma NewIsAuthentic(envs: Network.Envs, ticks: seq<nat>, env: Env, s: Service)
    requires |ticks| == |envs| && New(s)
    ensures Network.NodeInvariant(envs, ticks, env, s.engine) && AuthenticCallbacks(envs, env, s.found)
  {
    ServiceLaws.NewEngineIsConsistent(env, s);
  }

  // ---- From one node's announcement to another's callback ----

  /** A service with a handler, none of whose peers are counted, polls when the announcement of another node waits
      first: whatever order its map is listed in, the handler is called for that node, with the host and port the
      node is configured to announce and the time of the poll's last reading. */
  lemma AnnouncingMakesACallback(envB: Env, b: Engine, env: Env, s: Service, order: seq<bytes>)
    requires envB.config.IsValid() && envB.config.nodeId != env.config.nodeId && AnnounceNow(envB, b).1
    requires EngineLaws.Consistent(env, s.engine) && s.handler && s.known == 0
    requires ArrivesWhole(env, s.engine, Last(AnnounceNow(envB, b).0.backend.outbox).payload)
    requires Legal(env, s, Polls(order))
    ensures var r := Next(env, s, Polls(order));
            exists i :: && |s.found| <= i < |r.found|
                        && r.found[i].nodeId == envB.config.nodeId
                        && r.found[i].host == envB.config.announceHost
                        && r.found[i].port == envB.config.announcePort
                        && PollOnce(env, s.engine).0.tick > 0
                        && r.found[i].lastSeenAt == env.at(PollOnce(env, s.engine).0.tick - 1)
  {
    hide PollOnce, AnnounceNow, ArrivesWhole, EngineLaws.Consistent;
    AnnouncingRegistersPeer(envB, b, env, s.engine);
    var after := PollOnce(env, s.engine).0;
    ServiceLaws.CallbacksShowTheRegistry(env, s, Polls(order));
    ServiceLaws.NotificationReports(env, s, Polls(order));
    var r, id := Next(env, s, Polls(order)), envB.config.nodeId;
    assert id in AvailableIds(after.peers);
    var j :| 0 <= j < |order| && order[j] == id;
    assert IdsOf(r.found[|s.found|..]) == order;
    assert r.found[|s.found| + j].nodeId == id;
  }
}
