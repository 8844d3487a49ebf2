/** A run from a new service in which the handler is called for a known peer and never for the new one. */
module ServiceWitness {
  import opened Serializer
  import opened Types
  import opened Clocks
  import opened Registry
  import opened EngineModel
  import opened Notification
  import opened ServiceModel
  import EngineLaws
  import ServiceLaws
  import Messages = MessageCodec
  import Announcements = AnnouncementCodec

  /** Running with a handler; these peers registered, all Alive and seen just now; these datagrams waiting. */
  ghost predicate Holds(env: Env, s: Service, ids: set<bytes>, inbox: seq<Datagram>) {
    && s.handler && s.known == |ids| && IsRunning(s.engine) && s.engine.backend.inbox == inbox
    && s.engine.peers.Keys == ids
    && (forall id :: id in ids ==> s.engine.peers[id].state == Alive && s.engine.peers[id].lastSeenAt == env.at(0))
    && EngineLaws.Consistent(env, s.engine)
  }

  /** A clock that stands still. */
  ghost predicate StandsStill(at: Ticks) {
    forall i: nat :: at(i) == at(0)
  }

  lemma FreshPeersStayAlive(env: Env, s: Engine)
    requires IsRunning(s) && StandsStill(env.at) && env.config.peerTtl >= 2
    requires forall id :: id in s.peers ==> s.peers[id].state == Alive && s.peers[id].lastSeenAt == env.at(0)
    ensures BeforeReceive(env, s).peers == s.peers
  {
    hide BeforeReceive;
    BeforeReceiveFrame(env, s);
    assert env.at(BeforeReceive(env, s).tick - 1) == env.at(0);
  }

  lemma PollHears(env: Env, s: Engine, d: Datagram)
    requires IsRunning(s) && StandsStill(env.at) && env.config.peerTtl >= 2
    requires s.backend.inbox == [d] && Heard(env, d).Some?
    requires forall id :: id in s.peers ==> s.peers[id].state == Alive && s.peers[id].lastSeenAt == env.at(0)
    ensures var r, id := PollOnce(env, s).0, Heard(env, d).value.nodeId;
            && IsRunning(r) && r.backend.inbox == []
            && r.peers.Keys == s.peers.Keys + {id}
            && forall id :: id in r.peers ==> r.peers[id].state == Alive && r.peers[id].lastSeenAt == env.at(0)
  {
    hide BeforeReceive, PollOnce, Heard, Integrate;
    FreshPeersStayAlive(env, s);
    PollEffect(env, s);
    assert env.at(PollOnce(env, s).0.tick - 1) == env.at(0);
  }

  /** Then polling makes the announcing peer available beside the others, and reports by position. */
  lemma PollsAnother(env: Env, s: Service, ids: set<bytes>, d: Datagram, order: seq<bytes>)
    requires Holds(env, s, ids, [d]) && StandsStill(env.at) && env.config.peerTtl >= 2
    requires Heard(env, d).Some? && Enumerates(order, ids + {Heard(env, d).value.nodeId})
    ensures Legal(env, s, Polls(order))
    ensures var r := Next(env, s, Polls(order));
            && Holds(env, r, ids + {Heard(env, d).value.nodeId}, [])
            && IdsOf(r.found) == IdsOf(s.found) + Reported(|ids|, order)
  {
    hide PollOnce, Heard, Enumerates, EngineLaws.Consistent, Reported, IdsOf, StandsStill;
    PollHears(env, s.engine, d);
    var after := ids + {Heard(env, d).value.nodeId};
    assert AvailableIds(PollOnce(env, s.engine).0.peers) == after;
    EnumerationSize(order, after);
    ServiceLaws.NextKeepsConsistent(env, s, Polls(order));
    ServiceLaws.NotificationReports(env, s, Polls(order));
    var r := Next(env, s, Polls(order));
    assert r.found == s.found + r.found[|s.found|..];
    ServiceLaws.IdsOfSum(s.found, r.found[|s.found|..]);
  }

  lemma ArrivalWaits(env: Env, s: Service, ids: set<bytes>, d: Datagram)
    requires Holds(env, s, ids, [])
    ensures Holds(env, Next(env, s, Passes(Arrives(d))), ids, [d])
  {
    hide EngineLaws.Consistent;
    EngineLaws.StepKeepsConsistent(env, s.engine, Arrives(d));
  }

  lemma StartsEmpty(env: Env, s: Service)
    requires New(s) && s.optionsValid && env.config.IsValid() && env.opens(s.engine.backend.opens)
    ensures Holds(env, Next(env, Next(env, s, Installs(true)), Starts), {}, [])
    ensures Next(env, Next(env, s, Installs(true)), Starts).found == []
  {
  }

  /** The service is started, hears a, polls, hears b, and polls. */
  function TwoPeersAreHeard(a: bytes, da: Datagram, b: bytes, db: Datagram): seq<ServiceEvent> {
    [Installs(true), Starts, Passes(Arrives(da)), Polls([a]), Passes(Arrives(db)), Polls([b, a])]
  }

  lemma ServeOneMore(env: Env, s: Service, events: seq<ServiceEvent>, n: nat)
    requires n < |events| && LegalRun(env, s, events[..n]) && Legal(env, Serve(env, s, events[..n]), events[n])
    ensures LegalRun(env, s, events[..n + 1])
    ensures Serve(env, s, events[..n + 1]) == Next(env, Serve(env, s, events[..n]), events[n])
  {
    hide Legal, Next;
    assert events[..n + 1][..n] == events[..n];
  }

  lemma HoldsMeans(env: Env, s: Service, ids: set<bytes>, inbox: seq<Datagram>)
    requires Holds(env, s, ids, inbox)
    ensures AvailableIds(s.engine.peers) == ids
  {
  }

  lemma PlainEventsAreLegal(env: Env, s: Service, e: ServiceEvent)
    requires !Notifies(e)
    ensures Legal(env, s, e)
  {
  }

  lemma FirstPeerIsReported(env: Env, s: Service, da: Datagram, events: seq<ServiceEvent>)
    requires New(s) && s.optionsValid && env.config.IsValid() && env.opens(s.engine.backend.opens)
    requires StandsStill(env.at) && env.config.peerTtl >= 2 && Heard(env, da).Some?
    requires |events| >= 4 && events[0] == Installs(true) && events[1] == Starts
    requires events[2] == Passes(Arrives(da)) && events[3] == Polls([Heard(env, da).value.nodeId])
    ensures var a, r := Heard(env, da).value.nodeId, Serve(env, s, events[..4]);
            LegalRun(env, s, events[..4]) && Holds(env, r, {a}, []) && IdsOf(r.found) == [a]
  {
    hide Heard, Holds, Legal, Next, LegalRun, Serve, Initial, StandsStill;
    var a := Heard(env, da).value.nodeId;
    NothingYet(env, s, events);
    PlainEventsAreLegal(env, s, events[0]);
    ServeOneMore(env, s, events, 0);
    PlainEventsAreLegal(env, Serve(env, s, events[..1]), events[1]);
    ServeOneMore(env, s, events, 1);
    StartsEmpty(env, s);
    PlainEventsAreLegal(env, Serve(env, s, events[..2]), events[2]);
    ServeOneMore(env, s, events, 2);
    ArrivalWaits(env, Serve(env, s, events[..2]), {}, da);
    assert {} + {a} == {a} && Enumerates([a], {a});
    PollsAnother(env, Serve(env, s, events[..3]), {}, da, [a]);
    ServeOneMore(env, s, events, 3);
    ArrivalsCallNobody(env, Serve(env, s, events[..2]), da);
  }

  lemma NothingYet(env: Env, s: Service, events: seq<ServiceEvent>)
    ensures LegalRun(env, s, events[..0]) && Serve(env, s, events[..0]) == s
  {
  }

  lemma ArrivalsCallNobody(env: Env, s: Service, d: Datagram)
    ensures Next(env, s, Passes(Arrives(d))).found == s.found
  {
  }

  /** Between the two polls the available peers go from {a} to {a, b}, and the second reports a once more: the
      map may list the new peer first. */
  lemma NewPeerCanBeMissed(env: Env, s: Service, da: Datagram, db: Datagram)
    requires New(s) && s.optionsValid && env.config.IsValid() && env.opens(s.engine.backend.opens)
    requires StandsStill(env.at) && env.config.peerTtl >= 2
    requires Heard(env, da).Some? && Heard(env, db).Some?
    requires Heard(env, da).value.nodeId != Heard(env, db).value.nodeId
    ensures var a, b := Heard(env, da).value.nodeId, Heard(env, db).value.nodeId;
            var events := TwoPeersAreHeard(a, da, b, db);
            var before, after := Serve(env, s, events[..5]), Serve(env, s, events);
            && LegalRun(env, s, events)
            && AvailableIds(before.engine.peers) == {a} && IdsOf(before.found) == [a]
            && AvailableIds(after.engine.peers) == {a, b} && IdsOf(after.found) == [a, a]
  {
    hide Heard, Holds, Legal, Next, LegalRun, Serve;
    var a, b := Heard(env, da).value.nodeId, Heard(env, db).value.nodeId;
    var events := TwoPeersAreHeard(a, da, b, db);
    FirstPeerIsReported(env, s, da, events);
    PlainEventsAreLegal(env, Serve(env, s, events[..4]), events[4]);
    ServeOneMore(env, s, events, 4);
    ArrivalWaits(env, Serve(env, s, events[..4]), {a}, db);
    ArrivalsCallNobody(env, Serve(env, s, events[..4]), db);
    var before := Serve(env, s, events[..5]);
    assert {a} + {b} == {a, b} && Enumerates([b, a], {a, b});
    PollsAnother(env, before, {a}, db, [b, a]);
    ServeOneMore(env, s, events, 5);
    assert events[..6] == events;
    assert [b, a][1..] == [a];
    HoldsMeans(env, before, {a}, [db]);
    HoldsMeans(env, Serve(env, s, events), {a, b}, []);
  }

  // ---- Such a service exists ----

  /** An announcement's bytes, arriving from some endpoint. */
  function Announcing(a: DiscoveryAnnouncement, host: bytes, port: u16): Datagram {
    Datagram(host, port, Messages.Encode(DiscoveryMessage(Announce, a.nodeId, [], [], Announcements.Encode(a))))
  }

  lemma AnnouncingIsHeard(env: Env, a: DiscoveryAnnouncement, host: bytes, port: u16)
    requires a.IsValid() && a.nodeId != env.config.nodeId && host != [] && port != 0
    requires 35 + 2 * |a.nodeId| + |a.host| <= env.config.maxDatagramSize < U32_LIMIT
    ensures Heard(env, Announcing(a, host, port)) == Some(a)
  {
    hide Messages.Parse, Messages.Encode, Announcements.Parse, Announcements.Encode;
    Announcements.RoundTrip(a);
    var m := DiscoveryMessage(Announce, a.nodeId, [], [], Announcements.Encode(a));
    Messages.RoundTrip(m);
    assert Messages.Fits(m);
  }

  /** The smallest configuration, with addresses of one byte. */
  const CONFIG := DiscoveryConfig([1], 1, [1], 1, [1], [1], 1, 1, 2, 100)

  const SURROUNDINGS := Env(CONFIG, _ => 1, _ => true, _ => true, _ => true)

  const NEW_ENGINE := Engine(Stopped, map[], UNSET, 0, Backend(false, 0, 0, [], []), Transport(false, {}, []))

  const NEW_SERVICE := Service(NEW_ENGINE, true, false, 0, [])

  /** The handler is called for peer [2] when it is found, and called for it again when [3] is found. */
  lemma SomeServiceMissesANewPeer()
    ensures exists events ::
              var r := Serve(SURROUNDINGS, NEW_SERVICE, events);
              && New(NEW_SERVICE) && LegalRun(SURROUNDINGS, NEW_SERVICE, events)
              && AvailableIds(r.engine.peers) == {[2], [3]} && IdsOf(r.found) == [[2], [2]]
  {
    hide Heard, Serve, LegalRun, TwoPeersAreHeard, Announcing;
    var a, b := DiscoveryAnnouncement([2], [2], 2, 1), DiscoveryAnnouncement([3], [3], 3, 1);
    AnnouncingIsHeard(SURROUNDINGS, a, [2], 2);
    AnnouncingIsHeard(SURROUNDINGS, b, [3], 3);
    NewPeerCanBeMissed(SURROUNDINGS, NEW_SERVICE, Announcing(a, [2], 2), Announcing(b, [3], 3));
    var events := TwoPeersAreHeard([2], Announcing(a, [2], 2), [3], Announcing(b, [3], 3));
    assert IdsOf(Serve(SURROUNDINGS, NEW_SERVICE, events).found) == [[2], [2]];
  }
}
