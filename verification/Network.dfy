/** Any number of honest engines exchanging encoded bytes over a network that loses, duplicates, reorders,
    and misattributes datagrams. */
module Network {
  import opened Serializer
  import opened Types
  import opened Registry
  import opened EngineModel
  import EngineLaws
  import Messages = MessageCodec
  import Announcements = AnnouncementCodec

  // ---- What an engine puts on the wire ----

  /** The three messages an engine builds, from announcements made at one of its first limit clock readings. */
  ghost predicate IsLocalMessage(env: Env, limit: nat, m: DiscoveryMessage) {
    || (exists t: nat, y: Instant :: t < limit && m == AnnounceMessage(env, env.at(t), y))
    || (exists y: Instant :: m == ProbeMessage(env, y))
    || (exists t: nat, to: bytes, correlation: bytes :: t < limit && m == ReplyMessage(env, env.at(t), to, correlation))
  }

  /** The payload carries this node's own configured endpoint, stamped by one of its first limit clock readings. */
  ghost predicate AnnouncesSelf(env: Env, limit: nat, payload: bytes) {
    var a := Announcements.Parse(payload);
    a.Some? && exists t: nat :: t < limit && a.value == LocalAnnouncement(env, env.at(t))
  }

  /** Bytes that decode to a probe, or to a message announcing the sender itself. */
  ghost predicate HonestBytes(env: Env, limit: nat, data: bytes) {
    var m := Messages.Parse(data);
    && m.Some? && m.value.fromNodeId == env.config.nodeId
    && (m.value.kind == Probe || AnnouncesSelf(env, limit, m.value.payload))
  }

  lemma LocalAnnouncementRoundTrips(env: Env, now: Instant)
    requires env.config.IsValid() && |Announcements.Encode(LocalAnnouncement(env, now))| < U32_LIMIT
    ensures Announcements.Parse(Announcements.Encode(LocalAnnouncement(env, now))) == Some(LocalAnnouncement(env, now))
  {
    assert IsSet(now);
    Announcements.RoundTrip(LocalAnnouncement(env, now));
  }

  /** An engine's own message, if it fits a datagram, decodes to itself through both codecs. */
  lemma LocalMessagesAreHonest(env: Env, limit: nat, m: DiscoveryMessage)
    requires env.config.IsValid() && IsLocalMessage(env, limit, m) && |Messages.Encode(m)| < DATAGRAM_LIMIT
    ensures m.IsValid() && Messages.Parse(Messages.Encode(m)) == Some(m) && HonestBytes(env, limit, Messages.Encode(m))
  {
    hide Announcements.Encode, Announcements.Parse, Messages.Encode, Messages.Parse;
    Messages.RoundTrip(m);
    Messages.ShortEncodingsRoundTrip(m);
    if t: nat, y: Instant :| t < limit && m == AnnounceMessage(env, env.at(t), y) {
      LocalAnnouncementRoundTrips(env, env.at(t));
    } else if t: nat, to: bytes, correlation: bytes :| t < limit && m == ReplyMessage(env, env.at(t), to, correlation) {
      LocalAnnouncementRoundTrips(env, env.at(t));
    }
  }

  /** Every datagram in the outbox is honest. */
  ghost predicate HonestOutbox(env: Env, limit: nat, outbox: seq<Datagram>) {
    forall i :: 0 <= i < |outbox| ==> HonestBytes(env, limit, outbox[i].payload)
  }

  lemma HonestLater(env: Env, limit: nat, later: nat, data: bytes)
    requires limit <= later && HonestBytes(env, limit, data)
    ensures HonestBytes(env, later, data)
  {
    hide Messages.Parse, Announcements.Parse;
  }

  lemma OutboxHonestLater(env: Env, limit: nat, later: nat, outbox: seq<Datagram>)
    requires limit <= later && HonestOutbox(env, limit, outbox)
    ensures HonestOutbox(env, later, outbox)
  {
    hide HonestBytes;
    forall i | 0 <= i < |outbox| ensures HonestBytes(env, later, outbox[i].payload) {
      HonestLater(env, limit, later, outbox[i].payload);
    }
  }

  lemma AnnounceIsLocal(env: Env, t: nat, y: Instant)
    ensures IsLocalMessage(env, t + 1, AnnounceMessage(env, env.at(t), y))
  {
  }

  lemma ProbeIsLocal(env: Env, limit: nat, y: Instant)
    ensures IsLocalMessage(env, limit, ProbeMessage(env, y))
  {
  }

  lemma ReplyIsLocal(env: Env, t: nat, to: bytes, correlation: bytes)
    ensures IsLocalMessage(env, t + 1, ReplyMessage(env, env.at(t), to, correlation))
  {
  }

  /** Sending one of the engine's own messages keeps the outbox honest, whatever the outcome. */
  lemma SendIsHonest(env: Env, limit: nat, s: Engine, e: DiscoveryEnvelope)
    requires env.config.IsValid() && IsLocalMessage(env, limit, e.message)
    requires HonestOutbox(env, limit, s.backend.outbox)
    ensures HonestOutbox(env, limit, Send(env, s, e).0.backend.outbox)
  {
    hide IsLocalMessage, HonestBytes, Messages.Encode;
    if |Messages.Encode(e.message)| < DATAGRAM_LIMIT {
      LocalMessagesAreHonest(env, limit, e.message);
    }
  }

  /** The engine has sent nothing but honest bytes, stamped by clock readings it has made. */
  ghost predicate HonestSoFar(env: Env, s: Engine) {
    HonestOutbox(env, s.tick, s.backend.outbox)
  }

  lemma AnnounceIsHonest(env: Env, s: Engine)
    requires env.config.IsValid() && HonestSoFar(env, s)
    ensures HonestSoFar(env, AnnounceNow(env, s).0)
  {
    hide AnnounceMessage, Send, IsLocalMessage, HonestBytes, HonestOutbox;
    var r := AnnounceNow(env, s).0;
    if IsRunning(s) {
      var m := AnnounceMessage(env, env.at(s.tick), env.at(s.tick + 1));
      var e := Outbound(m, env.config.broadcastHost, env.config.broadcastPort, env.at(s.tick + 2));
      OutboxHonestLater(env, s.tick, s.tick + 1, s.backend.outbox);
      AnnounceIsLocal(env, s.tick, env.at(s.tick + 1));
      SendIsHonest(env, s.tick + 1, s.(tick := s.tick + 3), e);
      SendAdvances(env, s.(tick := s.tick + 3), e);
      OutboxHonestLater(env, s.tick + 1, r.tick, r.backend.outbox);
    }
  }

  lemma ProbeIsHonest(env: Env, s: Engine)
    requires env.config.IsValid() && HonestSoFar(env, s)
    ensures HonestSoFar(env, ProbeNow(env, s).0)
  {
    hide ProbeMessage, Send, IsLocalMessage, HonestBytes, HonestOutbox;
    var r := ProbeNow(env, s).0;
    if IsRunning(s) {
      var m := ProbeMessage(env, env.at(s.tick));
      var e := Outbound(m, env.config.broadcastHost, env.config.broadcastPort, env.at(s.tick + 1));
      ProbeIsLocal(env, s.tick, env.at(s.tick));
      SendIsHonest(env, s.tick, s.(tick := s.tick + 2), e);
      SendAdvances(env, s.(tick := s.tick + 2), e);
      OutboxHonestLater(env, s.tick, r.tick, r.backend.outbox);
    }
  }

  lemma ReplyIsHonest(env: Env, s: Engine, e: DiscoveryEnvelope)
    requires env.config.IsValid() && HonestSoFar(env, s)
    ensures HonestSoFar(env, HandleProbe(env, s, e).0)
  {
    hide ReplyMessage, Send, IsLocalMessage, HonestBytes, HonestOutbox;
    var r := HandleProbe(env, s, e).0;
    if e.HasSource() {
      var m := ReplyMessage(env, env.at(s.tick), e.message.fromNodeId, e.message.correlationId);
      var reply := Outbound(m, e.fromHost, e.fromPort, env.at(s.tick + 1));
      OutboxHonestLater(env, s.tick, s.tick + 1, s.backend.outbox);
      ReplyIsLocal(env, s.tick, e.message.fromNodeId, e.message.correlationId);
      SendIsHonest(env, s.tick + 1, s.(tick := s.tick + 2), reply);
      SendAdvances(env, s.(tick := s.tick + 2), reply);
      OutboxHonestLater(env, s.tick + 1, r.tick, r.backend.outbox);
    }
  }

  lemma SendAdvances(env: Env, s: Engine, e: DiscoveryEnvelope)
    ensures Send(env, s, e).0.tick >= s.tick
  {
    hide Messages.Encode;
  }

  /** A step that sends nothing and reads the clock any number of times. */
  lemma QuietIsHonest(env: Env, s: Engine, r: Engine)
    requires HonestSoFar(env, s) && r.backend.outbox == s.backend.outbox && r.tick >= s.tick
    ensures HonestSoFar(env, r)
  {
    hide HonestOutbox;
    OutboxHonestLater(env, s.tick, r.tick, r.backend.outbox);
  }

  lemma BeforeReceiveIsHonest(env: Env, s: Engine)
    requires env.config.IsValid() && HonestSoFar(env, s)
    ensures HonestSoFar(env, BeforeReceive(env, s))
  {
    hide AnnounceNow, HonestSoFar, Refresh;
    var read := s.(tick := s.tick + 1);
    QuietIsHonest(env, s, read);
    AnnounceIsHonest(env, read);
    QuietIsHonest(env, MaybeAnnounce(env, s), BeforeReceive(env, s));
  }

  lemma DispatchIsHonest(env: Env, s: Engine, e: DiscoveryEnvelope)
    requires env.config.IsValid() && HonestSoFar(env, s)
    ensures HonestSoFar(env, Dispatch(env, s, e).0)
  {
    hide HandleProbe, HonestSoFar, Admitted, Upsert, UpsertReadings, Integrate;
    ReplyIsHonest(env, s, e);
    QuietIsHonest(env, s, s);
    QuietIsHonest(env, s, HandleAnnouncement(env, s, e).0);
  }

  lemma AfterWaitIsHonest(env: Env, s: Engine)
    requires env.config.IsValid() && HonestSoFar(env, s)
    ensures HonestSoFar(env, AfterWait(env, s).0)
  {
    hide Dispatch, HonestSoFar, Decoded;
    var (received, inbound) := Receive(env, s);
    QuietIsHonest(env, s, received);
    if inbound.Some? {
      DispatchIsHonest(env, received, inbound.value);
    }
  }

  lemma PollIsHonest(env: Env, s: Engine)
    requires env.config.IsValid() && HonestSoFar(env, s)
    ensures HonestSoFar(env, PollOnce(env, s).0)
  {
    hide BeforeReceive, AfterWait, HonestSoFar;
    BeforeReceiveIsHonest(env, s);
    AfterWaitIsHonest(env, BeforeReceive(env, s));
  }

  lemma StepIsHonest(env: Env, s: Engine, e: Event)
    requires EngineLaws.Consistent(env, s) && HonestSoFar(env, s)
    ensures HonestSoFar(env, Step(env, s, e))
  {
    hide HonestSoFar, PollOnce, AnnounceNow, ProbeNow;
    if s.status == Running && e.CallPoll? {
      PollIsHonest(env, s);
    } else if s.status == Running && e.CallAnnounce? {
      AnnounceIsHonest(env, s);
    } else if s.status == Running && e.CallProbe? {
      ProbeIsHonest(env, s);
    } else {
      OthersSendNothing(env, s, e);
      QuietIsHonest(env, s, Step(env, s, e));
    }
  }

  lemma OthersSendNothing(env: Env, s: Engine, e: Event)
    requires !IsRunning(s) || !(e.CallPoll? || e.CallAnnounce? || e.CallProbe?)
    ensures Step(env, s, e).backend.outbox == s.backend.outbox && Step(env, s, e).tick >= s.tick
  {
    hide PollOnce;
    PollEffect(env, s);
  }

  // ---- The network ----

  /** The nodes' configurations and surroundings, and their engines. */
  type Envs = seq<Env>
  type Nodes = seq<Engine>

  /** What happens at one node: an event of its engine, or one half of a poll. A poll waits for a datagram between
      its halves, and other nodes go on meanwhile. */
  datatype NodeEvent = Act(event: Event) | PollWaits | PollReceives

  datatype NetworkEvent = NetworkEvent(node: nat, event: NodeEvent)

  function NodeStep(env: Env, s: Engine, e: NodeEvent): Engine {
    match e
    case Act(event) => Step(env, s, event)
    case PollWaits => if IsRunning(s) then BeforeReceive(env, s) else s
    case PollReceives => if IsRunning(s) then AfterWait(env, s).0 else s
  }

  /** The two halves with nothing between them are a poll. */
  lemma HalvesMakeAPoll(env: Env, s: Engine)
    ensures NodeStep(env, NodeStep(env, s, PollWaits), PollReceives) == NodeStep(env, s, Act(CallPoll))
  {
    hide BeforeReceive, AfterWait;
    BeforeReceiveFrame(env, s);
  }

  predicate Arrival(e: NodeEvent) {
    e.Act? && e.event.Arrives?
  }

  /** Some node has sent these bytes, at some time, to anyone. */
  ghost predicate HasBeenSent(nodes: Nodes, payload: bytes) {
    exists k, i :: && 0 <= k < |nodes| && 0 <= i < |nodes[k].backend.outbox|
                   && nodes[k].backend.outbox[i].payload == payload
  }

  /** Nodes act in any order. The bytes that arrive at a node have been sent, but any number of times, at any
      time, to any node, and with any source endpoint. */
  ghost predicate Legal(nodes: Nodes, e: NetworkEvent) {
    && e.node < |nodes|
    && (Arrival(e.event) ==> HasBeenSent(nodes, e.event.event.datagram.payload))
  }

  ghost function NetworkRun(envs: Envs, nodes: Nodes, events: seq<NetworkEvent>): (r: Nodes)
    requires |nodes| == |envs|
    ensures |r| == |envs|
  {
    if events == [] then nodes else
    var before := NetworkRun(envs, nodes, events[..|events| - 1]);
    var e := events[|events| - 1];
    if e.node < |envs| then before[e.node := NodeStep(envs[e.node], before[e.node], e.event)] else before
  }

  ghost predicate LegalRun(envs: Envs, nodes: Nodes, events: seq<NetworkEvent>)
    requires |nodes| == |envs|
  {
    forall n :: 0 <= n < |events| ==> Legal(NetworkRun(envs, nodes, events[..n]), events[n])
  }

  /** How many clock readings each node has made. */
  function Ticks(nodes: Nodes): (r: seq<nat>)
    ensures |r| == |nodes| && forall k :: 0 <= k < |nodes| ==> r[k] == nodes[k].tick
  {
    seq(|nodes|, k requires 0 <= k < |nodes| => nodes[k].tick)
  }

  ghost predicate NoEarlier(ticks: seq<nat>, later: seq<nat>) {
    |ticks| == |later| && forall k :: 0 <= k < |ticks| ==> ticks[k] <= later[k]
  }

  /** The announcement is one a node of the network makes of itself: it gives that node's configured endpoint,
      and its timestamp is a clock reading that node has made. */
  ghost predicate Authentic(envs: Envs, ticks: seq<nat>, a: DiscoveryAnnouncement)
    requires |ticks| == |envs|
  {
    exists k: nat, t: nat :: k < |envs| && t < ticks[k] && a == LocalAnnouncement(envs[k], envs[k].at(t))
  }

  /** A node's id with the endpoint it is configured to announce. */
  function OwnEndpoint(env: Env): PeerInfo {
    PeerInfo(env.config.nodeId, env.config.announceHost, env.config.announcePort)
  }

  /** The endpoint is the one some node of that id is configured to announce, and not this node's. */
  ghost predicate AuthenticEndpoint(envs: Envs, env: Env, p: PeerInfo) {
    && p.nodeId != env.config.nodeId
    && exists k: nat :: k < |envs| && p == OwnEndpoint(envs[k])
  }

  /** Bytes that some node of the network may honestly have sent so far. */
  ghost predicate Genuine(envs: Envs, ticks: seq<nat>, data: bytes)
    requires |ticks| == |envs|
  {
    exists k: nat :: k < |envs| && HonestBytes(envs[k], ticks[k], data)
  }

  ghost predicate GenuineInbox(envs: Envs, ticks: seq<nat>, inbox: seq<Datagram>)
    requires |ticks| == |envs|
  {
    forall i :: 0 <= i < |inbox| ==> Genuine(envs, ticks, inbox[i].payload)
  }

  ghost predicate AuthenticPeers(envs: Envs, ticks: seq<nat>, peers: Peers)
    requires |ticks| == |envs|
  {
    forall id :: id in peers ==> Authentic(envs, ticks, peers[id].announcement)
  }

  ghost predicate AuthenticCalls(envs: Envs, env: Env, calls: seq<PeerInfo>) {
    forall i :: 0 <= i < |calls| ==> AuthenticEndpoint(envs, env, calls[i])
  }

  ghost predicate NodeInvariant(envs: Envs, ticks: seq<nat>, env: Env, s: Engine)
    requires |ticks| == |envs|
  {
    && EngineLaws.Consistent(env, s)
    && HonestSoFar(env, s)
    && GenuineInbox(envs, ticks, s.backend.inbox)
    && AuthenticPeers(envs, ticks, s.peers)
    && AuthenticCalls(envs, env, s.transport.calls)
  }

  lemma GenuineLater(envs: Envs, ticks: seq<nat>, later: seq<nat>, data: bytes)
    requires |ticks| == |envs| && NoEarlier(ticks, later) && Genuine(envs, ticks, data)
    ensures Genuine(envs, later, data)
  {
    hide HonestBytes;
    var k: nat :| k < |envs| && HonestBytes(envs[k], ticks[k], data);
    HonestLater(envs[k], ticks[k], later[k], data);
  }

  lemma NodeInvariantLater(envs: Envs, ticks: seq<nat>, later: seq<nat>, env: Env, s: Engine)
    requires |ticks| == |envs| && NoEarlier(ticks, later) && NodeInvariant(envs, ticks, env, s)
    ensures NodeInvariant(envs, later, env, s)
  {
    hide EngineLaws.Consistent, HonestSoFar, Genuine, AuthenticCalls;
    forall i | 0 <= i < |s.backend.inbox| ensures Genuine(envs, later, s.backend.inbox[i].payload) {
      GenuineLater(envs, ticks, later, s.backend.inbox[i].payload);
    }
    forall id | id in s.peers ensures Authentic(envs, later, s.peers[id].announcement) {
      assert Authentic(envs, ticks, s.peers[id].announcement);
    }
  }

  /** Whatever the receive buffer cuts, an announcement heard from genuine bytes is authentic. */
  lemma GenuineBytesAreHeardAuthentically(envs: Envs, ticks: seq<nat>, env: Env, d: Datagram)
    requires |ticks| == |envs| && Genuine(envs, ticks, d.payload) && Heard(env, d).Some?
    ensures Authentic(envs, ticks, Heard(env, d).value)
  {
    hide Messages.Parse, Announcements.Parse;
    var k: nat :| k < |envs| && HonestBytes(envs[k], ticks[k], d.payload);
    Messages.TruncationNeverAlters(d.payload, env.config.maxDatagramSize);
    var t: nat :| t < ticks[k] && Heard(env, d).value == LocalAnnouncement(envs[k], envs[k].at(t));
  }

  lemma AcceptedIsAuthentic(envs: Envs, ticks: seq<nat>, env: Env, s: Engine)
    requires |ticks| == |envs| && GenuineInbox(envs, ticks, s.backend.inbox) && Accepted(env, s).Some?
    ensures Authentic(envs, ticks, Accepted(env, s).value)
  {
    hide Heard, Genuine, Authentic;
    GenuineBytesAreHeardAuthentically(envs, ticks, env, s.backend.inbox[0]);
  }

  /** A peer handed to the transport is an authentic one. */
  lemma IntegrateKeepsAuthentic(envs: Envs, ticks: seq<nat>, env: Env, t: Transport, a: DiscoveryAnnouncement)
    requires |ticks| == |envs| && AuthenticCalls(envs, env, t.calls)
    requires Authentic(envs, ticks, a) && a.nodeId != env.config.nodeId
    ensures AuthenticCalls(envs, env, Integrate(env, t, a).calls)
  {
    var k: nat, n: nat :| k < |envs| && n < ticks[k] && a == LocalAnnouncement(envs[k], envs[k].at(n));
    assert AuthenticEndpoint(envs, env, PeerInfo(a.nodeId, a.host, a.port));
  }

  lemma RunningIsConfigured(env: Env, s: Engine)
    requires EngineLaws.Consistent(env, s) && IsRunning(s)
    ensures env.config.IsValid()
  {
  }

  lemma UpsertKeepsAuthentic(envs: Envs, ticks: seq<nat>, peers: Peers, a: DiscoveryAnnouncement, now: Instant)
    requires |ticks| == |envs| && AuthenticPeers(envs, ticks, peers) && Authentic(envs, ticks, a)
    ensures AuthenticPeers(envs, ticks, Upsert(peers, a, now))
  {
    hide Authentic;
  }

  lemma ReceivingKeepsAuthentic(envs: Envs, ticks: seq<nat>, env: Env, s: Engine)
    requires |ticks| == |envs| && NodeInvariant(envs, ticks, env, s) && IsRunning(s)
    ensures NodeInvariant(envs, ticks, env, AfterWait(env, s).0) && AfterWait(env, s).0.tick >= s.tick
  {
    hide AfterWait, BeforeReceive, EngineLaws.Consistent, HonestSoFar;
    hide Accepted, Genuine, Authentic, AuthenticCalls, Integrate, Upsert;
    EngineLaws.PollHalvesKeepConsistent(env, s);
    RunningIsConfigured(env, s);
    AfterWaitIsHonest(env, s);
    AfterWaitEffect(env, s);
    if Accepted(env, s).Some? {
      AcceptedIsAuthentic(envs, ticks, env, s);
      UpsertKeepsAuthentic(envs, ticks, s.peers, Accepted(env, s).value, env.at(AfterWait(env, s).0.tick - 1));
      IntegrateKeepsAuthentic(envs, ticks, env, s.transport, Accepted(env, s).value);
    }
  }

  lemma WaitingKeepsAuthentic(envs: Envs, ticks: seq<nat>, env: Env, s: Engine)
    requires |ticks| == |envs| && NodeInvariant(envs, ticks, env, s) && IsRunning(s)
    ensures NodeInvariant(envs, ticks, env, BeforeReceive(env, s)) && BeforeReceive(env, s).tick >= s.tick
  {
    hide AfterWait, BeforeReceive, EngineLaws.Consistent, HonestSoFar, Genuine, Authentic, AuthenticCalls;
    EngineLaws.PollHalvesKeepConsistent(env, s);
    RunningIsConfigured(env, s);
    BeforeReceiveIsHonest(env, s);
    BeforeReceiveFrame(env, s);
  }

  /** Every event of a node but a poll. */
  lemma ActingKeepsAuthentic(envs: Envs, ticks: seq<nat>, env: Env, s: Engine, e: Event)
    requires |ticks| == |envs| && NodeInvariant(envs, ticks, env, s) && !e.CallPoll?
    requires e.Arrives? ==> Genuine(envs, ticks, e.datagram.payload)
    ensures NodeInvariant(envs, ticks, env, Step(env, s, e)) && Step(env, s, e).tick >= s.tick
  {
    hide EngineLaws.Consistent, HonestSoFar, Genuine, Authentic, AuthenticCalls, Step;
    EngineLaws.StepKeepsConsistent(env, s, e);
    StepIsHonest(env, s, e);
    OtherEffect(env, s, e);
    InboxGrowsByArrivals(env, s, e);
  }

  lemma NodeStepKeepsAuthentic(envs: Envs, ticks: seq<nat>, env: Env, s: Engine, e: NodeEvent)
    requires |ticks| == |envs| && NodeInvariant(envs, ticks, env, s)
    requires Arrival(e) ==> Genuine(envs, ticks, e.event.datagram.payload)
    ensures NodeInvariant(envs, ticks, env, NodeStep(env, s, e)) && NodeStep(env, s, e).tick >= s.tick
  {
    hide Step, BeforeReceive, AfterWait, Genuine, NodeInvariant;
    if e == Act(CallPoll) {
      HalvesMakeAPoll(env, s);
      NodeHalvesKeepAuthentic(envs, ticks, env, s, PollWaits);
      NodeHalvesKeepAuthentic(envs, ticks, env, NodeStep(env, s, PollWaits), PollReceives);
    } else if e.Act? {
      ActingKeepsAuthentic(envs, ticks, env, s, e.event);
    } else {
      NodeHalvesKeepAuthentic(envs, ticks, env, s, e);
    }
  }

  lemma NodeHalvesKeepAuthentic(envs: Envs, ticks: seq<nat>, env: Env, s: Engine, e: NodeEvent)
    requires |ticks| == |envs| && NodeInvariant(envs, ticks, env, s) && !e.Act?
    ensures NodeInvariant(envs, ticks, env, NodeStep(env, s, e)) && NodeStep(env, s, e).tick >= s.tick
  {
    hide BeforeReceive, AfterWait, NodeInvariant;
    if IsRunning(s) && e.PollWaits? {
      WaitingKeepsAuthentic(envs, ticks, env, s);
    } else if IsRunning(s) {
      ReceivingKeepsAuthentic(envs, ticks, env, s);
    }
  }

  lemma InboxGrowsByArrivals(env: Env, s: Engine, e: Event)
    requires !e.CallPoll?
    ensures var inbox := Step(env, s, e).backend.inbox;
            inbox == [] || inbox == s.backend.inbox || (e.Arrives? && inbox == s.backend.inbox + [e.datagram])
  {
    hide AnnounceMessage, ProbeMessage, Messages.Encode;
  }

  lemma SentBytesAreGenuine(envs: Envs, nodes: Nodes, payload: bytes)
    requires |nodes| == |envs| && HasBeenSent(nodes, payload)
    requires forall k :: 0 <= k < |nodes| ==> HonestSoFar(envs[k], nodes[k])
    ensures Genuine(envs, Ticks(nodes), payload)
  {
    hide HonestBytes;
    var k, i :| 0 <= k < |nodes| && 0 <= i < |nodes[k].backend.outbox| && nodes[k].backend.outbox[i].payload == payload;
    assert HonestBytes(envs[k], nodes[k].tick, nodes[k].backend.outbox[i].payload);
  }

  ghost predicate NetworkInvariant(envs: Envs, nodes: Nodes)
    requires |nodes| == |envs|
  {
    forall k :: 0 <= k < |envs| ==> NodeInvariant(envs, Ticks(nodes), envs[k], nodes[k])
  }

  lemma AllHonest(envs: Envs, nodes: Nodes)
    requires |nodes| == |envs| && NetworkInvariant(envs, nodes)
    ensures forall k :: 0 <= k < |nodes| ==> HonestSoFar(envs[k], nodes[k])
  {
    hide HonestSoFar, EngineLaws.Consistent, GenuineInbox, AuthenticPeers, AuthenticCalls;
    forall k | 0 <= k < |nodes| ensures HonestSoFar(envs[k], nodes[k]) {
      assert NodeInvariant(envs, Ticks(nodes), envs[k], nodes[k]);
    }
  }

  lemma NetworkStepKeepsInvariant(envs: Envs, nodes: Nodes, e: NetworkEvent)
    requires |nodes| == |envs| && NetworkInvariant(envs, nodes) && Legal(nodes, e)
    ensures NetworkInvariant(envs, nodes[e.node := NodeStep(envs[e.node], nodes[e.node], e.event)])
  {
    hide NodeStep, NodeInvariant, Genuine, HasBeenSent;
    var ticks := Ticks(nodes);
    if Arrival(e.event) {
      AllHonest(envs, nodes);
      SentBytesAreGenuine(envs, nodes, e.event.event.datagram.payload);
    }
    NodeStepKeepsAuthentic(envs, ticks, envs[e.node], nodes[e.node], e.event);
    var after := nodes[e.node := NodeStep(envs[e.node], nodes[e.node], e.event)];
    forall k | 0 <= k < |envs| ensures NodeInvariant(envs, Ticks(after), envs[k], after[k]) {
      NodeInvariantLater(envs, ticks, Ticks(after), envs[k], after[k]);
    }
  }

  lemma {:induction false} AlwaysAuthentic(envs: Envs, nodes: Nodes, events: seq<NetworkEvent>)
    requires |nodes| == |envs| && LegalRun(envs, nodes, events)
    requires forall k :: 0 <= k < |nodes| ==> Initial(nodes[k])
    ensures NetworkInvariant(envs, NetworkRun(envs, nodes, events))
  {
    if events != [] {
      hide NetworkInvariant, NodeStep;
      var n := |events| - 1;
      LegalPrefix(envs, nodes, events);
      AlwaysAuthentic(envs, nodes, events[..n]);
      NetworkStepKeepsInvariant(envs, NetworkRun(envs, nodes, events[..n]), events[n]);
    }
  }

  lemma LegalPrefix(envs: Envs, nodes: Nodes, events: seq<NetworkEvent>)
    requires |nodes| == |envs| && LegalRun(envs, nodes, events) && events != []
    ensures LegalRun(envs, nodes, events[..|events| - 1])
    ensures Legal(NetworkRun(envs, nodes, events[..|events| - 1]), events[|events| - 1])
  {
    hide NetworkRun, Legal;
    var earlier := events[..|events| - 1];
    assert forall i :: 0 <= i < |earlier| ==> earlier[i] == events[i] && earlier[..i] == events[..i];
  }

  /** In every reachable state of the network, an engine's entry under an id carries the host and port a node
      with that id is configured to announce, stamped by a clock reading that node has made, and no engine has an
      entry for its own id. */
  lemma NetworkAuthenticity(envs: Envs, nodes: Nodes, events: seq<NetworkEvent>, k: nat, id: bytes)
    requires |nodes| == |envs| && LegalRun(envs, nodes, events) && k < |envs|
    requires forall i :: 0 <= i < |nodes| ==> Initial(nodes[i])
    requires id in NetworkRun(envs, nodes, events)[k].peers
    ensures var r := NetworkRun(envs, nodes, events);
            var a := r[k].peers[id].announcement;
            && id != envs[k].config.nodeId && a.nodeId == id
            && exists j: nat, t: nat :: && j < |envs| && envs[j].config.nodeId == id
                                        && a.host == envs[j].config.announceHost
                                        && a.port == envs[j].config.announcePort
                                        && t < r[j].tick && a.timestamp == envs[j].at(t)
  {
    hide NetworkRun, LegalRun;
    AlwaysAuthentic(envs, nodes, events);
    var r := NetworkRun(envs, nodes, events);
    assert NodeInvariant(envs, Ticks(r), envs[k], r[k]);
    var a := r[k].peers[id].announcement;
    var j: nat, t: nat :| j < |envs| && t < Ticks(r)[j] && a == LocalAnnouncement(envs[j], envs[j].at(t));
    assert envs[j].config.nodeId == id && t < r[j].tick && a.timestamp == envs[j].at(t);
  }

  /** In every reachable state of the network, every endpoint a node has handed to its transport is another id's,
      with the host and port some node of that id is configured to announce. */
  lemma ConnectionsAreAuthentic(envs: Envs, nodes: Nodes, events: seq<NetworkEvent>, k: nat, i: nat)
    requires |nodes| == |envs| && LegalRun(envs, nodes, events) && k < |envs|
    requires forall n :: 0 <= n < |nodes| ==> Initial(nodes[n])
    requires i < |NetworkRun(envs, nodes, events)[k].transport.calls|
    ensures var p := NetworkRun(envs, nodes, events)[k].transport.calls[i];
            && p.nodeId != envs[k].config.nodeId
            && exists j: nat :: && j < |envs| && envs[j].config.nodeId == p.nodeId
                                && p.host == envs[j].config.announceHost && p.port == envs[j].config.announcePort
  {
    hide NetworkRun, LegalRun;
    AlwaysAuthentic(envs, nodes, events);
    var r := NetworkRun(envs, nodes, events);
    assert NodeInvariant(envs, Ticks(r), envs[k], r[k]);
    var p := r[k].transport.calls[i];
    assert AuthenticEndpoint(envs, envs[k], p);
    var j: nat :| j < |envs| && p == OwnEndpoint(envs[j]);
    assert envs[j].config.nodeId == p.nodeId;
  }
}
