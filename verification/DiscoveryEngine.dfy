/** The discovery engine and the objects it drives, as classes; EngineModel says what their methods do. */
module DiscoveryEngines {
  import opened Serializer
  import opened Types
  import opened Clocks
  import opened Registry
  import opened EngineModel
  import Messages = MessageCodec
  import Announcements = AnnouncementCodec
  import Batch

  /** The UDP backend. The socket's answers are given by the engine's surroundings: opening, and sending. */
  class UdpDiscoveryBackend {
    const env: Env
    var running: bool
    var opens: nat
    var sends: nat
    var inbox: seq<Datagram>
    var outbox: seq<Datagram>

    ghost function View(): Backend
      reads this
    {
      Backend(running, opens, sends, inbox, outbox)
    }

    constructor (env: Env)
      ensures this.env == env && View() == Backend(false, 0, 0, [], [])
    {
      this.env := env;
      running, opens, sends, inbox, outbox := false, 0, 0, [], [];
    }

    /** Opens, configures and binds the socket. */
    method OpenSocket() returns (ok: bool)
      modifies this`opens
      ensures ok == env.opens(old(opens)) && opens == old(opens) + 1
    {
      ok := env.opens(opens);
      opens := opens + 1;
    }

    method SendDatagram(d: Datagram) returns (sent: nat)
      modifies this`sends, this`outbox
      ensures sends == old(sends) + 1
      ensures sent == (if env.accepts(old(sends)) && |d.payload| < DATAGRAM_LIMIT then |d.payload| else 0)
      ensures outbox == if env.accepts(old(sends)) && |d.payload| < DATAGRAM_LIMIT then old(outbox) + [d]
                        else old(outbox)
    {
      sent := 0;
      if env.accepts(sends) && |d.payload| < DATAGRAM_LIMIT {
        outbox := outbox + [d];
        sent := |d.payload|;
      }
      sends := sends + 1;
    }

    /** Takes the next waiting datagram, keeping at most maxSize bytes of it. */
    method ReceiveDatagram(maxSize: nat) returns (d: Datagram)
      modifies this`inbox
      ensures old(inbox) == [] ==> d == NO_DATAGRAM && inbox == []
      ensures old(inbox) != [] ==>
                && inbox == old(inbox)[1..]
                && d == old(inbox)[0].(payload := Messages.Truncate(old(inbox)[0].payload, maxSize))
    {
      if inbox == [] {
        return NO_DATAGRAM;
      }
      d := inbox[0].(payload := Messages.Truncate(inbox[0].payload, maxSize));
      inbox := inbox[1..];
    }

    method Start() returns (ok: bool)
      modifies this
      ensures (View(), ok) == BackendStart(env, old(View()))
      ensures ok == running == (old(running) || (env.config.IsValid() && env.opens(old(opens))))
      ensures opens == old(opens) + if old(running) || !env.config.IsValid() then 0 else 1
    {
      if running {
        return true;
      }
      if !env.config.IsValid() {
        return false;
      }
      ok := OpenSocket();
      if ok {
        running := true;
      }
    }

    method Stop()
      modifies this
      ensures View() == BackendStop(old(View()))
    {
      running := false;
      inbox := [];
    }

    method Send(envelope: DiscoveryEnvelope) returns (ok: bool)
      modifies this
      ensures (View(), ok) == BackendSend(env, old(View()), envelope)
      ensures ok <==> && old(running) && envelope.message.IsValid() && envelope.timestamp > 0
                      && envelope.toHost != [] && envelope.toPort > 0
                      && env.accepts(old(sends)) && |Messages.Encode(envelope.message)| < 0x1_0000
      ensures outbox == if ok then old(outbox) + [Datagram(envelope.toHost, envelope.toPort,
                                                           Messages.Encode(envelope.message))]
                        else old(outbox)
    {
      if !running || !envelope.IsValid() || !envelope.HasDestination() {
        return false;
      }
      var datagram := Messages.MakeDatagram(envelope.message, envelope.toHost, envelope.toPort);
      if !datagram.IsValid() {
        return false;
      }
      var sent := SendDatagram(datagram);
      ok := sent == |datagram.payload|;
    }

    method Poll(clock: Clock) returns (inbound: Option<DiscoveryEnvelope>)
      requires clock.at == env.at
      modifies this, clock`tick
      ensures (View(), inbound) == BackendPoll(env, old(View()), env.at(old(clock.tick) + 1))
      ensures clock.tick == old(clock.tick) + if inbound.Some? then 2 else 0
      ensures !old(running) || old(inbox) == [] ==> inbound == None && inbox == old(inbox)
      ensures old(running) && old(inbox) != [] ==>
                var d := old(inbox)[0];
                var decoded := Messages.Parse(Messages.Truncate(d.payload, env.config.maxDatagramSize));
                && inbox == old(inbox)[1..]
                && (inbound.Some? <==> d.host != [] && d.port > 0 && decoded.Some?)
                && (inbound.Some? ==>
                      && decoded == Some(inbound.value.message)
                      && inbound.value.fromHost == d.host && inbound.value.fromPort == d.port
                      && inbound.value.timestamp == env.at(old(clock.tick) + 1))
    {
      hide Messages.Parse, Messages.Truncate;
      Messages.NothingIsNoMessage();
      if !running {
        return None;
      }
      var datagram := ReceiveDatagram(env.config.maxDatagramSize);
      if !datagram.IsValid() {
        return None;
      }
      var message := Messages.DecodeMessage(datagram.payload);
      if message.None? {
        return None;
      }
      var createdAt := clock.Now();
      var envelope := DiscoveryEnvelope(message.value, [], 0, [], 0, createdAt);
      envelope := envelope.(fromHost := datagram.host, fromPort := datagram.port);
      var receivedAt := clock.Now();
      inbound := Some(envelope.(timestamp := receivedAt));
    }
  }

  /** The transport engine, as far as discovery uses it. */
  class TransportEngine {
    const joins: nat -> bool
    var running: bool
    var peers: set<bytes>
    var calls: seq<PeerInfo>

    ghost function View(): Transport
      reads this
    {
      Transport(running, peers, calls)
    }

    constructor (joins: nat -> bool, running: bool, peers: set<bytes>)
      ensures this.joins == joins && View() == Transport(running, peers, [])
    {
      this.joins := joins;
      this.running, this.peers, calls := running, peers, [];
    }

    method ConnectPeer(peer: PeerInfo)
      modifies this`peers, this`calls
      ensures calls == old(calls) + [peer]
      ensures peers == if joins(|old(calls)|) then old(peers) + {peer.nodeId} else old(peers)
    {
      if joins(|calls|) {
        peers := peers + {peer.nodeId};
      }
      calls := calls + [peer];
    }
  }

  class DiscoveryEngine {
    const env: Env
    const clock: Clock
    const backend: UdpDiscoveryBackend
    const registry: DiscoveryRegistry
    const transport: TransportEngine
    var status: DiscoveryStatus
    var lastAnnounceAt: Millis

    /** The parts share one environment. */
    ghost predicate Wired() {
      clock.at == env.at && backend.env == env && transport.joins == env.joins
    }

    ghost function State(): Engine
      reads this, clock, backend, registry, transport
    {
      Engine(status, registry.peers, lastAnnounceAt, clock.tick, backend.View(), transport.View())
    }

    constructor (env: Env, clock: Clock, backend: UdpDiscoveryBackend, transport: TransportEngine)
      requires clock.at == env.at && backend.env == env && transport.joins == env.joins
      ensures Wired() && this.env == env && fresh(registry)
      ensures this.clock == clock && this.backend == backend && this.transport == transport
      ensures State() == Engine(Stopped, map[], UNSET, clock.tick, backend.View(), transport.View())
    {
      this.env, this.clock, this.backend, this.transport := env, clock, backend, transport;
      registry := new DiscoveryRegistry();
      status, lastAnnounceAt := Stopped, UNSET;
    }

    method Start() returns (ok: bool)
      requires Wired()
      modifies this, backend
      ensures (State(), ok) == EngineModel.Start(env, old(State()))
    {
      if status == Running {
        return true;
      }
      if !env.config.IsValid() {
        status := Failed;
        return false;
      }
      status := Starting;
      ok := backend.Start();
      if !ok {
        status := Failed;
        return;
      }
      lastAnnounceAt := UNSET;
      status := Running;
    }

    method Stop()
      requires Wired()
      modifies this, backend, registry
      ensures State() == EngineModel.Stop(old(State()))
    {
      if status == Stopped {
        return;
      }
      status := Stopping;
      backend.Stop();
      registry.Clear();
      lastAnnounceAt := UNSET;
      status := Stopped;
    }

    predicate IsRunning()
      reads this, backend
    {
      status == Running && backend.running
    }

    /** The client's send: the envelope is checked and stamped, then handed to the backend. */
    method ClientSend(envelope: DiscoveryEnvelope) returns (sent: bool)
      requires Wired()
      modifies backend, clock
      ensures (State(), sent) == Send(env, old(State()), envelope)
    {
      if !envelope.IsValid() || !envelope.HasDestination() {
        return false;
      }
      var _ := clock.Now();
      sent := backend.Send(envelope);
    }

    method MakeLocalAnnouncement() returns (a: DiscoveryAnnouncement)
      requires Wired()
      modifies clock
      ensures a == LocalAnnouncement(env, env.at(old(clock.tick))) && clock.tick == old(clock.tick) + 1
    {
      var now := clock.Now();
      a := DiscoveryAnnouncement(env.config.nodeId, env.config.announceHost, env.config.announcePort, now);
    }

    method MakeAnnounceMessage() returns (m: DiscoveryMessage)
      requires Wired()
      modifies clock
      ensures m == AnnounceMessage(env, env.at(old(clock.tick)), env.at(old(clock.tick) + 1))
      ensures clock.tick == old(clock.tick) + 2
    {
      var a := MakeLocalAnnouncement();
      var payload := Announcements.EncodeAnnouncement(a);
      var now := clock.Now();
      m := DiscoveryMessage(Announce, env.config.nodeId, [], CorrelationId(ANNOUNCE_PREFIX, now), payload);
    }

    method MakeReplyMessage(to: bytes, correlation: bytes) returns (m: DiscoveryMessage)
      requires Wired()
      modifies clock
      ensures m == ReplyMessage(env, env.at(old(clock.tick)), to, correlation)
      ensures clock.tick == old(clock.tick) + 1
    {
      var a := MakeLocalAnnouncement();
      var payload := Announcements.EncodeAnnouncement(a);
      m := DiscoveryMessage(Reply, env.config.nodeId, [], [], payload);
      m := m.(toNodeId := to);
      m := m.(correlationId := correlation);
    }

    method AnnounceNow() returns (sent: bool)
      requires Wired()
      modifies this, backend, clock
      ensures (State(), sent) == EngineModel.AnnounceNow(env, old(State()))
    {
      hide AnnounceMessage, Send, Outbound;
      if !IsRunning() {
        return false;
      }
      var m := MakeAnnounceMessage();
      var createdAt := clock.Now();
      assert State() == old(State()).(tick := old(clock.tick) + 3);
      sent := ClientSend(Outbound(m, env.config.broadcastHost, env.config.broadcastPort, createdAt));
      if sent {
        lastAnnounceAt := clock.Now();
      }
    }

    method ProbeNow() returns (sent: bool)
      requires Wired()
      modifies backend, clock
      ensures (State(), sent) == EngineModel.ProbeNow(env, old(State()))
    {
      hide Send;
      if !IsRunning() {
        return false;
      }
      var labelledAt := clock.Now();
      var m := DiscoveryMessage(Probe, env.config.nodeId, [], CorrelationId(PROBE_PREFIX, labelledAt), []);
      var createdAt := clock.Now();
      sent := ClientSend(Outbound(m, env.config.broadcastHost, env.config.broadcastPort, createdAt));
    }

    method MaybeAnnounce()
      requires Wired()
      modifies this, backend, clock
      ensures State() == EngineModel.MaybeAnnounce(env, old(State()))
    {
      hide EngineModel.AnnounceNow;
      var now := clock.Now();
      if !IsSet(lastAnnounceAt) || now as int - lastAnnounceAt as int >= env.config.announceInterval {
        var _ := AnnounceNow();
      }
    }

    method RefreshPeerStates()
      requires Wired()
      modifies registry, clock
      ensures State() == EngineModel.RefreshPeerStates(env, old(State()))
    {
      var now := clock.Now();
      var _ := registry.RefreshStates(now, env.config.peerTtl / 2, env.config.peerTtl);
    }

    method IntegrateWithTransport(a: DiscoveryAnnouncement)
      requires Wired()
      modifies transport
      ensures transport.View() == Integrate(env, old(transport.View()), a)
    {
      var peer := PeerInfo(a.nodeId, a.host, a.port);
      if !peer.IsValid() || !transport.running {
        return;
      }
      if peer.nodeId in transport.peers {
        return;
      }
      transport.ConnectPeer(peer);
    }

    method HandleAnnounce(envelope: DiscoveryEnvelope) returns (ok: bool)
      requires Wired()
      modifies registry, clock, transport
      ensures (State(), ok) == HandleAnnouncement(env, old(State()), envelope)
    {
      hide Announcements.Parse, Upsert, UpsertReadings, Integrate;
      var announcement := Announcements.DecodeAnnouncement(envelope.message.payload);
      if announcement.None? || !announcement.value.IsValid() {
        return false;
      }
      if announcement.value.nodeId == env.config.nodeId {
        return false;
      }
      registry.UpsertAnnouncement(announcement.value, clock);
      IntegrateWithTransport(announcement.value);
      ok := true;
    }

    method HandleReply(envelope: DiscoveryEnvelope) returns (ok: bool)
      requires Wired()
      modifies registry, clock, transport
      ensures (State(), ok) == HandleAnnouncement(env, old(State()), envelope)
    {
      hide Announcements.Parse, Upsert, UpsertReadings, Integrate;
      var announcement := Announcements.DecodeAnnouncement(envelope.message.payload);
      if announcement.None? || !announcement.value.IsValid() {
        return false;
      }
      if announcement.value.nodeId == env.config.nodeId {
        return false;
      }
      registry.UpsertAnnouncement(announcement.value, clock);
      IntegrateWithTransport(announcement.value);
      ok := true;
    }

    method HandleProbe(envelope: DiscoveryEnvelope) returns (ok: bool)
      requires Wired()
      modifies backend, clock
      ensures (State(), ok) == EngineModel.HandleProbe(env, old(State()), envelope)
    {
      if !envelope.HasSource() {
        return false;
      }
      var reply := MakeReplyMessage(envelope.message.fromNodeId, envelope.message.correlationId);
      var createdAt := clock.Now();
      ok := ClientSend(Outbound(reply, envelope.fromHost, envelope.fromPort, createdAt));
    }

    method PollOnce() returns (ok: bool)
      requires Wired()
      modifies this, backend, clock, registry, transport
      ensures (State(), ok) == EngineModel.PollOnce(env, old(State()))
    {
      hide EngineModel.MaybeAnnounce, EngineModel.RefreshPeerStates;
      hide HandleAnnouncement, EngineModel.HandleProbe, Decoded, Messages.Parse, Messages.Truncate;
      if !IsRunning() {
        return false;
      }
      MaybeAnnounce();
      RefreshPeerStates();
      var inbound := backend.Poll(clock);
      if inbound.None? {
        return false;
      }
      var envelope := inbound.value;
      if !envelope.message.IsValid() || envelope.message.fromNodeId == env.config.nodeId {
        return false;
      }
      match envelope.message.kind
      case Announce =>
        ok := HandleAnnounce(envelope);
      case Probe =>
        ok := HandleProbe(envelope);
      case Reply =>
        ok := HandleReply(envelope);
      case _ =>
        ok := false;
    }

    /** The state left behind and the number returned are those of polling one by one until the first failure. */
    method PollMany(maxMessages: nat) returns (processed: nat)
      requires Wired()
      modifies this, backend, clock, registry, transport
      ensures Batch.Outcome(env, old(State()), maxMessages, processed, State())
    {
      hide EngineModel.PollOnce;
      processed := 0;
      for i := 0 to maxMessages
        invariant processed == i
        invariant State() == Batch.Polls(env, old(State()), i)
        invariant forall k :: 0 <= k < i ==> EngineModel.PollOnce(env, Batch.Polls(env, old(State()), k)).1
      {
        var ok := PollOnce();
        if !ok {
          break;
        }
        processed := processed + 1;
      }
    }
  }
}
