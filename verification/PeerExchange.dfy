/** Announcements, probes and replies, from one engine's bytes to another's registry. */
module PeerExchange {
  import opened Serializer
  import opened Types
  import opened EngineModel
  import opened Network
  import Messages = MessageCodec
  import Announcements = AnnouncementCodec

  /** A send that succeeds puts one datagram on the wire: the encoded message, to the envelope's destination.
      A send that fails puts nothing on it. */
  lemma SendAppends(env: Env, s: Engine, e: DiscoveryEnvelope)
    ensures var (r, sent) := Send(env, s, e);
            && (sent ==> |Messages.Encode(e.message)| < DATAGRAM_LIMIT)
            && r.backend.outbox == s.backend.outbox
                                   + if sent then [Datagram(e.toHost, e.toPort, Messages.Encode(e.message))] else []
  {
    hide Messages.Encode;
  }

  function Last(sent: seq<Datagram>): Datagram {
    if sent == [] then NO_DATAGRAM else sent[|sent| - 1]
  }

  /** A successful probe goes to the configured broadcast endpoint, and its bytes decode to the probe. */
  lemma ProbeBytes(env: Env, s: Engine)
    requires env.config.IsValid() && ProbeNow(env, s).1
    ensures var d := Last(ProbeNow(env, s).0.backend.outbox);
            && d.host == env.config.broadcastHost && d.port == env.config.broadcastPort
            && Messages.Parse(d.payload) == Some(ProbeMessage(env, env.at(s.tick)))
  {
    var m := ProbeMessage(env, env.at(s.tick));
    ProbeIsLocal(env, s.tick, env.at(s.tick));
    var e := Outbound(m, env.config.broadcastHost, env.config.broadcastPort, env.at(s.tick + 1));
    var ready := s.(tick := s.tick + 2);
    assert ProbeNow(env, s) == Send(env, ready, e);
    hide ProbeMessage, Send, ProbeNow, Messages.Encode, Messages.Parse, IsLocalMessage;
    SendAppends(env, ready, e);
    LocalMessagesAreHonest(env, s.tick, m);
  }

  /** A successful announcement goes to the configured broadcast endpoint, and its bytes decode to a message
      that announces the sender's own configured endpoint; a failed one sends nothing. */
  lemma AnnouncementBytes(env: Env, s: Engine)
    requires env.config.IsValid()
    ensures var (r, sent) := AnnounceNow(env, s);
            if !sent then r.backend.outbox == s.backend.outbox else
            var d := Last(r.backend.outbox);
            var m := Messages.Parse(d.payload);
            && r.backend.outbox == s.backend.outbox + [d]
            && d.host == env.config.broadcastHost && d.port == env.config.broadcastPort
            && m.Some? && m.value.kind == Announce && m.value.fromNodeId == env.config.nodeId
            && AnnouncesSelf(env, s.tick + 1, m.value.payload)
  {
    hide Send, Messages.Encode, Messages.Parse, Announcements.Encode, AnnouncesSelf;
    var m := AnnounceMessage(env, env.at(s.tick), env.at(s.tick + 1));
    AnnounceIsLocal(env, s.tick, env.at(s.tick + 1));
    var e := Outbound(m, env.config.broadcastHost, env.config.broadcastPort, env.at(s.tick + 2));
    SendAppends(env, s.(tick := s.tick + 3), e);
    if AnnounceNow(env, s).1 {
      LocalMessagesAreHonest(env, s.tick + 1, m);
    }
  }

  lemma SelfLater(env: Env, limit: nat, later: nat, payload: bytes)
    requires limit <= later && AnnouncesSelf(env, limit, payload)
    ensures AnnouncesSelf(env, later, payload)
  {
    hide Announcements.Parse;
  }

  /** A successful answer to a probe goes to the probe's source endpoint and decodes to a reply that is
      addressed to the prober, repeats the correlation id, and announces the answering node. */
  lemma ReplyBytes(env: Env, s: Engine, e: DiscoveryEnvelope)
    requires env.config.IsValid() && HandleProbe(env, s, e).1
    ensures var d := Last(HandleProbe(env, s, e).0.backend.outbox);
            var m := Messages.Parse(d.payload);
            && d.host == e.fromHost && d.port == e.fromPort
            && m == Some(ReplyMessage(env, env.at(s.tick), e.message.fromNodeId, e.message.correlationId))
            && AnnouncesSelf(env, HandleProbe(env, s, e).0.tick, m.value.payload)
  {
    var m := ReplyMessage(env, env.at(s.tick), e.message.fromNodeId, e.message.correlationId);
    assert m.kind == Reply;
    ReplyIsLocal(env, s.tick, e.message.fromNodeId, e.message.correlationId);
    var out := Outbound(m, e.fromHost, e.fromPort, env.at(s.tick + 1));
    var ready := s.(tick := s.tick + 2);
    assert HandleProbe(env, s, e) == Send(env, ready, out);
    SendAppends(env, ready, out);
    SendAdvances(env, ready, out);
    hide ReplyMessage, Send, HandleProbe, Messages.Encode, Messages.Parse, IsLocalMessage, AnnouncesSelf;
    LocalMessagesAreHonest(env, s.tick + 1, m);
    SelfLater(env, s.tick + 1, HandleProbe(env, s, e).0.tick, m.payload);
  }

  /** The payload is next in the inbox of a running engine, from a known source, and fits the receive buffer. */
  ghost predicate ArrivesWhole(env: Env, s: Engine, payload: bytes) {
    && IsRunning(s) && s.backend.inbox != []
    && s.backend.inbox[0].host != [] && s.backend.inbox[0].port != 0
    && s.backend.inbox[0].payload == payload && |payload| <= env.config.maxDatagramSize
  }

  lemma WholeArrivalsAreDecoded(env: Env, s: Engine, payload: bytes, m: DiscoveryMessage)
    requires ArrivesWhole(env, s, payload) && Messages.Parse(payload) == Some(m)
    ensures Decoded(env, s.backend.inbox[0]) == Some(m) && m.IsValid()
  {
    assert |payload| >= Messages.MINIMUM_MESSAGE_SIZE;
  }

  /** Such a message reaches the engine's dispatch with its source, in some state of the engine. */
  lemma PollDispatches(env: Env, s: Engine, payload: bytes, m: DiscoveryMessage)
    returns (received: Engine, e: DiscoveryEnvelope)
    requires ArrivesWhole(env, s, payload) && Messages.Parse(payload) == Some(m)
    ensures PollOnce(env, s) == Dispatch(env, received, e)
    ensures e.message == m && e.fromHost == s.backend.inbox[0].host && e.fromPort == s.backend.inbox[0].port
  {
    hide BeforeReceive, Dispatch, Messages.Parse, Decoded;
    WholeArrivalsAreDecoded(env, s, payload, m);
    BeforeReceiveFrame(env, s);
    received := Receive(env, BeforeReceive(env, s)).0;
    e := Receive(env, BeforeReceive(env, s)).1.value;
  }

  /** A probe that arrives whole from another node is answered exactly when the operating system takes the reply
      and the reply fits a datagram. */
  lemma ProbeIsAnsweredIff(env: Env, s: Engine, payload: bytes, m: DiscoveryMessage)
    requires env.config.IsValid() && ArrivesWhole(env, s, payload) && Messages.Parse(payload) == Some(m)
    requires m.kind == Probe && m.fromNodeId != env.config.nodeId
    ensures var b := BeforeReceive(env, s);
            PollOnce(env, s).1 <==>
            && env.accepts(b.backend.sends)
            && |Messages.Encode(ReplyMessage(env, env.at(b.tick + 2), m.fromNodeId, m.correlationId))| < DATAGRAM_LIMIT
  {
    hide BeforeReceive, Decoded, Messages.Parse, Messages.Encode, Announcements.Encode;
    BeforeReceiveFrame(env, s);
    WholeArrivalsAreDecoded(env, s, payload, m);
    assert IsSet(env.at(BeforeReceive(env, s).tick + 3));
  }

  /** B answers A's probe: when the poll that receives it succeeds, the last datagram B has sent goes to the
      endpoint the probe came from and decodes to B's reply to A, with A's correlation id. */
  lemma ProbeIsAnswered(envA: Env, a: Engine, envB: Env, b: Engine)
    requires envA.config.IsValid() && envB.config.IsValid() && envA.config.nodeId != envB.config.nodeId
    requires ProbeNow(envA, a).1
    requires ArrivesWhole(envB, b, Last(ProbeNow(envA, a).0.backend.outbox).payload)
    requires PollOnce(envB, b).1
    ensures var reply := Last(PollOnce(envB, b).0.backend.outbox);
            var m := Messages.Parse(reply.payload);
            && reply.host == b.backend.inbox[0].host && reply.port == b.backend.inbox[0].port
            && m.Some? && m.value.kind == Reply
            && m.value.fromNodeId == envB.config.nodeId && m.value.toNodeId == envA.config.nodeId
            && m.value.correlationId == ProbeMessage(envA, envA.at(a.tick)).correlationId
            && AnnouncesSelf(envB, PollOnce(envB, b).0.tick, m.value.payload)
  {
    hide Messages.Parse, ProbeNow, PollOnce, AnnouncesSelf, HandleProbe;
    var d, m := b.backend.inbox[0], ProbeMessage(envA, envA.at(a.tick));
    ProbeBytes(envA, a);
    var received, e := PollDispatches(envB, b, d.payload, m);
    assert Dispatch(envB, received, e) == HandleProbe(envB, received, e);
    ReplyBytes(envB, received, e);
  }

  /** A hears B's announcement or reply: the poll succeeds, and A holds B as Alive, at B's configured host and
      port, seen at the poll's last clock reading. */
  lemma AnnouncementRegistersPeer(
    envA: Env, a: Engine, envB: Env, limit: nat, payload: bytes, m: DiscoveryMessage)
    requires envA.config.nodeId != envB.config.nodeId
    requires ArrivesWhole(envA, a, payload) && Messages.Parse(payload) == Some(m)
    requires m.kind == Announce || m.kind == Reply
    requires m.fromNodeId == envB.config.nodeId && AnnouncesSelf(envB, limit, m.payload)
    ensures Registers(envA, PollOnce(envA, a), envB)
  {
    hide Messages.Parse, Announcements.Parse, PollOnce, BeforeReceive, Integrate, Decoded;
    WholeArrivalsAreDecoded(envA, a, payload, m);
    assert Accepted(envA, a) == Announcements.Parse(m.payload);
    PollEffect(envA, a);
  }

  /** The outcome of a poll that has just heard a node. */
  ghost predicate Registers(envA: Env, outcome: (Engine, bool), envB: Env) {
    var (r, ok) := outcome;
    && ok && envB.config.nodeId in r.peers
    && r.peers[envB.config.nodeId].state == Alive
    && r.tick > 0 && r.peers[envB.config.nodeId].lastSeenAt == envA.at(r.tick - 1)
    && r.peers[envB.config.nodeId].ToPeerInfo()
       == PeerInfo(envB.config.nodeId, envB.config.announceHost, envB.config.announcePort)
  }

  /** The whole exchange: A, having probed B and received B's reply, holds B as Alive at B's configured endpoint.
      Neither the state of B before the probe arrives, nor that of A before the reply does, nor the endpoints the
      network reports matter. */
  lemma ProbeExchangeRegistersPeer(envA: Env, a: Engine, envB: Env, b: Engine, a': Engine)
    requires envA.config.IsValid() && envB.config.IsValid() && envA.config.nodeId != envB.config.nodeId
    requires ProbeNow(envA, a).1
    requires ArrivesWhole(envB, b, Last(ProbeNow(envA, a).0.backend.outbox).payload)
    requires PollOnce(envB, b).1
    requires ArrivesWhole(envA, a', Last(PollOnce(envB, b).0.backend.outbox).payload)
    ensures Registers(envA, PollOnce(envA, a'), envB)
  {
    hide PollOnce, ProbeNow, Messages.Parse, AnnouncesSelf, Registers;
    ProbeIsAnswered(envA, a, envB, b);
    var reply := Last(PollOnce(envB, b).0.backend.outbox).payload;
    AnnouncementRegistersPeer(envA, a', envB, PollOnce(envB, b).0.tick, reply, Messages.Parse(reply).value);
  }

  /** One announcement is enough: a node that receives the bytes of another's successful announcement holds it
      Alive at its configured endpoint. */
  lemma AnnouncingRegistersPeer(envA: Env, a: Engine, envB: Env, b: Engine)
    requires envA.config.IsValid() && envA.config.nodeId != envB.config.nodeId
    requires AnnounceNow(envA, a).1
    requires ArrivesWhole(envB, b, Last(AnnounceNow(envA, a).0.backend.outbox).payload)
    ensures Registers(envB, PollOnce(envB, b), envA)
  {
    hide PollOnce, AnnounceNow, Messages.Parse, AnnouncesSelf, Registers;
    AnnouncementBytes(envA, a);
    var data := Last(AnnounceNow(envA, a).0.backend.outbox).payload;
    AnnouncementRegistersPeer(envB, b, envA, a.tick + 1, data, Messages.Parse(data).value);
  }
}
