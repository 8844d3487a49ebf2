/** The discovery engine as a deterministic state machine: what each public call does to the engine, its UDP
    backend and the transport, given the local clock and the operating system's answers. */
module EngineModel {
  import opened Serializer
  import opened Types
  import opened Clocks
  import opened Registry
  import Messages = MessageCodec
  import Announcements = AnnouncementCodec

  /** What an engine does not control. opens, accepts and joins answer the n-th socket open, the n-th
      datagram send and the n-th transport connection. */
  datatype Env = Env(
    config: DiscoveryConfig,
    at: Ticks,
    opens: nat -> bool,
    accepts: nat -> bool,
    joins: nat -> bool)

  /** The UDP backend: inbox holds the datagrams waiting in the open socket, outbox every datagram sent. */
  datatype Backend = Backend(running: bool, opens: nat, sends: nat, inbox: seq<Datagram>, outbox: seq<Datagram>)

  /** The transport engine: the peers it knows, and the connect_peer calls made so far. */
  datatype Transport = Transport(running: bool, peers: set<bytes>, calls: seq<PeerInfo>)

  datatype Engine = Engine(
    status: DiscoveryStatus,
    peers: Peers,
    lastAnnounceAt: Millis,
    tick: nat,
    backend: Backend,
    transport: Transport)

  /** A UDP datagram cannot be longer: its length is a 16-bit field (RFC 768, Fields, Length). */
  const DATAGRAM_LIMIT: nat := 0x1_0000

  // ---- The backend ----

  function BackendStart(env: Env, b: Backend): (Backend, bool) {
    if b.running then (b, true)
    else if !env.config.IsValid() then (b, false)
    else (b.(running := env.opens(b.opens), opens := b.opens + 1), env.opens(b.opens))
  }

  /** Closing the socket drops the datagrams that were waiting in it. */
  function BackendStop(b: Backend): Backend {
    b.(running := false, inbox := [])
  }

  function BackendSend(env: Env, b: Backend, e: DiscoveryEnvelope): (Backend, bool) {
    if !b.running || !e.IsValid() || !e.HasDestination() then (b, false) else
    var datagram := Datagram(e.toHost, e.toPort, Messages.Encode(e.message));
    var sent := env.accepts(b.sends) && |datagram.payload| < DATAGRAM_LIMIT;
    (b.(sends := b.sends + 1, outbox := if sent then b.outbox + [datagram] else b.outbox), sent)
  }

  /** What the backend makes of a datagram: cut to the receive buffer, then decoded. */
  function Decoded(env: Env, d: Datagram): Option<DiscoveryMessage> {
    var data := Messages.Truncate(d.payload, env.config.maxDatagramSize);
    if Datagram(d.host, d.port, data).IsValid() then Messages.Parse(data) else None
  }

  function BackendPoll(env: Env, b: Backend, now: Instant): (Backend, Option<DiscoveryEnvelope>) {
    if !b.running || b.inbox == [] then (b, None) else
    var d := b.inbox[0];
    (b.(inbox := b.inbox[1..]),
     match Decoded(env, d)
     case None => None
     case Some(m) => Some(DiscoveryEnvelope(m, d.host, d.port, [], 0, now)))
  }

  // ---- Outbound messages ----

  function Decimal(n: nat): bytes {
    (if n < 10 then [] else Decimal(n / 10)) + [48 + n % 10]
  }

  const ANNOUNCE_PREFIX: bytes := [97, 110, 110, 111, 117, 110, 99, 101]
  const PROBE_PREFIX: bytes := [112, 114, 111, 98, 101]

  function CorrelationId(prefix: bytes, now: Instant): bytes {
    assert IsSet(now);
    prefix + [45] + Decimal(now)
  }

  function LocalAnnouncement(env: Env, now: Millis): DiscoveryAnnouncement {
    DiscoveryAnnouncement(env.config.nodeId, env.config.announceHost, env.config.announcePort, now)
  }

  function AnnounceMessage(env: Env, announcedAt: Instant, labelledAt: Instant): DiscoveryMessage {
    DiscoveryMessage(Announce, env.config.nodeId, [], CorrelationId(ANNOUNCE_PREFIX, labelledAt),
                     Announcements.Encode(LocalAnnouncement(env, announcedAt)))
  }

  function ProbeMessage(env: Env, labelledAt: Instant): DiscoveryMessage {
    DiscoveryMessage(Probe, env.config.nodeId, [], CorrelationId(PROBE_PREFIX, labelledAt), [])
  }

  function ReplyMessage(env: Env, announcedAt: Instant, to: bytes, correlation: bytes): DiscoveryMessage {
    DiscoveryMessage(Reply, env.config.nodeId, to, correlation,
                     Announcements.Encode(LocalAnnouncement(env, announcedAt)))
  }

  function Outbound(m: DiscoveryMessage, host: bytes, port: u16, now: Instant): DiscoveryEnvelope {
    DiscoveryEnvelope(m, [], 0, host, port, now)
  }

  /** The client: checks the envelope, stamps the attempt (one clock reading), and hands it to the backend. */
  function Send(env: Env, s: Engine, e: DiscoveryEnvelope): (Engine, bool) {
    if !e.IsValid() || !e.HasDestination() then (s, false) else
    var (backend, sent) := BackendSend(env, s.backend, e);
    (s.(tick := s.tick + 1, backend := backend), sent)
  }

  // ---- Lifecycle ----

  predicate IsRunning(s: Engine) {
    s.status == Running && s.backend.running
  }

  function Start(env: Env, s: Engine): (Engine, bool) {
    if s.status == Running then (s, true)
    else if !env.config.IsValid() then (s.(status := Failed), false)
    else
      var (backend, started) := BackendStart(env, s.backend);
      if started then (s.(status := Running, backend := backend, lastAnnounceAt := UNSET), true)
      else (s.(status := Failed, backend := backend), false)
  }

  function Stop(s: Engine): Engine {
    if s.status == Stopped then s else
    s.(status := Stopped, peers := map[], lastAnnounceAt := UNSET, backend := BackendStop(s.backend))
  }

  // ---- Sending ----

  function AnnounceNow(env: Env, s: Engine): (Engine, bool) {
    if !IsRunning(s) then (s, false) else
    var m := AnnounceMessage(env, env.at(s.tick), env.at(s.tick + 1));
    var e := Outbound(m, env.config.broadcastHost, env.config.broadcastPort, env.at(s.tick + 2));
    var (after, sent) := Send(env, s.(tick := s.tick + 3), e);
    if sent then (after.(lastAnnounceAt := env.at(after.tick), tick := after.tick + 1), true) else (after, false)
  }

  function ProbeNow(env: Env, s: Engine): (Engine, bool) {
    if !IsRunning(s) then (s, false) else
    var m := ProbeMessage(env, env.at(s.tick));
    var e := Outbound(m, env.config.broadcastHost, env.config.broadcastPort, env.at(s.tick + 1));
    Send(env, s.(tick := s.tick + 2), e)
  }

  /** Whether an automatic announcement is due, at the clock reading the decision is based on. */
  predicate AnnounceDue(env: Env, s: Engine) {
    !IsSet(s.lastAnnounceAt)
    || env.at(s.tick) as int - s.lastAnnounceAt as int >= env.config.announceInterval
  }

  function MaybeAnnounce(env: Env, s: Engine): Engine {
    var read := s.(tick := s.tick + 1);
    if AnnounceDue(env, s) then AnnounceNow(env, read).0 else read
  }

  // ---- Receiving ----

  function RefreshPeerStates(env: Env, s: Engine): Engine {
    s.(peers := Refresh(s.peers, env.at(s.tick), env.config.peerTtl / 2, env.config.peerTtl), tick := s.tick + 1)
  }

  /** The part of a poll that precedes the receive. */
  function BeforeReceive(env: Env, s: Engine): (r: Engine)
    ensures r.tick >= s.tick + 2
  {
    RefreshPeerStates(env, MaybeAnnounce(env, s))
  }

  /** A decoded datagram reads the clock twice: once in the envelope's constructor, once for its timestamp. */
  function Receive(env: Env, s: Engine): (Engine, Option<DiscoveryEnvelope>) {
    var (backend, inbound) := BackendPoll(env, s.backend, env.at(s.tick + 1));
    (s.(backend := backend, tick := if inbound.Some? then s.tick + 2 else s.tick), inbound)
  }

  /** The announcement carried by a payload, unless it is malformed or this node's own. */
  function Admitted(env: Env, payload: bytes): Option<DiscoveryAnnouncement> {
    var a :- Announcements.Parse(payload);
    if a.nodeId == env.config.nodeId then None else Some(a)
  }

  function Integrate(env: Env, t: Transport, a: DiscoveryAnnouncement): Transport {
    var peer := PeerInfo(a.nodeId, a.host, a.port);
    if !peer.IsValid() || !t.running || peer.nodeId in t.peers then t else
    t.(calls := t.calls + [peer], peers := if env.joins(|t.calls|) then t.peers + {peer.nodeId} else t.peers)
  }

  /** Stores a peer in the registry and hands it to the transport. */
  function Store(env: Env, s: Engine, a: DiscoveryAnnouncement): Engine
    requires a.IsValid()
  {
    var tick := s.tick + UpsertReadings(s.peers, a);
    s.(peers := Upsert(s.peers, a, env.at(tick - 1)), tick := tick, transport := Integrate(env, s.transport, a))
  }

  /** Announcements and replies are handled alike. */
  function HandleAnnouncement(env: Env, s: Engine, e: DiscoveryEnvelope): (Engine, bool) {
    match Admitted(env, e.message.payload)
    case None => (s, false)
    case Some(a) => if a.IsValid() then (Store(env, s, a), true) else (s, false)
  }

  function HandleProbe(env: Env, s: Engine, e: DiscoveryEnvelope): (Engine, bool) {
    if !e.HasSource() then (s, false) else
    var m := ReplyMessage(env, env.at(s.tick), e.message.fromNodeId, e.message.correlationId);
    Send(env, s.(tick := s.tick + 2), Outbound(m, e.fromHost, e.fromPort, env.at(s.tick + 1)))
  }

  function Dispatch(env: Env, s: Engine, e: DiscoveryEnvelope): (Engine, bool) {
    if !e.message.IsValid() || e.message.fromNodeId == env.config.nodeId then (s, false) else
    match e.message.kind
    case Announce => HandleAnnouncement(env, s, e)
    case Probe => HandleProbe(env, s, e)
    case Reply => HandleAnnouncement(env, s, e)
    case _ => (s, false)
  }

  /** The part of a poll that follows the wait for a datagram. */
  function AfterWait(env: Env, s: Engine): (Engine, bool) {
    var (received, inbound) := Receive(env, s);
    match inbound
    case None => (received, false)
    case Some(e) => Dispatch(env, received, e)
  }

  function PollOnce(env: Env, s: Engine): (Engine, bool) {
    if IsRunning(s) then AfterWait(env, BeforeReceive(env, s)) else (s, false)
  }

  // ---- Runs ----

  /** A public call, or something the outside world does between two calls. */
  datatype Event =
    | CallStart
    | CallStop
    | CallAnnounce
    | CallProbe
    | CallPoll
    | ClockRead
    | Arrives(datagram: Datagram)
    | TransportBecomes(running: bool, peers: set<bytes>)

  function Step(env: Env, s: Engine, e: Event): Engine {
    match e
    case CallStart => Start(env, s).0
    case CallStop => Stop(s)
    case CallAnnounce => AnnounceNow(env, s).0
    case CallProbe => ProbeNow(env, s).0
    case CallPoll => PollOnce(env, s).0
    case ClockRead => s.(tick := s.tick + 1)
    case Arrives(d) => if s.backend.running then s.(backend := s.backend.(inbox := s.backend.inbox + [d])) else s
    case TransportBecomes(running, peers) => s.(transport := s.transport.(running := running, peers := peers))
  }

  function Run(env: Env, s: Engine, events: seq<Event>): Engine {
    if events == [] then s else
    Step(env, Run(env, s, events[..|events| - 1]), events[|events| - 1])
  }

  /** A newly constructed engine. */
  predicate Initial(s: Engine) {
    && s.status == Stopped && s.peers == map[] && s.lastAnnounceAt == UNSET
    && !s.backend.running && s.backend.inbox == [] && s.backend.outbox == []
    && s.transport.calls == []
  }

  lemma {:induction false} RunConcat(env: Env, s: Engine, first: seq<Event>, second: seq<Event>)
    ensures Run(env, s, first + second) == Run(env, Run(env, s, first), second)
  {
    hide Step;
    if second == [] {
      assert first + second == first;
    } else {
      var n := |second| - 1;
      assert (first + second)[..|first| + n] == first + second[..n];
      RunConcat(env, s, first, second[..n]);
    }
  }

  // ---- What one poll does, read off the datagram it consumes ----

  /** The announcement this node accepts from a datagram. */
  function Heard(env: Env, d: Datagram): Option<DiscoveryAnnouncement> {
    var m :- Decoded(env, d);
    if m.fromNodeId == env.config.nodeId || m.kind == Probe then None else Admitted(env, m.payload)
  }

  /** The announcement accepted by a poll in state s. */
  function Accepted(env: Env, s: Engine): Option<DiscoveryAnnouncement> {
    if IsRunning(s) && s.backend.inbox != [] then Heard(env, s.backend.inbox[0]) else None
  }

  lemma DecodedIsValid(env: Env, d: Datagram)
    ensures Decoded(env, d).Some? ==> Decoded(env, d).value.IsValid()
  {
    if Decoded(env, d).Some? {
      Messages.ParseInvertsEncode(Messages.Truncate(d.payload, env.config.maxDatagramSize), Decoded(env, d).value);
    }
  }

  lemma AdmittedIsValid(env: Env, payload: bytes)
    ensures match Admitted(env, payload)
            case None => true
            case Some(a) => a.IsValid() && a.nodeId != env.config.nodeId && Announcements.Parse(payload) == Some(a)
  {
    if Admitted(env, payload).Some? {
      Announcements.ParseInvertsEncode(payload, Admitted(env, payload).value);
    }
  }

  lemma HeardIsValid(env: Env, d: Datagram)
    ensures match Heard(env, d)
            case None => true
            case Some(a) => a.IsValid() && a.nodeId != env.config.nodeId
  {
    if Heard(env, d).Some? {
      AdmittedIsValid(env, Decoded(env, d).value.payload);
    }
  }

  /** Announcing touches nothing but the clock, the backend's sending side and the announcement time. */
  lemma BeforeReceiveFrame(env: Env, s: Engine)
    ensures var r := BeforeReceive(env, s);
            && r.status == s.status && r.transport == s.transport
            && r.backend.running == s.backend.running && r.backend.inbox == s.backend.inbox
            && r.backend.opens == s.backend.opens
            && r.tick >= s.tick + 2
            && r.peers == Refresh(s.peers, env.at(r.tick - 1), env.config.peerTtl / 2, env.config.peerTtl)
  {
  }

  /** Sending touches nothing but the clock and the backend's sending side. */
  lemma SendFrame(env: Env, s: Engine, e: DiscoveryEnvelope)
    ensures var r := Send(env, s, e).0;
            && r.tick >= s.tick
            && r == s.(tick := r.tick, backend := r.backend)
            && r.backend == s.backend.(sends := r.backend.sends, outbox := r.backend.outbox)
  {
  }

  /** What handling a decoded message does, given the announcement it carries, if any is accepted from it. */
  lemma DispatchEffect(env: Env, s: Engine, e: DiscoveryEnvelope, a: Option<DiscoveryAnnouncement>)
    requires e.message.IsValid()
    requires a == if e.message.fromNodeId == env.config.nodeId || e.message.kind == Probe then None
                  else Admitted(env, e.message.payload)
    ensures var r := Dispatch(env, s, e);
            && r.0.status == s.status && r.0.lastAnnounceAt == s.lastAnnounceAt
            && r.0.backend.running == s.backend.running && r.0.backend.opens == s.backend.opens
            && r.0.backend.inbox == s.backend.inbox
            && r.0.tick >= s.tick
            && (a.Some? ==> r.1 && r.0.tick > s.tick)
            && r.0.peers == (if a.Some? then Upsert(s.peers, a.value, env.at(r.0.tick - 1)) else s.peers)
            && r.0.transport == (if a.Some? then Integrate(env, s.transport, a.value) else s.transport)
  {
    hide Admitted, ReplyMessage, Upsert, UpsertReadings, Integrate, Send;
    AdmittedIsValid(env, e.message.payload);
    if e.message.kind == Probe && e.HasSource() {
      var m := ReplyMessage(env, env.at(s.tick), e.message.fromNodeId, e.message.correlationId);
      SendFrame(env, s.(tick := s.tick + 2), Outbound(m, e.fromHost, e.fromPort, env.at(s.tick + 1)));
    }
  }

  /** The effect of the receiving half of a poll on everything but the sending side. */
  lemma AfterWaitEffect(env: Env, s: Engine)
    requires IsRunning(s)
    ensures var r, a := AfterWait(env, s), Accepted(env, s);
            && r.0.status == s.status && r.0.lastAnnounceAt == s.lastAnnounceAt
            && r.0.backend.running && r.0.backend.opens == s.backend.opens
            && r.0.backend.inbox == (if s.backend.inbox == [] then [] else s.backend.inbox[1..])
            && r.0.tick >= s.tick
            && (a.Some? ==> r.1 && r.0.tick > s.tick && a.value.IsValid() && a.value.nodeId != env.config.nodeId)
            && r.0.peers == (if a.Some? then Upsert(s.peers, a.value, env.at(r.0.tick - 1)) else s.peers)
            && r.0.transport == (if a.Some? then Integrate(env, s.transport, a.value) else s.transport)
            && (r.1 ==> s.backend.inbox != [])
  {
    hide Dispatch, Decoded, Admitted, Upsert, Integrate;
    var (received, inbound) := Receive(env, s);
    if s.backend.inbox != [] {
      DecodedIsValid(env, s.backend.inbox[0]);
      HeardIsValid(env, s.backend.inbox[0]);
      if inbound.Some? {
        DispatchEffect(env, received, inbound.value, Accepted(env, s));
      }
    }
  }

  /** The effect of a poll on everything but the sending side: at most one datagram leaves the inbox, the
      registry is refreshed, and then changed only by an accepted announcement, seen at the last clock reading. */
  lemma PollEffect(env: Env, s: Engine)
    ensures Step(env, s, CallPoll) == PollOnce(env, s).0
    ensures !IsRunning(s) ==> PollOnce(env, s) == (s, false)
    ensures IsRunning(s) ==>
              var r, b, a := PollOnce(env, s), BeforeReceive(env, s), Accepted(env, s);
              && r.0.status == s.status && r.0.lastAnnounceAt == b.lastAnnounceAt
              && r.0.backend.running && r.0.backend.opens == s.backend.opens
              && r.0.backend.inbox == (if s.backend.inbox == [] then [] else s.backend.inbox[1..])
              && r.0.tick >= b.tick
              && (a.Some? ==> r.1 && r.0.tick > b.tick)
              && r.0.peers == (if a.Some? then Upsert(b.peers, a.value, env.at(r.0.tick - 1)) else b.peers)
              && r.0.transport == (if a.Some? then Integrate(env, s.transport, a.value) else s.transport)
              && (r.1 ==> s.backend.inbox != [])
    ensures match Accepted(env, s)
            case None => true
            case Some(a) => IsRunning(s) && a.IsValid() && a.nodeId != env.config.nodeId
  {
    hide BeforeReceive, AfterWait, Heard, Upsert, Integrate;
    BeforeReceiveFrame(env, s);
    if IsRunning(s) {
      AfterWaitEffect(env, BeforeReceive(env, s));
    }
  }

  /** The effect of every other event on the registry, the transport and the clock. */
  lemma OtherEffect(env: Env, s: Engine, e: Event)
    requires !e.CallPoll?
    ensures var r := Step(env, s, e);
            && r.peers == (if e.CallStop? && s.status != Stopped then map[] else s.peers)
            && r.tick >= s.tick
            && (!e.TransportBecomes? ==> r.transport == s.transport)
            && (e.TransportBecomes? ==>
                  r.transport == s.transport.(running := e.running, peers := e.peers))
  {
  }

  /** The effect of every other event on the lifecycle. */
  lemma OtherLifecycle(env: Env, s: Engine, e: Event)
    requires !e.CallPoll?
    ensures var r := Step(env, s, e);
            match e
            case CallStart => true
            case CallStop => true
            case _ => r.status == s.status && r.backend.running == s.backend.running
                      && (r.lastAnnounceAt == s.lastAnnounceAt || (e.CallAnnounce? && IsRunning(s)))
  {
  }
}
