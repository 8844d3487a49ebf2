/** When an engine's calls succeed, and exactly what they send: said of the bytes, the configuration, and the
    operating system's answers alone. */
module EngineAnswers {
  import opened Serializer
  import opened Types
  import opened Registry
  import opened EngineModel
  import EngineLaws
  import Batch
  import Messages = MessageCodec
  import Announcements = AnnouncementCodec

  // ---- Correlation labels ----

  /** The number a decimal numeral denotes. */
  function Number(numeral: bytes): int {
    if numeral == [] then 0 else
    10 * Number(numeral[..|numeral| - 1]) + numeral[|numeral| - 1] - '0' as int
  }

  function DigitCount(n: nat): nat {
    if n < 10 then 1 else 1 + DigitCount(n / 10)
  }

  ghost predicate IsNumeral(numeral: bytes) {
    && numeral != []
    && (forall i :: 0 <= i < |numeral| ==> '0' as int <= numeral[i] <= '9' as int)
    && (|numeral| > 1 ==> numeral[0] != '0' as int)
  }

  lemma {:induction false} DecimalMeaning(n: nat)
    ensures IsNumeral(Decimal(n)) && Number(Decimal(n)) == n && |Decimal(n)| == DigitCount(n)
    ensures n > 0 ==> Decimal(n)[0] != '0' as int
  {
    if n < 10 {
      assert Decimal(n) == [48 + n];
      assert Number([48 + n][..0]) == 0;
    } else {
      DecimalMeaning(n / 10);
      var front := Decimal(n / 10);
      assert Decimal(n) == front + [48 + n % 10];
      assert Decimal(n)[..|front|] == front;
    }
  }

  /** The word, a hyphen, and the milliseconds in decimal. */
  ghost predicate Labels(id: bytes, word: string, t: Millis) {
    && |id| > |word|
    && (forall i :: 0 <= i < |word| ==> id[i] == word[i] as int)
    && id[|word|] == '-' as int
    && IsNumeral(id[|word| + 1..]) && Number(id[|word| + 1..]) == t
  }

  lemma CorrelationIdMeaning(prefix: bytes, word: string, now: Instant)
    requires |prefix| == |word| && forall i :: 0 <= i < |word| ==> prefix[i] == word[i] as int
    ensures Labels(CorrelationId(prefix, now), word, now)
    ensures IsSet(now) && |CorrelationId(prefix, now)| == |word| + 1 + DigitCount(now)
  {
    assert IsSet(now);
    DecimalMeaning(now);
    assert CorrelationId(prefix, now)[|word| + 1..] == Decimal(now);
  }

  // ---- What the three messages of an engine are on the wire ----

  /** The bytes of the payload that announces this node's configured endpoint. */
  ghost predicate OwnPayload(env: Env, madeAt: Millis, payload: bytes) {
    var c := env.config;
    Announcements.LaidOut(payload, DiscoveryAnnouncement(c.nodeId, c.announceHost, c.announcePort, madeAt))
  }

  ghost predicate AnnounceBytes(env: Env, madeAt: Millis, labelledAt: Millis, data: bytes) {
    exists id, payload ::
      && Labels(id, "announce", labelledAt) && OwnPayload(env, madeAt, payload)
      && Messages.LaidOut(data, DiscoveryMessage(Announce, env.config.nodeId, [], id, payload))
  }

  ghost predicate ProbeBytes(env: Env, labelledAt: Millis, data: bytes) {
    exists id ::
      && Labels(id, "probe", labelledAt)
      && Messages.LaidOut(data, DiscoveryMessage(Probe, env.config.nodeId, [], id, []))
  }

  ghost predicate ReplyBytes(env: Env, madeAt: Millis, to: bytes, correlation: bytes, data: bytes) {
    exists payload ::
      && OwnPayload(env, madeAt, payload)
      && Messages.LaidOut(data, DiscoveryMessage(Reply, env.config.nodeId, to, correlation, payload))
  }

  function AnnounceSize(env: Env, labelledAt: Instant): nat {
    assert IsSet(labelledAt);
    44 + 2 * |env.config.nodeId| + |env.config.announceHost| + DigitCount(labelledAt)
  }

  function ProbeSize(env: Env, labelledAt: Instant): nat {
    assert IsSet(labelledAt);
    23 + |env.config.nodeId| + DigitCount(labelledAt)
  }

  function ReplySize(env: Env, to: bytes, correlation: bytes): nat {
    35 + 2 * |env.config.nodeId| + |env.config.announceHost| + |to| + |correlation|
  }

  lemma OwnPayloadMeaning(env: Env, madeAt: Instant)
    requires env.config.IsValid()
    ensures var payload := Announcements.Encode(LocalAnnouncement(env, madeAt));
            OwnPayload(env, madeAt, payload) && |payload| == 18 + |env.config.nodeId| + |env.config.announceHost|
  {
    hide Announcements.Encode, Announcements.LaidOut, Announcements.Parse;
    assert IsSet(madeAt);
    var a := LocalAnnouncement(env, madeAt);
    Announcements.EncodingIsLaidOut(Announcements.Encode(a), a);
    Announcements.RoundTrip(a);
  }

  lemma AnnounceMeaning(env: Env, madeAt: Instant, labelledAt: Instant)
    requires env.config.IsValid()
    ensures var m := AnnounceMessage(env, madeAt, labelledAt);
            && m.IsValid() && AnnounceBytes(env, madeAt, labelledAt, Messages.Encode(m))
            && |Messages.Encode(m)| == AnnounceSize(env, labelledAt)
  {
    hide Announcements.Encode, Messages.Encode, Messages.LaidOut, Messages.Parse, Labels, OwnPayload, CorrelationId;
    var m := AnnounceMessage(env, madeAt, labelledAt);
    OwnPayloadMeaning(env, madeAt);
    CorrelationIdMeaning(ANNOUNCE_PREFIX, "announce", labelledAt);
    Messages.EncodingIsLaidOut(Messages.Encode(m), m);
    Messages.RoundTrip(m);
  }

  lemma ProbeMeaning(env: Env, labelledAt: Instant)
    requires env.config.IsValid()
    ensures var m := ProbeMessage(env, labelledAt);
            && m.IsValid() && ProbeBytes(env, labelledAt, Messages.Encode(m))
            && |Messages.Encode(m)| == ProbeSize(env, labelledAt)
  {
    hide Messages.Encode, Messages.LaidOut, Messages.Parse, Labels, CorrelationId;
    var m := ProbeMessage(env, labelledAt);
    CorrelationIdMeaning(PROBE_PREFIX, "probe", labelledAt);
    Messages.EncodingIsLaidOut(Messages.Encode(m), m);
    Messages.RoundTrip(m);
  }

  lemma ReplyMeaning(env: Env, madeAt: Instant, to: bytes, correlation: bytes)
    requires env.config.IsValid()
    ensures var m := ReplyMessage(env, madeAt, to, correlation);
            && m.IsValid() && ReplyBytes(env, madeAt, to, correlation, Messages.Encode(m))
            && |Messages.Encode(m)| == ReplySize(env, to, correlation)
  {
    hide Announcements.Encode, Messages.Encode, Messages.LaidOut, Messages.Parse, OwnPayload;
    var m := ReplyMessage(env, madeAt, to, correlation);
    OwnPayloadMeaning(env, madeAt);
    Messages.EncodingIsLaidOut(Messages.Encode(m), m);
    Messages.RoundTrip(m);
  }

  // ---- Announcing and probing ----

  /** r is s after trying to send one datagram to an endpoint: it went out or it did not, and nothing else of the
      backend changed. */
  ghost predicate Tried(s: Engine, r: Engine, sent: bool, host: bytes, port: u16, data: bytes) {
    r.backend == s.backend.(sends := s.backend.sends + 1,
                            outbox := s.backend.outbox + if sent then [Datagram(host, port, data)] else [])
  }

  ghost predicate SentIf(sent: bool, s: Engine, r: Engine, host: bytes, port: u16, data: bytes) {
    r.backend.outbox == if sent then s.backend.outbox + [Datagram(host, port, data)] else s.backend.outbox
  }

  lemma SendMeaning(env: Env, s: Engine, m: DiscoveryMessage, host: bytes, port: u16, now: Instant)
    requires s.backend.running && m.IsValid() && host != [] && port != 0
    ensures var (r, sent) := Send(env, s, Outbound(m, host, port, now));
            && sent == (env.accepts(s.backend.sends) && |Messages.Encode(m)| < 0x1_0000)
            && r == s.(tick := s.tick + 1, backend := r.backend)
            && Tried(s, r, sent, host, port, Messages.Encode(m))
  {
    hide Messages.Encode;
    assert IsSet(now);
  }

  /** Announcing succeeds exactly when the engine runs, the socket takes the datagram, and it fits: whenever it
      last announced. It sends the announcement of the configured endpoint to the broadcast endpoint, and records
      the next clock reading; failing, it sends and records nothing. */
  lemma AnnounceSucceedsIff(env: Env, s: Engine)
    requires EngineLaws.Consistent(env, s)
    ensures var (r, sent) := AnnounceNow(env, s);
            && (sent <==> && s.status == Running
                          && env.accepts(s.backend.sends) && AnnounceSize(env, env.at(s.tick + 1)) < 0x1_0000)
            && (s.status != Running ==> r == s)
            && (s.status == Running ==>
                  exists data ::
                    && AnnounceBytes(env, env.at(s.tick), env.at(s.tick + 1), data)
                    && Tried(s, r, sent, env.config.broadcastHost, env.config.broadcastPort, data)
                    && r == s.(backend := r.backend,
                               lastAnnounceAt := if sent then env.at(s.tick + 4) else s.lastAnnounceAt,
                               tick := if sent then s.tick + 5 else s.tick + 4))
  {
    hide Send, Outbound, AnnounceMessage, AnnounceBytes, AnnounceSize, Messages.Encode;
    if s.status == Running {
      var m := AnnounceMessage(env, env.at(s.tick), env.at(s.tick + 1));
      AnnounceMeaning(env, env.at(s.tick), env.at(s.tick + 1));
      SendMeaning(env, s.(tick := s.tick + 3), m, env.config.broadcastHost, env.config.broadcastPort,
                  env.at(s.tick + 2));
      assert Tried(s, AnnounceNow(env, s).0, AnnounceNow(env, s).1, env.config.broadcastHost,
                   env.config.broadcastPort, Messages.Encode(m));
    }
  }

  /** Probing succeeds exactly when the engine runs, the socket takes the datagram, and it fits. */
  lemma ProbeSucceedsIff(env: Env, s: Engine)
    requires EngineLaws.Consistent(env, s)
    ensures var (r, sent) := ProbeNow(env, s);
            && (sent <==> && s.status == Running
                          && env.accepts(s.backend.sends) && ProbeSize(env, env.at(s.tick)) < 0x1_0000)
            && (s.status != Running ==> r == s)
            && (s.status == Running ==>
                  exists data ::
                    && ProbeBytes(env, env.at(s.tick), data)
                    && Tried(s, r, sent, env.config.broadcastHost, env.config.broadcastPort, data)
                    && r == s.(backend := r.backend, tick := s.tick + 3))
  {
    hide Send, Outbound, ProbeMessage, ProbeBytes, ProbeSize, Messages.Encode;
    if s.status == Running {
      var m := ProbeMessage(env, env.at(s.tick));
      ProbeMeaning(env, env.at(s.tick));
      SendMeaning(env, s.(tick := s.tick + 2), m, env.config.broadcastHost, env.config.broadcastPort,
                  env.at(s.tick + 1));
      assert Tried(s, ProbeNow(env, s).0, ProbeNow(env, s).1, env.config.broadcastHost,
                   env.config.broadcastPort, Messages.Encode(m));
    }
  }

  // ---- What a poll makes of the datagram at the head of the inbox ----

  /** What is left of a datagram in a receive buffer of size bytes. */
  function Kept(payload: bytes, size: nat): bytes {
    payload[..if |payload| < size then |payload| else size]
  }

  /** The datagram has a source, and what the receive buffer keeps of it is laid out as this message of another
      node. */
  ghost predicate Brings(env: Env, d: Datagram, m: DiscoveryMessage) {
    && d.host != [] && d.port != 0
    && (m.kind.Announce? || m.kind.Probe? || m.kind.Reply?)
    && m.fromNodeId != [] && m.fromNodeId != env.config.nodeId
    && |m.fromNodeId| < U32_LIMIT && |m.toNodeId| < U32_LIMIT
    && |m.correlationId| < U32_LIMIT && |m.payload| < U32_LIMIT
    && Messages.LaidOut(Kept(d.payload, env.config.maxDatagramSize), m)
  }

  /** The message, an announcement or a reply, carries this announcement of another node: not necessarily of the
      message's sender. */
  ghost predicate Carries(env: Env, m: DiscoveryMessage, a: DiscoveryAnnouncement) {
    && (m.kind.Announce? || m.kind.Reply?)
    && a.nodeId != [] && a.nodeId != env.config.nodeId && a.host != [] && a.port > 0 && a.timestamp > 0
    && |a.nodeId| < U32_LIMIT && |a.host| < U32_LIMIT
    && Announcements.LaidOut(m.payload, a)
  }

  lemma LaidOutIsNotEmpty(data: bytes, m: DiscoveryMessage)
    requires Messages.LaidOut(data, m)
    ensures data != []
  {
    hide FieldAt;
  }

  /** What the backend decodes, but for messages of the node itself. */
  lemma DecodedIff(env: Env, d: Datagram, m: DiscoveryMessage)
    ensures Decoded(env, d) == Some(m) && m.fromNodeId != env.config.nodeId <==> Brings(env, d, m)
  {
    hide Messages.Parse, Messages.LaidOut;
    var kept := Kept(d.payload, env.config.maxDatagramSize);
    assert kept == Messages.Truncate(d.payload, env.config.maxDatagramSize);
    Messages.ParsesIffLaidOut(kept, m);
    if Messages.LaidOut(kept, m) {
      LaidOutIsNotEmpty(kept, m);
    }
  }

  /** A datagram longer than the receive buffer is lost if it was a message as a whole... */
  lemma CutMessagesAreLost(env: Env, d: Datagram)
    requires |d.payload| > env.config.maxDatagramSize && Messages.Parse(d.payload).Some?
    ensures Decoded(env, d) == None
  {
    hide Messages.Parse;
    Messages.TruncationNeverAlters(d.payload, env.config.maxDatagramSize);
  }

  /** ...but it is accepted if a message fills the buffer and more bytes follow, which are dropped. */
  lemma ExcessIsDropped(env: Env, d: Datagram, m: DiscoveryMessage, more: bytes)
    requires d.host != [] && d.port != 0 && Messages.Parse(d.payload) == Some(m)
    requires |d.payload| == env.config.maxDatagramSize
    ensures Decoded(env, d.(payload := d.payload + more)) == Some(m)
  {
    assert Messages.Truncate(d.payload + more, |d.payload|) == d.payload;
  }

  /** An announcement is heard from a datagram exactly when the datagram brings a message that carries it. */
  lemma HeardIff(env: Env, d: Datagram, a: DiscoveryAnnouncement)
    ensures Heard(env, d) == Some(a) <==> exists m :: Brings(env, d, m) && Carries(env, m, a)
  {
    hide Decoded, Brings, Announcements.Parse, Announcements.LaidOut;
    forall m ensures Decoded(env, d) == Some(m) && m.fromNodeId != env.config.nodeId <==> Brings(env, d, m) {
      DecodedIff(env, d, m);
    }
    DecodedIsValid(env, d);
    if Decoded(env, d).Some? {
      Announcements.ParsesIffLaidOut(Decoded(env, d).value.payload, a);
    }
  }

  // ---- Polling ----

  /** The automatic announcement is due: none is recorded, or the interval has passed since. */
  predicate Due(env: Env, s: Engine) {
    s.lastAnnounceAt <= 0 || env.at(s.tick) as int - s.lastAnnounceAt as int >= env.config.announceInterval
  }

  /** The next poll's automatic announcement goes out. */
  predicate Announces(env: Env, s: Engine) {
    Due(env, s) && env.accepts(s.backend.sends) && AnnounceSize(env, env.at(s.tick + 2)) < 0x1_0000
  }

  /** The number of datagrams handed to the socket by the time a poll waits. */
  function SendsBeforeWait(env: Env, s: Engine): nat {
    s.backend.sends + if Due(env, s) then 1 else 0
  }

  /** The clock readings made by then: for the decision, for the announcement if due, and for the refresh. */
  function TickOfWait(env: Env, s: Engine): nat {
    s.tick + if Announces(env, s) then 7 else if Due(env, s) then 6 else 2
  }

  /** A poll waits with its announcement sent exactly when one is due and the socket takes it and it fits; then
      its time is recorded. Otherwise nothing is sent, and it stays due. */
  lemma BeforeWaitMeaning(env: Env, s: Engine)
    requires EngineLaws.Consistent(env, s) && s.status == Running
    ensures var b := BeforeReceive(env, s);
            && b.backend.sends == SendsBeforeWait(env, s) && b.tick == TickOfWait(env, s)
            && (!Announces(env, s) ==> b.backend.outbox == s.backend.outbox && b.lastAnnounceAt == s.lastAnnounceAt)
            && (Announces(env, s) ==>
                  && b.lastAnnounceAt == env.at(s.tick + 5)
                  && exists data ::
                       && AnnounceBytes(env, env.at(s.tick + 1), env.at(s.tick + 2), data)
                       && b.backend.outbox
                          == s.backend.outbox + [Datagram(env.config.broadcastHost, env.config.broadcastPort, data)])
  {
    hide AnnounceNow, AnnounceBytes, AnnounceSize, Refresh, EngineLaws.Consistent;
    var read := s.(tick := s.tick + 1);
    ClockReadingKeepsConsistent(env, s);
    AnnounceSucceedsIff(env, read);
  }

  lemma ClockReadingKeepsConsistent(env: Env, s: Engine)
    requires EngineLaws.Consistent(env, s)
    ensures EngineLaws.Consistent(env, s.(tick := s.tick + 1))
  {
  }

  /** The reply to this probe goes out. */
  predicate Replies(env: Env, sends: nat, m: DiscoveryMessage) {
    env.accepts(sends) && ReplySize(env, m.fromNodeId, m.correlationId) < 0x1_0000
  }

  /** A probe whose reply goes out, or a message that carries an announcement. */
  ghost predicate IsOfUse(env: Env, sends: nat, m: DiscoveryMessage) {
    if m.kind.Probe? then Replies(env, sends, m) else exists a :: Carries(env, m, a)
  }

  lemma AnsweringMeaning(env: Env, s: Engine, e: DiscoveryEnvelope)
    requires EngineLaws.Consistent(env, s) && s.status == Running && e.HasSource()
    ensures var (r, ok) := HandleProbe(env, s, e);
            && ok == Replies(env, s.backend.sends, e.message)
            && exists data ::
                 && ReplyBytes(env, env.at(s.tick), e.message.fromNodeId, e.message.correlationId, data)
                 && Tried(s, r, ok, e.fromHost, e.fromPort, data)
  {
    hide Send, Outbound, ReplyMessage, ReplyBytes, ReplySize, Messages.Encode;
    var m := ReplyMessage(env, env.at(s.tick), e.message.fromNodeId, e.message.correlationId);
    ReplyMeaning(env, env.at(s.tick), e.message.fromNodeId, e.message.correlationId);
    SendMeaning(env, s.(tick := s.tick + 2), m, e.fromHost, e.fromPort, env.at(s.tick + 1));
    assert Tried(s, HandleProbe(env, s, e).0, HandleProbe(env, s, e).1, e.fromHost, e.fromPort, Messages.Encode(m));
  }

  /** A probe of another node at the head of the inbox is answered, to where it came from, exactly when the socket
      takes the reply and it fits. */
  lemma ProbesAreAnswered(env: Env, s: Engine, m: DiscoveryMessage)
    requires EngineLaws.Consistent(env, s) && s.status == Running && s.backend.inbox != []
    requires Brings(env, s.backend.inbox[0], m) && m.kind.Probe?
    ensures var (r, ok) := AfterWait(env, s);
            var d := s.backend.inbox[0];
            && ok == Replies(env, s.backend.sends, m)
            && exists data ::
                 && ReplyBytes(env, env.at(s.tick + 2), m.fromNodeId, m.correlationId, data)
                 && SentIf(ok, s, r, d.host, d.port, data)
  {
    hide HandleProbe, HandleAnnouncement, Decoded, ReplyBytes, Replies, Messages.LaidOut;
    var d := s.backend.inbox[0];
    DecodedIff(env, d, m);
    DecodedIsValid(env, d);
    var (received, inbound) := Receive(env, s);
    assert AfterWait(env, s) == HandleProbe(env, received, inbound.value);
    ReceivingKeepsConsistent(env, s);
    AnsweringMeaning(env, received, inbound.value);
    var data :| && ReplyBytes(env, env.at(received.tick), m.fromNodeId, m.correlationId, data)
                && Tried(received, AfterWait(env, s).0, AfterWait(env, s).1, d.host, d.port, data);
    assert ReplyBytes(env, env.at(s.tick + 2), m.fromNodeId, m.correlationId, data);
    assert SentIf(AfterWait(env, s).1, s, AfterWait(env, s).0, d.host, d.port, data);
  }

  lemma ReceivingKeepsConsistent(env: Env, s: Engine)
    requires EngineLaws.Consistent(env, s)
    ensures EngineLaws.Consistent(env, Receive(env, s).0)
  {
    hide Decoded;
  }

  /** Anything else succeeds exactly when an announcement is heard from it, and sends nothing. */
  lemma OthersAreHeardOrDropped(env: Env, s: Engine)
    requires s.status == Running && s.backend.running && s.backend.inbox != []
    requires forall m :: Brings(env, s.backend.inbox[0], m) ==> !m.kind.Probe?
    ensures var (r, ok) := AfterWait(env, s);
            && (ok <==> Heard(env, s.backend.inbox[0]).Some?)
            && r.backend.outbox == s.backend.outbox
  {
    hide HandleProbe, Decoded, Admitted, Brings, Upsert, UpsertReadings, Integrate;
    var d := s.backend.inbox[0];
    DecodedIsValid(env, d);
    if Decoded(env, d).Some? {
      var m := Decoded(env, d).value;
      DecodedIff(env, d, m);
      AdmittedIsValid(env, m.payload);
    }
  }

  lemma NothingWaits(env: Env, s: Engine)
    requires s.backend.inbox == []
    ensures AfterWait(env, s) == (s, false)
  {
  }

  /** A poll succeeds exactly when the engine runs and the datagram at the head of its inbox brings another node's
      probe whose reply goes out, or another node's message that carries an announcement of another node. In
      particular it fails on the node's own messages, and on anything malformed. */
  lemma PollSucceedsIff(env: Env, s: Engine)
    requires EngineLaws.Consistent(env, s)
    ensures PollOnce(env, s).1
       <==> && s.status == Running && s.backend.inbox != []
            && exists m :: Brings(env, s.backend.inbox[0], m) && IsOfUse(env, SendsBeforeWait(env, s), m)
  {
    hide BeforeReceive, AfterWait, Brings, IsOfUse, SendsBeforeWait, Heard;
    if s.status == Running {
      var b := BeforeReceive(env, s);
      BeforeReceiveFrame(env, s);
      BeforeWaitMeaning(env, s);
      EngineLaws.PollHalvesKeepConsistent(env, s);
      if s.backend.inbox == [] {
        NothingWaits(env, b);
      } else {
        AfterWaitSucceedsIff(env, b);
      }
    }
  }

  lemma AfterWaitSucceedsIff(env: Env, s: Engine)
    requires EngineLaws.Consistent(env, s) && s.status == Running && s.backend.inbox != []
    ensures AfterWait(env, s).1
       <==> exists m :: Brings(env, s.backend.inbox[0], m) && IsOfUse(env, s.backend.sends, m)
  {
    hide AfterWait, Brings, Carries, Replies, Heard;
    var d := s.backend.inbox[0];
    forall m, m' | Brings(env, d, m) && Brings(env, d, m') ensures m == m' {
      DecodedIff(env, d, m);
      DecodedIff(env, d, m');
    }
    if m :| Brings(env, d, m) && m.kind.Probe? {
      ProbesAreAnswered(env, s, m);
    } else {
      assert forall m :: Brings(env, d, m) ==> !m.kind.Probe?;
      OthersAreHeardOrDropped(env, s);
      if Heard(env, d).Some? {
        HeardIff(env, d, Heard(env, d).value);
        var m :| Brings(env, d, m) && Carries(env, m, Heard(env, d).value);
        assert IsOfUse(env, s.backend.sends, m);
      } else if m :| Brings(env, d, m) && IsOfUse(env, s.backend.sends, m) {
        var a :| Carries(env, m, a);
        HeardIff(env, d, a);
        assert false;
      }
    }
  }

  /** Every datagram a poll sends: its due announcement to the broadcast endpoint, if it goes out, and then the reply
      to the probe it received, if any and if it goes out, to where the probe came from. */
  lemma PollSends(env: Env, s: Engine) returns (announcement: seq<Datagram>, reply: seq<Datagram>)
    requires EngineLaws.Consistent(env, s) && s.status == Running
    ensures PollOnce(env, s).0.backend.outbox == s.backend.outbox + announcement + reply
    ensures PollOnce(env, s).0.lastAnnounceAt == if Announces(env, s) then env.at(s.tick + 5) else s.lastAnnounceAt
    ensures if Announces(env, s) then
              exists data ::
                && announcement == [Datagram(env.config.broadcastHost, env.config.broadcastPort, data)]
                && AnnounceBytes(env, env.at(s.tick + 1), env.at(s.tick + 2), data)
            else announcement == []
    ensures reply != [] <==> && s.backend.inbox != []
                             && exists m :: && Brings(env, s.backend.inbox[0], m) && m.kind.Probe?
                                            && Replies(env, SendsBeforeWait(env, s), m)
    ensures reply != [] ==>
              exists m, data ::
                && Brings(env, s.backend.inbox[0], m) && m.kind.Probe?
                && reply == [Datagram(s.backend.inbox[0].host, s.backend.inbox[0].port, data)]
                && ReplyBytes(env, env.at(TickOfWait(env, s) + 2), m.fromNodeId, m.correlationId, data)
  {
    hide BeforeReceive, TickOfWait, AfterWait, Brings, Replies, SendsBeforeWait, Heard;
    hide Announces, AnnounceBytes, ReplyBytes, Accepted, Upsert, Integrate;
    var b := BeforeReceive(env, s);
    BeforeReceiveFrame(env, s);
    BeforeWaitMeaning(env, s);
    PollEffect(env, s);
    EngineLaws.PollHalvesKeepConsistent(env, s);
    announcement := b.backend.outbox[|s.backend.outbox|..];
    if s.backend.inbox == [] {
      NothingWaits(env, b);
      reply := [];
    } else {
      reply := RepliesAfterWait(env, b);
    }
  }

  lemma RepliesAfterWait(env: Env, s: Engine) returns (reply: seq<Datagram>)
    requires EngineLaws.Consistent(env, s) && s.status == Running && s.backend.inbox != []
    ensures AfterWait(env, s).0.backend.outbox == s.backend.outbox + reply
    ensures reply != [] <==> exists m :: && Brings(env, s.backend.inbox[0], m) && m.kind.Probe?
                                         && Replies(env, s.backend.sends, m)
    ensures reply != [] ==>
              exists m, data ::
                && Brings(env, s.backend.inbox[0], m) && m.kind.Probe?
                && reply == [Datagram(s.backend.inbox[0].host, s.backend.inbox[0].port, data)]
                && ReplyBytes(env, env.at(s.tick + 2), m.fromNodeId, m.correlationId, data)
  {
    hide AfterWait, Brings, Replies, Heard, ReplyBytes;
    var d := s.backend.inbox[0];
    forall m, m' | Brings(env, d, m) && Brings(env, d, m') ensures m == m' {
      DecodedIff(env, d, m);
      DecodedIff(env, d, m');
    }
    reply := [];
    if m :| Brings(env, d, m) && m.kind.Probe? {
      ProbesAreAnswered(env, s, m);
      var data :| && ReplyBytes(env, env.at(s.tick + 2), m.fromNodeId, m.correlationId, data)
                  && SentIf(AfterWait(env, s).1, s, AfterWait(env, s).0, d.host, d.port, data);
      if AfterWait(env, s).1 {
        reply := [Datagram(d.host, d.port, data)];
      }
    } else {
      OthersAreHeardOrDropped(env, s);
    }
  }

  /** A batch takes datagrams off the front of the inbox as long as they are of use, and ends with the first that is
      not: the node's own broadcast, say. */
  lemma BatchEndsAtTheFirstUseless(env: Env, s: Engine, max: nat, n: nat, r: Engine)
    requires EngineLaws.Consistent(env, s) && s.status == Running && Batch.Outcome(env, s, max, n, r)
    ensures n <= |s.backend.inbox|
    ensures forall i :: 0 <= i < n ==> TakenByPoll(env, Batch.Polls(env, s, i), s.backend.inbox[i])
    ensures n < max && n < |s.backend.inbox| ==> !TakenByPoll(env, Batch.Polls(env, s, n), s.backend.inbox[n])
  {
    hide PollOnce, TakenByPoll, Batch.Polls, EngineLaws.Consistent;
    forall i | 0 <= i <= n
      ensures && i <= |s.backend.inbox|
              && (i < |s.backend.inbox| ==>
                    PollOnce(env, Batch.Polls(env, s, i)).1
                    == TakenByPoll(env, Batch.Polls(env, s, i), s.backend.inbox[i]))
    {
      Batch.SuccessfulPollsTakeOneEach(env, s, i);
      Batch.BatchKeepsConsistent(env, s, i);
      PollsKeepRunning(env, s, i);
      if i < |s.backend.inbox| {
        TakenIffSucceeds(env, Batch.Polls(env, s, i), s.backend.inbox[i]);
      }
    }
    Batch.SuccessfulPollsTakeOneEach(env, s, n);
  }

  /** The datagram brings a poll in state s something of use. */
  ghost predicate TakenByPoll(env: Env, s: Engine, d: Datagram) {
    exists m :: Brings(env, d, m) && IsOfUse(env, SendsBeforeWait(env, s), m)
  }

  lemma TakenIffSucceeds(env: Env, s: Engine, d: Datagram)
    requires EngineLaws.Consistent(env, s) && s.status == Running && s.backend.inbox != [] && s.backend.inbox[0] == d
    ensures PollOnce(env, s).1 == TakenByPoll(env, s, d)
  {
    hide PollOnce, Brings, IsOfUse;
    PollSucceedsIff(env, s);
  }

  lemma {:induction false} PollsKeepRunning(env: Env, s: Engine, k: nat)
    requires EngineLaws.Consistent(env, s) && s.status == Running
    ensures Batch.Polls(env, s, k).status == Running
  {
    hide PollOnce, BeforeReceive, Accepted, Upsert, Integrate;
    if k > 0 {
      PollsKeepRunning(env, s, k - 1);
      PollEffect(env, Batch.Polls(env, s, k - 1));
    }
  }

  // ---- Starting and stopping ----

  /** What a configuration must have to start with. */
  predicate Complete(c: DiscoveryConfig) {
    && c.bindHost != [] && c.bindPort > 0 && c.broadcastHost != [] && c.broadcastPort > 0
    && c.nodeId != [] && c.announceHost != [] && c.announcePort > 0
    && c.announceInterval > 0 && c.peerTtl > 0 && c.maxDatagramSize > 0
  }

  /** A running engine is left alone. Otherwise an incomplete configuration is refused without touching the socket,
      and a complete one makes the socket be opened once; refusal and failure end in Failed, success in Running
      with no announcement recorded. Either way there are no peers, and nothing else changes. */
  lemma StartOutcome(env: Env, s: Engine)
    requires EngineLaws.Consistent(env, s)
    ensures var (r, ok) := Start(env, s);
            && (s.status == Running ==> ok && r == s)
            && (s.status != Running ==>
                  && ok == (Complete(env.config) && env.opens(s.backend.opens))
                  && r.status == (if ok then Running else Failed) && r.backend.running == ok
                  && r.peers == map[] && r.lastAnnounceAt == 0
                  && r.backend.opens == s.backend.opens + (if Complete(env.config) then 1 else 0)
                  && r.backend.sends == s.backend.sends
                  && r.backend.inbox == s.backend.inbox && r.backend.outbox == s.backend.outbox
                  && r.tick == s.tick && r.transport == s.transport)
  {
  }

  /** Datagrams wait only in the socket of a running engine. */
  lemma {:induction false} ClosedSocketsAreEmpty(env: Env, s: Engine, events: seq<Event>)
    requires Initial(s)
    ensures var r := Run(env, s, events);
            && EngineLaws.Consistent(env, r)
            && (r.status != Running ==> r.backend.inbox == [] && !r.backend.running)
  {
    EngineLaws.AlwaysConsistent(env, s, events);
    if events != [] {
      hide PollOnce, AnnounceNow, ProbeNow, Accepted, Upsert, Integrate, BeforeReceive;
      var n := |events| - 1;
      ClosedSocketsAreEmpty(env, s, events[..n]);
      var before := Run(env, s, events[..n]);
      if events[n].CallPoll? {
        PollEffect(env, before);
      } else {
        OtherLifecycle(env, before, events[n]);
        if !before.backend.running || !events[n].Arrives? {
          InboxOfOthers(env, before, events[n]);
        }
      }
    }
  }

  lemma InboxOfOthers(env: Env, s: Engine, e: Event)
    requires !e.CallPoll? && (e.Arrives? ==> !s.backend.running)
    ensures Step(env, s, e).backend.inbox == if e.CallStop? && s.status != Stopped then [] else s.backend.inbox
  {
  }

  /** At any point of any run, stopping leaves the engine as newly made, but for its clock, the numbers of socket
      calls, and what it has sent and connected. */
  lemma StopOutcome(env: Env, s: Engine, events: seq<Event>)
    requires Initial(s)
    ensures var before, r := Run(env, s, events), Run(env, s, events + [CallStop]);
            && Initial(r.(backend := r.backend.(outbox := []), transport := r.transport.(calls := [])))
            && r.backend.outbox == before.backend.outbox
            && r.backend.opens == before.backend.opens && r.backend.sends == before.backend.sends
            && r.transport == before.transport && r.tick == before.tick
  {
    hide Run, EngineLaws.Consistent;
    ClosedSocketsAreEmpty(env, s, events);
    RunOneMore(env, s, events, CallStop);
    StoppedHasNothing(env, Run(env, s, events));
  }

  lemma StoppedHasNothing(env: Env, s: Engine)
    requires EngineLaws.Consistent(env, s)
    ensures s.status == Stopped ==> s.peers == map[] && s.lastAnnounceAt == UNSET
  {
  }

  lemma RunOneMore(env: Env, s: Engine, events: seq<Event>, e: Event)
    ensures Run(env, s, events + [e]) == Step(env, Run(env, s, events), e)
  {
    assert (events + [e])[..|events|] == events;
  }

  /** Events between which nothing is announced or stopped. */
  ghost predicate NeitherAnnouncesNorStops(events: seq<Event>) {
    forall i :: 0 <= i < |events| ==> !events[i].CallPoll? && !events[i].CallAnnounce? && !events[i].CallStop?
  }

  lemma {:induction false} AnnouncementStaysUnset(env: Env, s: Engine, events: seq<Event>)
    requires EngineLaws.Consistent(env, s) && s.status == Running && s.lastAnnounceAt == UNSET
    requires NeitherAnnouncesNorStops(events)
    ensures var r := Run(env, s, events);
            EngineLaws.Consistent(env, r) && r.status == Running && r.lastAnnounceAt == UNSET
  {
    hide Step, EngineLaws.Consistent;
    if events != [] {
      var n := |events| - 1;
      assert forall i :: 0 <= i < n ==> events[..n][i] == events[i];
      AnnouncementStaysUnset(env, s, events[..n]);
      var before := Run(env, s, events[..n]);
      EngineLaws.StepKeepsConsistent(env, before, events[n]);
      OtherLifecycle(env, before, events[n]);
      StartKeepsRunning(env, before);
    }
  }

  lemma StartKeepsRunning(env: Env, s: Engine)
    requires s.status == Running
    ensures Step(env, s, CallStart) == s
  {
  }

  /** In every run, the first poll after a start announces at once: if the socket takes the announcement and it
      fits, it is the first thing the poll sends, and its time is recorded. */
  lemma FirstPollAnnounces(env: Env, s: Engine, first: seq<Event>, between: seq<Event>)
    returns (announcement: seq<Datagram>, reply: seq<Datagram>)
    requires Initial(s) && NeitherAnnouncesNorStops(between)
    requires Run(env, s, first).status != Running && Start(env, Run(env, s, first)).1
    ensures var before := Run(env, s, first + [CallStart] + between);
            var after := Run(env, s, first + [CallStart] + between + [CallPoll]);
            && before.status == Running && before.lastAnnounceAt == 0
            && before.backend.sends < SendsBeforeWait(env, before)
            && after.backend.outbox == before.backend.outbox + announcement + reply
            && if env.accepts(before.backend.sends) && AnnounceSize(env, env.at(before.tick + 2)) < 0x1_0000 then
                 && after.lastAnnounceAt == env.at(before.tick + 5)
                 && exists data ::
                      && announcement == [Datagram(env.config.broadcastHost, env.config.broadcastPort, data)]
                      && AnnounceBytes(env, env.at(before.tick + 1), env.at(before.tick + 2), data)
               else
                 after.lastAnnounceAt == 0 && announcement == []
  {
    hide Run, Start, Step, PollOnce, EngineLaws.Consistent, AnnounceBytes, AnnounceSize, NeitherAnnouncesNorStops;
    var stopped := Run(env, s, first);
    EngineLaws.AlwaysConsistent(env, s, first);
    RunOneMore(env, s, first, CallStart);
    StartOutcome(env, stopped);
    StartIsAStep(env, stopped);
    EngineLaws.StepKeepsConsistent(env, stopped, CallStart);
    RunConcat(env, s, first + [CallStart], between);
    AnnouncementStaysUnset(env, Run(env, s, first + [CallStart]), between);
    RunOneMore(env, s, first + [CallStart] + between, CallPoll);
    var before := Run(env, s, first + [CallStart] + between);
    PollIsAStep(env, before);
    announcement, reply := PollSends(env, before);
  }

  lemma StartIsAStep(env: Env, s: Engine)
    ensures Step(env, s, CallStart) == Start(env, s).0
  {
  }

  lemma PollIsAStep(env: Env, s: Engine)
    ensures Step(env, s, CallPoll) == PollOnce(env, s).0
  {
  }
}
