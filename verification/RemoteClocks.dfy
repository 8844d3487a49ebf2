/** The timestamps other nodes put in their announcements have no influence on peer states. */
module RemoteClocks {
  import opened Serializer
  import opened Types
  import opened Registry
  import opened EngineModel
  import Messages = MessageCodec
  import Announcements = AnnouncementCodec

  // ---- Twins: the same, but for the timestamps of announcements ----

  predicate TwinAnnouncements(a: DiscoveryAnnouncement, b: DiscoveryAnnouncement) {
    a.(timestamp := b.timestamp) == b
  }

  predicate TwinPayloads(p: bytes, q: bytes) {
    p == q
    || (Announcements.Parse(p).Some? && Announcements.Parse(q).Some?
        && TwinAnnouncements(Announcements.Parse(p).value, Announcements.Parse(q).value))
  }

  predicate TwinMessages(m: DiscoveryMessage, n: DiscoveryMessage) {
    m.(payload := n.payload) == n && TwinPayloads(m.payload, n.payload)
  }

  predicate TwinDatagrams(d: Datagram, e: Datagram) {
    d == e
    || (d.(payload := e.payload) == e && Messages.Parse(d.payload).Some? && Messages.Parse(e.payload).Some?
        && TwinMessages(Messages.Parse(d.payload).value, Messages.Parse(e.payload).value))
  }

  ghost predicate TwinPeers(p: Peers, q: Peers) {
    && p.Keys == q.Keys
    && forall id :: id in p ==>
         && p[id].(announcement := q[id].announcement) == q[id]
         && TwinAnnouncements(p[id].announcement, q[id].announcement)
  }

  ghost predicate TwinInboxes(x: seq<Datagram>, y: seq<Datagram>) {
    |x| == |y| && forall i :: 0 <= i < |x| ==> TwinDatagrams(x[i], y[i])
  }

  function With(s: Engine, peers: Peers, inbox: seq<Datagram>): Engine {
    s.(peers := peers, backend := s.backend.(inbox := inbox))
  }

  /** Equal in everything but the inbox and the stored announcements, which are twins. */
  ghost predicate TwinEngines(s: Engine, t: Engine) {
    && With(s, t.peers, t.backend.inbox) == t
    && TwinPeers(s.peers, t.peers)
    && TwinInboxes(s.backend.inbox, t.backend.inbox)
  }

  predicate TwinEvents(e: Event, f: Event) {
    if e.Arrives? && f.Arrives? then TwinDatagrams(e.datagram, f.datagram) else e == f
  }

  // ---- Twin inputs are received alike ----

  lemma TwinPayloadsHaveEqualLength(p: bytes, q: bytes)
    requires TwinPayloads(p, q)
    ensures |p| == |q|
  {
    if p != q {
      var a, b := Announcements.Parse(p).value, Announcements.Parse(q).value;
      Announcements.ParseInvertsEncode(p, a);
      Announcements.ParseInvertsEncode(q, b);
      Announcements.RoundTrip(a);
      Announcements.RoundTrip(b);
    }
  }

  lemma TwinDatagramsHaveEqualLength(d: Datagram, e: Datagram)
    requires TwinDatagrams(d, e)
    ensures |d.payload| == |e.payload|
  {
    hide Messages.Parse, Messages.Encode;
    if d != e {
      var m, n := Messages.Parse(d.payload).value, Messages.Parse(e.payload).value;
      Messages.ParseInvertsEncode(d.payload, m);
      Messages.ParseInvertsEncode(e.payload, n);
      Messages.RoundTrip(m);
      Messages.RoundTrip(n);
      TwinPayloadsHaveEqualLength(m.payload, n.payload);
    }
  }

  lemma TwinsDecodeAlike(env: Env, d: Datagram, e: Datagram)
    requires TwinDatagrams(d, e)
    ensures match (Decoded(env, d), Decoded(env, e))
            case (None, None) => true
            case (Some(m), Some(n)) => TwinMessages(m, n)
            case _ => false
  {
    hide Messages.Parse;
    if d != e {
      TwinDatagramsHaveEqualLength(d, e);
      Messages.TruncationNeverAlters(d.payload, env.config.maxDatagramSize);
      Messages.TruncationNeverAlters(e.payload, env.config.maxDatagramSize);
    }
  }

  lemma TwinsAreAdmittedAlike(env: Env, p: bytes, q: bytes)
    requires TwinPayloads(p, q)
    ensures match (Admitted(env, p), Admitted(env, q))
            case (None, None) => true
            case (Some(a), Some(b)) => TwinAnnouncements(a, b)
            case _ => false
  {
    hide Announcements.Parse;
  }

  lemma TwinsRefreshAlike(p: Peers, q: Peers, now: Millis, staleAfter: Millis, expireAfter: Millis)
    requires TwinPeers(p, q)
    ensures TwinPeers(Refresh(p, now, staleAfter, expireAfter), Refresh(q, now, staleAfter, expireAfter))
  {
  }

  /** Sending looks neither at the registry nor at the inbox. */
  lemma SendIgnores(env: Env, s: Engine, e: DiscoveryEnvelope, peers: Peers, inbox: seq<Datagram>)
    ensures var (r, sent) := Send(env, s, e);
            && Send(env, With(s, peers, inbox), e) == (With(r, peers, inbox), sent)
            && r.peers == s.peers && r.backend.inbox == s.backend.inbox && r.backend.running == s.backend.running
  {
    hide Messages.Encode;
  }

  lemma AnnounceNowIgnores(env: Env, s: Engine, peers: Peers, inbox: seq<Datagram>)
    ensures AnnounceNow(env, With(s, peers, inbox))
         == (With(AnnounceNow(env, s).0, peers, inbox), AnnounceNow(env, s).1)
    ensures AnnounceNow(env, s).0.peers == s.peers && AnnounceNow(env, s).0.backend.inbox == s.backend.inbox
  {
    hide Send, AnnounceMessage, Outbound;
    var m := AnnounceMessage(env, env.at(s.tick), env.at(s.tick + 1));
    var e := Outbound(m, env.config.broadcastHost, env.config.broadcastPort, env.at(s.tick + 2));
    SendIgnores(env, s.(tick := s.tick + 3), e, peers, inbox);
    assert With(s, peers, inbox).(tick := s.tick + 3) == With(s.(tick := s.tick + 3), peers, inbox);
  }

  lemma MaybeAnnounceIgnores(env: Env, s: Engine, peers: Peers, inbox: seq<Datagram>)
    ensures MaybeAnnounce(env, With(s, peers, inbox)) == With(MaybeAnnounce(env, s), peers, inbox)
    ensures MaybeAnnounce(env, s).peers == s.peers && MaybeAnnounce(env, s).backend.inbox == s.backend.inbox
  {
    hide AnnounceNow;
    var read := s.(tick := s.tick + 1);
    AnnounceNowIgnores(env, read, peers, inbox);
    assert With(s, peers, inbox).(tick := s.tick + 1) == With(read, peers, inbox);
  }

  lemma TwinsBeforeReceive(env: Env, s: Engine, t: Engine)
    requires TwinEngines(s, t)
    ensures TwinEngines(BeforeReceive(env, s), BeforeReceive(env, t))
  {
    hide MaybeAnnounce, Refresh, TwinPeers, TwinInboxes;
    MaybeAnnounceIgnores(env, s, t.peers, t.backend.inbox);
    var s1 := MaybeAnnounce(env, s);
    TwinsRefreshAlike(s.peers, t.peers, env.at(s1.tick), env.config.peerTtl / 2, env.config.peerTtl);
  }

  lemma TwinsHandleProbeAlike(env: Env, s: Engine, t: Engine, e: DiscoveryEnvelope, f: DiscoveryEnvelope)
    requires TwinEngines(s, t) && e.(message := f.message) == f && TwinMessages(e.message, f.message)
    ensures TwinEngines(HandleProbe(env, s, e).0, HandleProbe(env, t, f).0)
    ensures HandleProbe(env, s, e).1 == HandleProbe(env, t, f).1
  {
    hide ReplyMessage, TwinPeers, TwinInboxes;
  }

  lemma TwinsUpsertAlike(p: Peers, q: Peers, a: DiscoveryAnnouncement, b: DiscoveryAnnouncement, now: Instant)
    requires TwinPeers(p, q) && TwinAnnouncements(a, b) && a.IsValid() && b.IsValid()
    ensures TwinPeers(Upsert(p, a, now), Upsert(q, b, now))
    ensures UpsertReadings(p, a) == UpsertReadings(q, b) > 0
  {
  }

  lemma TwinsStoreAlike(env: Env, s: Engine, t: Engine, a: DiscoveryAnnouncement, b: DiscoveryAnnouncement)
    requires TwinEngines(s, t) && TwinAnnouncements(a, b) && a.IsValid() && b.IsValid()
    ensures TwinEngines(Store(env, s, a), Store(env, t, b))
  {
    hide Upsert, UpsertReadings, Integrate, TwinPeers, TwinInboxes, TwinAnnouncements;
    TwinsUpsertAlike(s.peers, t.peers, a, b, env.at(s.tick + UpsertReadings(s.peers, a) - 1));
    TwinsIntegrateAlike(env, s.transport, a, b);
  }

  lemma TwinsHandleAnnouncementAlike(env: Env, s: Engine, t: Engine, e: DiscoveryEnvelope, f: DiscoveryEnvelope)
    requires TwinEngines(s, t) && TwinMessages(e.message, f.message)
    ensures TwinEngines(HandleAnnouncement(env, s, e).0, HandleAnnouncement(env, t, f).0)
    ensures HandleAnnouncement(env, s, e).1 == HandleAnnouncement(env, t, f).1
  {
    hide Admitted, TwinEngines, TwinPayloads, TwinAnnouncements, Store;
    TwinsAreAdmittedAlike(env, e.message.payload, f.message.payload);
    AdmittedIsValid(env, e.message.payload);
    AdmittedIsValid(env, f.message.payload);
    if Admitted(env, e.message.payload).Some? {
      TwinsStoreAlike(env, s, t, Admitted(env, e.message.payload).value, Admitted(env, f.message.payload).value);
    }
  }

  lemma TwinsIntegrateAlike(env: Env, t: Transport, a: DiscoveryAnnouncement, b: DiscoveryAnnouncement)
    requires TwinAnnouncements(a, b)
    ensures Integrate(env, t, a) == Integrate(env, t, b)
  {
  }

  lemma TwinsDispatchAlike(env: Env, s: Engine, t: Engine, e: DiscoveryEnvelope, f: DiscoveryEnvelope)
    requires TwinEngines(s, t) && e.(message := f.message) == f && TwinMessages(e.message, f.message)
    ensures TwinEngines(Dispatch(env, s, e).0, Dispatch(env, t, f).0)
    ensures Dispatch(env, s, e).1 == Dispatch(env, t, f).1
  {
    hide TwinEngines, HandleProbe, HandleAnnouncement;
    TwinsHandleProbeAlike(env, s, t, e, f);
    TwinsHandleAnnouncementAlike(env, s, t, e, f);
  }

  lemma TwinsReceiveAlike(env: Env, s: Engine, t: Engine)
    requires TwinEngines(s, t)
    ensures var (s', e), (t', f) := Receive(env, s), Receive(env, t);
            && TwinEngines(s', t')
            && match (e, f)
               case (None, None) => true
               case (Some(x), Some(y)) => x.(message := y.message) == y && TwinMessages(x.message, y.message)
               case _ => false
  {
    hide Decoded, TwinMessages, TwinDatagrams, TwinPeers;
    if s.backend.inbox != [] {
      TwinsDecodeAlike(env, s.backend.inbox[0], t.backend.inbox[0]);
      TwinDatagramsHaveEqualEndpoints(s.backend.inbox[0], t.backend.inbox[0]);
    }
  }

  lemma TwinDatagramsHaveEqualEndpoints(d: Datagram, e: Datagram)
    requires TwinDatagrams(d, e)
    ensures d.host == e.host && d.port == e.port
  {
  }

  lemma TwinsRunAlike(s: Engine, t: Engine)
    requires TwinEngines(s, t)
    ensures IsRunning(s) == IsRunning(t)
  {
  }

  lemma TwinsPollAlike(env: Env, s: Engine, t: Engine)
    requires TwinEngines(s, t)
    ensures TwinEngines(PollOnce(env, s).0, PollOnce(env, t).0) && PollOnce(env, s).1 == PollOnce(env, t).1
  {
    hide BeforeReceive, Receive, Dispatch, TwinEngines, TwinMessages;
    TwinsBeforeReceive(env, s, t);
    var s1, t1 := BeforeReceive(env, s), BeforeReceive(env, t);
    TwinsReceiveAlike(env, s1, t1);
    TwinsRunAlike(s, t);
    var (s2, e) := Receive(env, s1);
    var (t2, f) := Receive(env, t1);
    if e.Some? {
      TwinsDispatchAlike(env, s2, t2, e.value, f.value);
    }
  }

  lemma ProbeNowIgnores(env: Env, s: Engine, peers: Peers, inbox: seq<Datagram>)
    ensures ProbeNow(env, With(s, peers, inbox)).0 == With(ProbeNow(env, s).0, peers, inbox)
    ensures ProbeNow(env, s).0.peers == s.peers && ProbeNow(env, s).0.backend.inbox == s.backend.inbox
  {
    hide Send, ProbeMessage, Outbound;
    var m := ProbeMessage(env, env.at(s.tick));
    var e := Outbound(m, env.config.broadcastHost, env.config.broadcastPort, env.at(s.tick + 1));
    SendIgnores(env, s.(tick := s.tick + 2), e, peers, inbox);
    assert With(s, peers, inbox).(tick := s.tick + 2) == With(s.(tick := s.tick + 2), peers, inbox);
  }

  lemma TwinsStepAlike(env: Env, s: Engine, t: Engine, e: Event, f: Event)
    requires TwinEngines(s, t) && TwinEvents(e, f)
    ensures TwinEngines(Step(env, s, e), Step(env, t, f))
  {
    hide PollOnce, AnnounceNow, ProbeNow, TwinPeers, TwinDatagrams;
    match e
    case CallPoll =>
      TwinsPollAlike(env, s, t);
    case CallAnnounce =>
      AnnounceNowIgnores(env, s, t.peers, t.backend.inbox);
    case CallProbe =>
      ProbeNowIgnores(env, s, t.peers, t.backend.inbox);
    case CallStop =>
      NoTwins();
    case _ =>
  }

  lemma NoTwins()
    ensures TwinPeers(map[], map[]) && TwinInboxes([], [])
  {
  }

  /** Two runs with the same local clock and the same inputs up to the timestamps in the announcements received
      agree at every point on everything but those timestamps: in particular every peer has the same state and
      the same last sighting, and the same datagrams have been sent. */
  lemma {:induction false} RemoteClocksDoNotMatter(env: Env, s: Engine, events: seq<Event>, events': seq<Event>)
    requires Initial(s) && |events| == |events'|
    requires forall i :: 0 <= i < |events| ==> TwinEvents(events[i], events'[i])
    ensures var r, r' := Run(env, s, events), Run(env, s, events');
            && TwinEngines(r, r')
            && r.peers.Keys == r'.peers.Keys
            && r.backend.outbox == r'.backend.outbox && r.transport == r'.transport
            && forall id :: id in r.peers ==>
                 && r.peers[id].state == r'.peers[id].state
                 && r.peers[id].lastSeenAt == r'.peers[id].lastSeenAt
  {
    if events == [] {
      NoTwins();
    } else {
      var n := |events| - 1;
      RemoteClocksDoNotMatter(env, s, events[..n], events'[..n]);
      TwinsStepAlike(env, Run(env, s, events[..n]), Run(env, s, events'[..n]), events[n], events'[n]);
      hide Step, TwinEvents, TwinInboxes;
    }
  }
}
