/** What holds in every run of one engine, whatever bytes arrive and whatever the outside world answers. */
module EngineLaws {
  import opened Serializer
  import opened Types
  import opened Clocks
  import opened Registry
  import opened EngineModel
  import RefreshLaws

  // ---- Lifecycle ----

  ghost predicate Consistent(env: Env, s: Engine) {
    && (s.status == Stopped || s.status == Running || s.status == Failed)
    && (s.backend.running <==> s.status == Running)
    && (s.status == Running ==> env.config.IsValid())
    && (s.peers != map[] || s.lastAnnounceAt != UNSET ==> s.status == Running)
    && WellKeyed(s.peers)
    && (forall id :: id in s.peers ==> id != env.config.nodeId && s.peers[id].state in {Alive, Stale, Expired})
  }

  lemma UpsertKeepsEntries(env: Env, peers: Peers, a: DiscoveryAnnouncement, now: Instant)
    requires WellKeyed(peers) && a.IsValid() && a.nodeId != env.config.nodeId
    requires forall id :: id in peers ==> id != env.config.nodeId && peers[id].state in {Alive, Stale, Expired}
    ensures var after := Upsert(peers, a, now);
            && WellKeyed(after)
            && (forall id :: id in after ==> id != env.config.nodeId && after[id].state in {Alive, Stale, Expired})
  {
    assert IsSet(now);
  }

  /** Both halves of a poll keep the engine consistent. */
  lemma PollHalvesKeepConsistent(env: Env, s: Engine)
    requires Consistent(env, s) && IsRunning(s)
    ensures Consistent(env, BeforeReceive(env, s)) && Consistent(env, AfterWait(env, s).0)
  {
    hide BeforeReceive, AfterWait, Accepted, Upsert, Integrate;
    BeforeReceiveFrame(env, s);
    AfterWaitEffect(env, s);
    if Accepted(env, s).Some? {
      UpsertKeepsEntries(env, s.peers, Accepted(env, s).value, env.at(AfterWait(env, s).0.tick - 1));
    }
  }

  lemma StepKeepsConsistent(env: Env, s: Engine, e: Event)
    requires Consistent(env, s)
    ensures Consistent(env, Step(env, s, e))
  {
    hide BeforeReceive, AfterWait, AnnounceNow, ProbeNow;
    if e.CallPoll? && IsRunning(s) {
      BeforeReceiveFrame(env, s);
      PollHalvesKeepConsistent(env, s);
      PollHalvesKeepConsistent(env, BeforeReceive(env, s));
    } else if !e.CallPoll? {
      OtherLifecycle(env, s, e);
      OtherEffect(env, s, e);
    }
  }

  lemma {:induction false} RunKeepsConsistent(env: Env, s: Engine, events: seq<Event>)
    requires Consistent(env, s)
    ensures Consistent(env, Run(env, s, events))
  {
    hide Step, Consistent;
    if events != [] {
      RunKeepsConsistent(env, s, events[..|events| - 1]);
      StepKeepsConsistent(env, Run(env, s, events[..|events| - 1]), events[|events| - 1]);
    }
  }

  /** After every call of every run: the status is Stopped, Running or Failed; only a running engine has
      peers or an announcement time; every entry is valid, keyed by its own node id, not the local one. */
  lemma AlwaysConsistent(env: Env, s: Engine, events: seq<Event>)
    requires Initial(s)
    ensures Consistent(env, Run(env, s, events))
  {
    RunKeepsConsistent(env, s, events);
  }

  // ---- The registry is the history of accepted announcements ----

  /** The announcements accepted since the last stop, oldest first. */
  function History(env: Env, s: Engine, events: seq<Event>): seq<DiscoveryAnnouncement> {
    if events == [] then [] else
    var earlier := events[..|events| - 1];
    var h := History(env, s, earlier);
    match events[|events| - 1]
    case CallStop => []
    case CallPoll => (match Accepted(env, Run(env, s, earlier)) case None => h case Some(a) => h + [a])
    case _ => h
  }

  /** For each node id, the last announcement of that id in h. */
  function LastById(h: seq<DiscoveryAnnouncement>): map<bytes, DiscoveryAnnouncement> {
    if h == [] then map[] else LastById(h[..|h| - 1])[h[|h| - 1].nodeId := h[|h| - 1]]
  }

  /** Position i of h is the last one with this id. */
  ghost predicate LastWithId(h: seq<DiscoveryAnnouncement>, i: int, id: bytes) {
    0 <= i < |h| && h[i].nodeId == id && forall j :: i < j < |h| ==> h[j].nodeId != id
  }

  lemma {:induction false} LastByIdMeaning(h: seq<DiscoveryAnnouncement>, id: bytes)
    ensures id in LastById(h) <==> exists i :: LastWithId(h, i, id)
    ensures forall i :: LastWithId(h, i, id) ==> id in LastById(h) && LastById(h)[id] == h[i]
  {
    if h != [] {
      var n := |h| - 1;
      LastByIdMeaning(h[..n], id);
      if h[n].nodeId == id {
        assert LastWithId(h, n, id);
      } else {
        forall i ensures LastWithId(h, i, id) <==> LastWithId(h[..n], i, id) {
          assert forall j :: 0 <= j < n ==> h[..n][j] == h[j];
        }
      }
    }
  }

  function StoredAnnouncements(peers: Peers): map<bytes, DiscoveryAnnouncement> {
    map id | id in peers :: peers[id].announcement
  }

  lemma RefreshKeepsAnnouncements(peers: Peers, now: Millis, staleAfter: Millis, expireAfter: Millis)
    ensures StoredAnnouncements(Refresh(peers, now, staleAfter, expireAfter)) == StoredAnnouncements(peers)
  {
  }

  lemma UpsertStoresAnnouncement(peers: Peers, a: DiscoveryAnnouncement, now: Instant)
    requires a.IsValid()
    ensures StoredAnnouncements(Upsert(peers, a, now)) == StoredAnnouncements(peers)[a.nodeId := a]
  {
  }

  lemma StepAppendsToHistory(env: Env, s: Engine, e: Event)
    requires Consistent(env, s)
    ensures var stored := StoredAnnouncements(s.peers);
            StoredAnnouncements(Step(env, s, e).peers) ==
            match e
            case CallStop => map[]
            case CallPoll => (match Accepted(env, s) case None => stored case Some(a) => stored[a.nodeId := a])
            case _ => stored
  {
    hide Step, BeforeReceive, PollOnce, Accepted, Integrate, Refresh, Upsert, StoredAnnouncements;
    if e.CallPoll? {
      BeforeReceiveFrame(env, s);
      PollEffect(env, s);
      var b, r := BeforeReceive(env, s), PollOnce(env, s).0;
      RefreshKeepsAnnouncements(s.peers, env.at(b.tick - 1), env.config.peerTtl / 2, env.config.peerTtl);
      if Accepted(env, s).Some? {
        UpsertStoresAnnouncement(b.peers, Accepted(env, s).value, env.at(r.tick - 1));
      }
    } else {
      OtherEffect(env, s, e);
      NoAnnouncements();
    }
  }

  lemma NoAnnouncements()
    ensures StoredAnnouncements(map[]) == map[]
  {
  }

  /** At every point of every run the registry stores exactly the ids heard since the last stop, each with the
      last announcement accepted for it. */
  lemma {:induction false} RegistryIsHistory(env: Env, s: Engine, events: seq<Event>)
    requires Initial(s)
    ensures StoredAnnouncements(Run(env, s, events).peers) == LastById(History(env, s, events))
  {
    hide Step, Accepted;
    if events == [] {
      assert StoredAnnouncements(map[]) == map[];
    } else {
      var earlier, e := events[..|events| - 1], events[|events| - 1];
      var before := Run(env, s, earlier);
      RegistryIsHistory(env, s, earlier);
      AlwaysConsistent(env, s, earlier);
      StepAppendsToHistory(env, before, e);
      if e.CallPoll? && Accepted(env, before).Some? {
        var h, a := History(env, s, earlier), Accepted(env, before).value;
        assert (h + [a])[..|h|] == h;
      }
    }
  }

  // ---- Liveness ----

  /** Only past sightings, and a peer that is not Alive has been silent for half the TTL at least. */
  ghost predicate Timely(env: Env, s: Engine) {
    forall id :: id in s.peers ==>
      && IsSet(s.peers[id].lastSeenAt)
      && s.peers[id].lastSeenAt <= env.at(s.tick)
      && (s.peers[id].state != Alive ==>
            env.at(s.tick) as int - s.peers[id].lastSeenAt as int >= env.config.peerTtl / 2)
      && (s.peers[id].state == Expired ==>
            env.at(s.tick) as int - s.peers[id].lastSeenAt as int >= env.config.peerTtl)
  }

  lemma TimePasses(env: Env, s: Engine, r: Engine)
    requires Nondecreasing(env.at) && Timely(env, s) && r.peers == s.peers && r.tick >= s.tick
    ensures Timely(env, r)
  {
    assert env.at(s.tick) <= env.at(r.tick);
  }

  lemma BeforeReceiveKeepsTimely(env: Env, s: Engine)
    requires Nondecreasing(env.at) && Timely(env, s) && env.config.IsValid()
    ensures Timely(env, BeforeReceive(env, s))
  {
    hide BeforeReceive;
    BeforeReceiveFrame(env, s);
    var b := BeforeReceive(env, s);
    assert env.at(s.tick) <= env.at(b.tick - 1) <= env.at(b.tick);
  }

  lemma UpsertKeepsTimely(env: Env, s: Engine, a: DiscoveryAnnouncement)
    requires Nondecreasing(env.at) && Timely(env, s) && a.IsValid() && s.tick > 0
    ensures Timely(env, s.(peers := Upsert(s.peers, a, env.at(s.tick - 1))))
  {
    assert env.at(s.tick - 1) <= env.at(s.tick);
    assert IsSet(env.at(s.tick - 1));
  }

  lemma StepKeepsTimely(env: Env, s: Engine, e: Event)
    requires Nondecreasing(env.at) && Consistent(env, s) && Timely(env, s)
    ensures Timely(env, Step(env, s, e))
  {
    hide Step, BeforeReceive, PollOnce, Accepted, Integrate, Upsert, Refresh;
    var r := Step(env, s, e);
    if e.CallPoll? {
      PollEffect(env, s);
      if IsRunning(s) {
        BeforeReceiveKeepsTimely(env, s);
        var b := BeforeReceive(env, s);
        TimePasses(env, b, r.(peers := b.peers));
        if Accepted(env, s).Some? {
          UpsertKeepsTimely(env, r.(peers := b.peers), Accepted(env, s).value);
        }
      }
    } else {
      OtherEffect(env, s, e);
      if r.peers == s.peers {
        TimePasses(env, s, r);
      }
    }
  }

  lemma {:induction false} AlwaysTimely(env: Env, s: Engine, events: seq<Event>)
    requires Initial(s) && Nondecreasing(env.at)
    ensures Timely(env, Run(env, s, events))
  {
    if events != [] {
      AlwaysTimely(env, s, events[..|events| - 1]);
      AlwaysConsistent(env, s, events[..|events| - 1]);
      StepKeepsTimely(env, Run(env, s, events[..|events| - 1]), events[|events| - 1]);
    }
  }

  /** In every run, right after the refresh inside a poll a peer is available exactly when less than half the
      TTL has passed since it was last seen. After the whole poll the same holds, but for the peer just heard,
      which is available. */
  lemma ExactLiveness(env: Env, s: Engine, events: seq<Event>, id: bytes)
    requires Initial(s) && Nondecreasing(env.at)
    requires IsRunning(Run(env, s, events))
    ensures var b := BeforeReceive(env, Run(env, s, events));
            id in b.peers ==>
              (b.peers[id].Available() <==>
               env.at(b.tick - 1) as int - b.peers[id].lastSeenAt as int < env.config.peerTtl / 2)
    ensures var now := Run(env, s, events);
            var b, r, a := BeforeReceive(env, now), PollOnce(env, now).0, Accepted(env, now);
            id in AvailableIds(r.peers) <==>
              && id in r.peers
              && (|| (a.Some? && a.value.nodeId == id)
                  || env.at(b.tick - 1) as int - r.peers[id].lastSeenAt as int < env.config.peerTtl / 2)
  {
    hide BeforeReceive, PollOnce, Integrate, Run, Accepted;
    var now := Run(env, s, events);
    AlwaysConsistent(env, s, events);
    AlwaysTimely(env, s, events);
    BeforeReceiveFrame(env, now);
    PollEffect(env, now);
    var b := BeforeReceive(env, now);
    assert env.at(now.tick) <= env.at(b.tick - 1);
  }

  // ---- A peer that is not heard from again ----

  /** No stop, and no announcement accepted for id, in a run from s. */
  ghost predicate Silent(env: Env, s: Engine, events: seq<Event>, id: bytes) {
    forall n :: 0 <= n < |events| ==>
      && events[n] != CallStop
      && (events[n] == CallPoll ==>
            match Accepted(env, Run(env, s, events[..n])) case None => true case Some(a) => a.nodeId != id)
  }

  lemma SilentStep(env: Env, s: Engine, e: Event, id: bytes)
    requires Consistent(env, s) && Nondecreasing(env.at) && id in s.peers && e != CallStop
    requires e == CallPoll && Accepted(env, s).Some? ==> Accepted(env, s).value.nodeId != id
    ensures var r := Step(env, s, e);
            && r.tick >= s.tick && id in r.peers
            && if e.CallPoll? && IsRunning(s) then
                 var now := env.at(BeforeReceive(env, s).tick - 1);
                 && env.at(s.tick) <= now <= env.at(r.tick)
                 && r.peers[id] == RefreshPeer(s.peers[id], now, env.config.peerTtl / 2, env.config.peerTtl)
               else
                 r.peers[id] == s.peers[id]
  {
    hide Step, BeforeReceive, PollOnce, Accepted, Integrate, RefreshPeer;
    if e.CallPoll? {
      BeforeReceiveFrame(env, s);
      PollEffect(env, s);
      if IsRunning(s) {
        var b := BeforeReceive(env, s);
        var now: Instant := env.at(b.tick - 1);
        assert IsSet(now);
      }
    } else {
      OtherEffect(env, s, e);
    }
  }

  lemma SilentPrefix(env: Env, s: Engine, events: seq<Event>, id: bytes)
    requires Silent(env, s, events, id) && events != []
    ensures var n := |events| - 1;
            && Silent(env, s, events[..n], id)
            && events[n] != CallStop
            && (events[n] == CallPoll ==>
                  var a := Accepted(env, Run(env, s, events[..n])); a.Some? ==> a.value.nodeId != id)
  {
    hide Run, Accepted;
    var earlier := events[..|events| - 1];
    assert forall i :: 0 <= i < |earlier| ==> earlier[i] == events[i] && earlier[..i] == events[..i];
  }

  /** In s the peer's entry is what refreshing p at the given times makes of it. */
  ghost predicate OnlyRefreshed(env: Env, s: Engine, id: bytes, p: DiscoveredPeer, times: seq<Millis>) {
    && id in s.peers
    && s.peers[id] == RefreshLaws.RefreshAll(p, times, env.config.peerTtl / 2, env.config.peerTtl)
    && RefreshLaws.InOrder(times)
    && forall i :: 0 <= i < |times| ==> times[i] <= env.at(s.tick)
  }

  /** The clock readings of the refreshes made in one step. */
  function RefreshTimeOf(env: Env, s: Engine, e: Event): seq<Millis> {
    if e.CallPoll? && IsRunning(s) then [env.at(BeforeReceive(env, s).tick - 1)] else []
  }

  lemma OnlyRefreshedStep(env: Env, s: Engine, e: Event, id: bytes, p: DiscoveredPeer, times: seq<Millis>)
    requires Consistent(env, s) && Nondecreasing(env.at) && OnlyRefreshed(env, s, id, p, times) && e != CallStop
    requires e == CallPoll && Accepted(env, s).Some? ==> Accepted(env, s).value.nodeId != id
    ensures OnlyRefreshed(env, Step(env, s, e), id, p, times + RefreshTimeOf(env, s, e))
  {
    hide Step, BeforeReceive, Accepted, Consistent, RefreshPeer, RefreshLaws.RefreshAll;
    SilentStep(env, s, e, id);
    assert env.at(s.tick) <= env.at(Step(env, s, e).tick);
    if e.CallPoll? && IsRunning(s) {
      var now := env.at(BeforeReceive(env, s).tick - 1);
      RefreshLaws.RefreshAllAppend(p, times, now, env.config.peerTtl / 2, env.config.peerTtl);
    } else {
      assert times + RefreshTimeOf(env, s, e) == times;
    }
  }

  /** The clock readings of the refreshes made in a run. */
  function RefreshTimes(env: Env, s: Engine, events: seq<Event>): seq<Millis> {
    if events == [] then [] else
    var n := |events| - 1;
    RefreshTimes(env, s, events[..n]) + RefreshTimeOf(env, Run(env, s, events[..n]), events[n])
  }

  /** In a run that does not hear from a peer, its entry undergoes the refreshes of the run and nothing else. */
  lemma {:induction false} SilentPeerIsOnlyRefreshed(env: Env, s: Engine, events: seq<Event>, id: bytes)
    requires Consistent(env, s) && Nondecreasing(env.at) && id in s.peers && Silent(env, s, events, id)
    ensures Consistent(env, Run(env, s, events))
    ensures OnlyRefreshed(env, Run(env, s, events), id, s.peers[id], RefreshTimes(env, s, events))
  {
    if events != [] {
      hide Step, Accepted, Consistent, RefreshTimeOf, OnlyRefreshed;
      var n := |events| - 1;
      SilentPrefix(env, s, events, id);
      hide Silent;
      SilentPeerIsOnlyRefreshed(env, s, events[..n], id);
      var before := Run(env, s, events[..n]);
      StepKeepsConsistent(env, before, events[n]);
      OnlyRefreshedStep(env, before, events[n], id, s.peers[id], RefreshTimes(env, s, events[..n]));
    }
  }

  /** So the state of a peer that fell silent is settled by counting the refreshes since: once past the TTL it
      is Expired after an odd number of overdue refreshes and Stale after an even number. */
  lemma SilentPeerState(env: Env, s: Engine, events: seq<Event>, id: bytes)
    requires Consistent(env, s) && Nondecreasing(env.at) && IsRunning(s)
    requires id in s.peers && s.peers[id].state == Alive && Silent(env, s, events, id)
    ensures var r, times := Run(env, s, events), RefreshTimes(env, s, events);
            var overdue := RefreshLaws.CountFrom(s.peers[id].lastSeenAt, times, env.config.peerTtl);
            && id in r.peers
            && r.peers[id].state ==
               if overdue > 0 then (if overdue % 2 == 1 then Expired else Stale)
               else if RefreshLaws.CountFrom(s.peers[id].lastSeenAt, times, env.config.peerTtl / 2) > 0 then Stale
               else Alive
  {
    SilentPeerIsOnlyRefreshed(env, s, events, id);
    RefreshLaws.QuietPeerState(s.peers[id], RefreshTimes(env, s, events), env.config.peerTtl / 2, env.config.peerTtl);
  }

  // ---- Pacing of automatic announcements ----

  /** A successful automatic announcement: the reading it was decided on, and the one recorded after it was sent. */
  datatype AutoAnnouncement = AutoAnnouncement(decidedAt: Millis, recordedAt: Millis)

  /** The automatic announcement made by a poll in state s, if any. */
  function AutoAnnouncementOf(env: Env, s: Engine): Option<AutoAnnouncement> {
    var (r, sent) := AnnounceNow(env, s.(tick := s.tick + 1));
    if IsRunning(s) && AnnounceDue(env, s) && sent then Some(AutoAnnouncement(env.at(s.tick), r.lastAnnounceAt))
    else None
  }

  function AutoAnnouncements(env: Env, s: Engine, events: seq<Event>): seq<AutoAnnouncement> {
    if events == [] then [] else
    var earlier := events[..|events| - 1];
    var auto := if events[|events| - 1].CallPoll? then AutoAnnouncementOf(env, Run(env, s, earlier)) else None;
    AutoAnnouncements(env, s, earlier) + if auto.Some? then [auto.value] else []
  }

  /** Each was decided on at least interval after the one before it was recorded. */
  ghost predicate Paced(autos: seq<AutoAnnouncement>, interval: int) {
    && (forall i :: 0 <= i < |autos| ==> autos[i].decidedAt <= autos[i].recordedAt)
    && (forall i :: 0 <= i < |autos| - 1 ==> autos[i + 1].decidedAt as int - autos[i].recordedAt as int >= interval)
  }

  lemma AnnounceEffect(env: Env, s: Engine)
    requires Nondecreasing(env.at) && s.lastAnnounceAt <= env.at(s.tick)
    ensures var (r, sent) := AnnounceNow(env, s);
            && r.tick >= s.tick && r.lastAnnounceAt <= env.at(r.tick)
            && r.status == s.status && r.peers == s.peers && r.backend.running == s.backend.running
            && (sent ==> env.at(s.tick) <= r.lastAnnounceAt)
            && (!sent ==> r.lastAnnounceAt == s.lastAnnounceAt)
  {
    var r := AnnounceNow(env, s).0;
    assert env.at(s.tick) <= env.at(r.tick);
    if AnnounceNow(env, s).1 {
      assert env.at(s.tick) <= env.at(r.tick - 1) <= env.at(r.tick);
    }
  }

  lemma AutoAnnouncementIsMade(env: Env, s: Engine)
    requires IsRunning(s)
    ensures var read := s.(tick := s.tick + 1);
            BeforeReceive(env, s).lastAnnounceAt ==
            if AnnounceDue(env, s) then AnnounceNow(env, read).0.lastAnnounceAt else s.lastAnnounceAt
    ensures BeforeReceive(env, s).tick >= MaybeAnnounce(env, s).tick
  {
  }

  lemma OtherPacing(env: Env, s: Engine, e: Event)
    requires Consistent(env, s) && Nondecreasing(env.at) && s.lastAnnounceAt <= env.at(s.tick)
    requires e != CallStop && e != CallPoll
    ensures var r := Step(env, s, e);
            && r.lastAnnounceAt <= env.at(r.tick)
            && (IsRunning(s) ==> IsRunning(r) && r.lastAnnounceAt >= s.lastAnnounceAt)
  {
    hide AnnounceNow, ProbeNow, PollOnce;
    OtherLifecycle(env, s, e);
    OtherEffect(env, s, e);
    AnnounceEffect(env, s);
    var r := Step(env, s, e);
    assert env.at(s.tick) <= env.at(r.tick);
    assert IsSet(env.at(r.tick));
  }

  lemma PacingStep(env: Env, s: Engine, e: Event)
    requires Consistent(env, s) && Nondecreasing(env.at) && s.lastAnnounceAt <= env.at(s.tick) && e != CallStop
    ensures var r, auto := Step(env, s, e), if e.CallPoll? then AutoAnnouncementOf(env, s) else None;
            && r.lastAnnounceAt <= env.at(r.tick) && r.tick >= s.tick
            && (IsRunning(s) ==> IsRunning(r) && r.lastAnnounceAt >= s.lastAnnounceAt)
            && (auto.Some? ==>
                  && IsRunning(s) && IsSet(auto.value.decidedAt)
                  && auto.value.decidedAt <= auto.value.recordedAt == r.lastAnnounceAt
                  && (IsSet(s.lastAnnounceAt) ==>
                        auto.value.decidedAt as int - s.lastAnnounceAt as int >= env.config.announceInterval))
  {
    hide Step, PollOnce, BeforeReceive, AnnounceNow, Accepted, Upsert, Integrate, Refresh;
    var r := Step(env, s, e);
    if e.CallPoll? {
      var read := s.(tick := s.tick + 1);
      assert env.at(s.tick) <= env.at(read.tick);
      AnnounceEffect(env, read);
      PollEffect(env, s);
      if IsRunning(s) {
        AutoAnnouncementIsMade(env, s);
        assert env.at(s.tick) <= env.at(MaybeAnnounce(env, s).tick) <= env.at(r.tick);
      }
    } else {
      OtherEffect(env, s, e);
      OtherPacing(env, s, e);
      assert env.at(s.tick) <= env.at(r.tick);
    }
  }

  lemma {:induction false} PacingInvariant(env: Env, s: Engine, events: seq<Event>)
    requires Consistent(env, s) && Nondecreasing(env.at) && s.lastAnnounceAt <= env.at(s.tick)
    requires CallStop !in events
    ensures var r, autos := Run(env, s, events), AutoAnnouncements(env, s, events);
            && Consistent(env, r) && r.lastAnnounceAt <= env.at(r.tick) && r.tick >= s.tick
            && Paced(autos, env.config.announceInterval)
            && (autos != [] ==> IsRunning(r) && IsSet(autos[|autos| - 1].recordedAt)
                                && autos[|autos| - 1].recordedAt <= r.lastAnnounceAt)
  {
    hide Step, Consistent, IsRunning, AutoAnnouncementOf;
    if events != [] {
      var n := |events| - 1;
      var earlier, e := events[..n], events[n];
      var before, r := Run(env, s, earlier), Run(env, s, events);
      PacingInvariant(env, s, earlier);
      StepKeepsConsistent(env, before, e);
      assert e in events;
      PacingStep(env, before, e);
    }
  }

  lemma {:induction false} PacedSpan(autos: seq<AutoAnnouncement>, interval: int)
    requires Paced(autos, interval) && autos != []
    ensures (|autos| - 1) * interval <= autos[|autos| - 1].decidedAt as int - autos[0].decidedAt as int
    ensures (|autos| - 1) * interval <= autos[|autos| - 1].recordedAt as int - autos[0].recordedAt as int
  {
    if |autos| > 1 {
      var n := |autos| - 1;
      PacedSpan(autos[..n], interval);
      assert autos[..n][n - 1] == autos[n - 1];
      assert autos[n].decidedAt as int - autos[n - 1].recordedAt as int >= interval;
      assert n * interval == (n - 1) * interval + interval;
    }
  }

  /** Between two stops, n successful automatic announcements take at least (n - 1) intervals, however manual
      announcements and failed sends are interleaved with them. */
  lemma AnnouncementsArePaced(env: Env, s: Engine, first: seq<Event>, events: seq<Event>)
    requires Initial(s) && Nondecreasing(env.at) && CallStop !in events
    ensures var autos := AutoAnnouncements(env, Run(env, s, first), events);
            && Paced(autos, env.config.announceInterval)
            && (autos != [] ==>
                  var interval := env.config.announceInterval as int;
                  && (|autos| - 1) * interval <= autos[|autos| - 1].decidedAt as int - autos[0].decidedAt as int
                  && (|autos| - 1) * interval <= autos[|autos| - 1].recordedAt as int - autos[0].recordedAt as int)
  {
    var now := Run(env, s, first);
    AlwaysConsistent(env, s, first);
    LastAnnounceIsPast(env, s, first);
    PacingInvariant(env, now, events);
    var autos := AutoAnnouncements(env, now, events);
    if autos != [] {
      PacedSpan(autos, env.config.announceInterval);
    }
  }

  /** A poll does not sit on a due announcement: unless its automatic send fails, less than one interval lies
      between the announcement recorded last and the reading the poll's decision was based on. */
  lemma NoAnnouncementIsOverdue(env: Env, s: Engine)
    requires Consistent(env, s) && Nondecreasing(env.at) && s.lastAnnounceAt <= env.at(s.tick) && IsRunning(s)
    ensures var r := PollOnce(env, s).0;
            || (AnnounceDue(env, s) && !AnnounceNow(env, s.(tick := s.tick + 1)).1)
            || (IsSet(r.lastAnnounceAt)
                && env.at(s.tick) as int - r.lastAnnounceAt as int < env.config.announceInterval)
  {
    hide PollOnce, BeforeReceive, AnnounceNow, Accepted, Upsert, Integrate, Refresh;
    var read := s.(tick := s.tick + 1);
    assert env.at(s.tick) <= env.at(read.tick);
    assert IsSet(env.at(read.tick));
    AnnounceEffect(env, read);
    AutoAnnouncementIsMade(env, s);
    PollEffect(env, s);
  }

  lemma {:induction false} LastAnnounceIsPast(env: Env, s: Engine, events: seq<Event>)
    requires Initial(s) && Nondecreasing(env.at)
    ensures var r := Run(env, s, events); r.lastAnnounceAt <= env.at(r.tick)
  {
    if events == [] {
      assert IsSet(env.at(s.tick));
    } else {
      var earlier, e := events[..|events| - 1], events[|events| - 1];
      var before, r := Run(env, s, earlier), Run(env, s, events);
      LastAnnounceIsPast(env, s, earlier);
      AlwaysConsistent(env, s, earlier);
      assert IsSet(env.at(r.tick));
      if e.CallStop? {
        assert r.lastAnnounceAt == UNSET || r == before;
      } else {
        PacingInvariant(env, before, [e]);
        assert [e][..0] == [];
        assert Run(env, before, [e][..0]) == before;
      }
    }
  }

  // ---- Starting, and handing peers to the transport ----

  /** Starting succeeds exactly for an engine that is running already, or with a valid configuration whose socket
      opens. Whether the transport is running makes no difference to the result or to the state. */
  lemma StartSucceedsIff(env: Env, s: Engine, t: Transport)
    requires Consistent(env, s)
    ensures Start(env, s).1 <==> s.status == Running || (env.config.IsValid() && env.opens(s.backend.opens))
    ensures Start(env, s.(transport := t)) == (Start(env, s).0.(transport := t), Start(env, s).1)
  {
  }

  /** A peer first heard while the transport is down is registered but not connected. Whenever it is heard again,
      it is connected at the endpoint it then announces if and only if the transport is running by then and does
      not know it. */
  lemma TransportMayComeLater(env: Env, s: Engine, first: seq<Event>, between: seq<Event>)
    requires Initial(s)
    requires var down := Run(env, s, first);
             Accepted(env, down).Some? && !down.transport.running
    requires var later := Run(env, s, first + [CallPoll] + between);
             && Accepted(env, later).Some?
             && Accepted(env, later).value.nodeId == Accepted(env, Run(env, s, first)).value.nodeId
    ensures var down, a := Run(env, s, first), Accepted(env, Run(env, s, first)).value;
            var r := PollOnce(env, down).0;
            && r.transport == down.transport
            && a.nodeId in r.peers && r.peers[a.nodeId].state == Alive && r.peers[a.nodeId].announcement == a
    ensures var later := Run(env, s, first + [CallPoll] + between);
            var a := Accepted(env, later).value;
            PollOnce(env, later).0.transport.calls ==
            later.transport.calls
            + if later.transport.running && a.nodeId !in later.transport.peers then [PeerInfo(a.nodeId, a.host, a.port)]
              else []
  {
    hide Run, Accepted, PollOnce, BeforeReceive, Step;
    AlwaysConsistent(env, s, first);
    AlwaysConsistent(env, s, first + [CallPoll] + between);
    PollEffect(env, Run(env, s, first));
    PollEffect(env, Run(env, s, first + [CallPoll] + between));
  }

  /** Every step makes at most one connect_peer call, and exactly when it accepts an announcement of an id
      unknown to the running transport: for a valid peer that is not this node, and that the registry now
      holds Alive at the endpoint being connected. */
  lemma HandoffStep(env: Env, s: Engine, e: Event)
    requires Consistent(env, s)
    ensures var r := Step(env, s, e);
            var a := if e.CallPoll? then Accepted(env, s) else None;
            if a.Some? && s.transport.running && a.value.nodeId !in s.transport.peers then
              var peer := PeerInfo(a.value.nodeId, a.value.host, a.value.port);
              && peer.IsValid() && peer.nodeId != env.config.nodeId
              && r.transport.calls == s.transport.calls + [peer] && r.transport.running
              && r.transport.peers == s.transport.peers + (if env.joins(|s.transport.calls|) then {peer.nodeId} else {})
              && peer.nodeId in r.peers && r.peers[peer.nodeId].state == Alive
              && r.peers[peer.nodeId].ToPeerInfo() == peer
            else
              && r.transport.calls == s.transport.calls
              && (!e.TransportBecomes? ==> r.transport == s.transport)
  {
    hide BeforeReceive, PollOnce, AnnounceNow, ProbeNow, Accepted;
    if e.CallPoll? {
      PollEffect(env, s);
    } else {
      OtherEffect(env, s, e);
    }
  }

  /** Connecting always succeeds, and the transport never forgets a peer. */
  ghost predicate TransportRemembers(env: Env, s: Engine, events: seq<Event>) {
    && (forall n: nat :: env.joins(n))
    && (forall n :: 0 <= n < |events| && events[n].TransportBecomes? ==>
          Run(env, s, events[..n]).transport.peers <= events[n].peers)
  }

  /** No id twice among the calls, and every one of them is known to the transport. */
  ghost predicate ConnectedOnce(t: Transport) {
    && (forall i, j :: 0 <= i < j < |t.calls| ==> t.calls[i].nodeId != t.calls[j].nodeId)
    && (forall i :: 0 <= i < |t.calls| ==> t.calls[i].nodeId in t.peers)
  }

  lemma IntegrateConnectsOnce(env: Env, t: Transport, a: DiscoveryAnnouncement)
    requires ConnectedOnce(t) && env.joins(|t.calls|)
    ensures ConnectedOnce(Integrate(env, t, a))
  {
    forall i, j | 0 <= i < j < |Integrate(env, t, a).calls|
      ensures Integrate(env, t, a).calls[i].nodeId != Integrate(env, t, a).calls[j].nodeId
    {
      assert t.calls[i].nodeId in t.peers;
    }
  }

  /** Then each id is connected at most once in the whole run: a later change of address updates the registry only. */
  lemma {:induction false} ConnectedAtMostOnce(env: Env, s: Engine, events: seq<Event>)
    requires Initial(s) && TransportRemembers(env, s, events)
    ensures ConnectedOnce(Run(env, s, events).transport)
  {
    if events != [] {
      var n := |events| - 1;
      var earlier, e := events[..n], events[n];
      var before := Run(env, s, earlier);
      assert forall i :: 0 <= i < n ==> earlier[i] == events[i] && earlier[..i] == events[..i];
      ConnectedAtMostOnce(env, s, earlier);
      AlwaysConsistent(env, s, earlier);
      hide Step, PollOnce, BeforeReceive, Accepted, Upsert, Integrate;
      if e.CallPoll? {
        PollEffect(env, before);
        if Accepted(env, before).Some? {
          IntegrateConnectsOnce(env, before.transport, Accepted(env, before).value);
        }
      } else {
        OtherEffect(env, before, e);
        if e.TransportBecomes? {
          assert events[n] == e;
        }
      }
    }
  }
}
