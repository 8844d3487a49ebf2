/** What refreshing does to peer states, one refresh at a time and over any number of refreshes. */
module RefreshLaws {
  import opened Serializer
  import opened Types
  import opened Registry

  /** The documented state of a peer of a given age: Alive, Stale from half the TTL, Expired from the TTL. */
  function Documented(age: int, staleAfter: Millis, expireAfter: Millis): PeerState {
    if age >= expireAfter then Expired else if age >= staleAfter then Stale else Alive
  }

  /** A refresh reaches the documented state exactly when the peer is not already Expired past the TTL
      and, below half the TTL, was Alive already. In the first exception it makes the peer Stale, in the second it
      leaves it alone. */
  lemma RefreshMeetsDocumentation(p: DiscoveredPeer, now: Millis, staleAfter: Millis, expireAfter: Millis)
    requires IsSet(p.lastSeenAt) && staleAfter <= expireAfter
    ensures var age := now as int - p.lastSeenAt as int;
            RefreshPeer(p, now, staleAfter, expireAfter).state == Documented(age, staleAfter, expireAfter)
            <==> (age >= expireAfter ==> p.state != Expired) && (age < staleAfter ==> p.state == Alive)
    ensures var age, r := now as int - p.lastSeenAt as int, RefreshPeer(p, now, staleAfter, expireAfter);
            && (age >= expireAfter && p.state == Expired ==> r.state == Stale)
            && (age < staleAfter ==> r == p)
  {
  }

  /** Refreshing keeps the keys, the announcements and the sighting times, and revives nobody; without a valid time
      to compare it leaves everything, or the entry, alone. */
  lemma RefreshOnlyDegrades(peers: Peers, now: Millis, staleAfter: Millis, expireAfter: Millis)
    ensures var after := Refresh(peers, now, staleAfter, expireAfter);
            && after.Keys == peers.Keys
            && (forall id :: id in peers ==> after[id] == peers[id].(state := after[id].state))
            && AvailableIds(after) <= AvailableIds(peers)
            && (now <= 0 ==> after == peers)
            && (forall id :: id in peers && peers[id].lastSeenAt <= 0 ==> after[id] == peers[id])
  {
  }

  /** The refreshes of one peer at successive times. */
  function RefreshAll(p: DiscoveredPeer, times: seq<Millis>, staleAfter: Millis, expireAfter: Millis): DiscoveredPeer {
    if times == [] then p else
    var n := |times| - 1;
    RefreshPeer(RefreshAll(p, times[..n], staleAfter, expireAfter), times[n], staleAfter, expireAfter)
  }

  lemma RefreshAllAppend(p: DiscoveredPeer, times: seq<Millis>, now: Millis, staleAfter: Millis, expireAfter: Millis)
    ensures RefreshAll(p, times + [now], staleAfter, expireAfter)
         == RefreshPeer(RefreshAll(p, times, staleAfter, expireAfter), now, staleAfter, expireAfter)
  {
    assert (times + [now])[..|times|] == times;
  }

  lemma {:induction false} RefreshAllKeeps(
    p: DiscoveredPeer, times: seq<Millis>, staleAfter: Millis, expireAfter: Millis)
    ensures var q := RefreshAll(p, times, staleAfter, expireAfter); q == p.(state := q.state)
  {
    if times != [] {
      RefreshAllKeeps(p, times[..|times| - 1], staleAfter, expireAfter);
    }
  }

  /** How many of the times find the peer at least limit old. */
  function CountFrom(lastSeenAt: Millis, times: seq<Millis>, limit: Millis): nat {
    if times == [] then 0 else
    CountFrom(lastSeenAt, times[..|times| - 1], limit)
    + if times[|times| - 1] as int - lastSeenAt as int >= limit then 1 else 0
  }

  ghost predicate InOrder(times: seq<Millis>) {
    forall i, j :: 0 <= i < j < |times| ==> times[i] <= times[j]
  }

  lemma {:induction false} NoneBefore(lastSeenAt: Millis, times: seq<Millis>, limit: Millis)
    requires InOrder(times)
    requires times != [] ==> times[|times| - 1] as int - lastSeenAt as int < limit
    ensures CountFrom(lastSeenAt, times, limit) == 0
  {
    if times != [] {
      NoneBefore(lastSeenAt, times[..|times| - 1], limit);
    }
  }

  /** The exact state of a peer that is not heard from again, after any number of refreshes in time order:
      once past the TTL it alternates between Expired and Stale for ever. */
  lemma {:induction false} QuietPeerState(
    p: DiscoveredPeer, times: seq<Millis>, staleAfter: Millis, expireAfter: Millis)
    requires IsSet(p.lastSeenAt) && p.state == Alive && staleAfter <= expireAfter && InOrder(times)
    ensures var overdue := CountFrom(p.lastSeenAt, times, expireAfter);
            RefreshAll(p, times, staleAfter, expireAfter).state ==
            if overdue > 0 then (if overdue % 2 == 1 then Expired else Stale)
            else if CountFrom(p.lastSeenAt, times, staleAfter) > 0 then Stale
            else Alive
  {
    if times != [] {
      var earlier, now := times[..|times| - 1], times[|times| - 1];
      QuietPeerState(p, earlier, staleAfter, expireAfter);
      RefreshAllKeeps(p, earlier, staleAfter, expireAfter);
      var age := now as int - p.lastSeenAt as int;
      if age < expireAfter {
        NoneBefore(p.lastSeenAt, times, expireAfter);
        NoneBefore(p.lastSeenAt, earlier, expireAfter);
      }
      if age < staleAfter {
        NoneBefore(p.lastSeenAt, times, staleAfter);
        NoneBefore(p.lastSeenAt, earlier, staleAfter);
      }
    }
  }

  /** A peer past the TTL is handed to a transport after a refresh exactly when it was Expired before it. */
  lemma OverdueIsOfferedIffExpired(peers: Peers, id: bytes, now: Instant, staleAfter: Millis, expireAfter: Millis)
    requires id in peers && WellKeyed(peers) && staleAfter <= expireAfter
    requires now as int - peers[id].lastSeenAt as int >= expireAfter
    ensures id in TransportIds(Refresh(peers, now, staleAfter, expireAfter)) <==> peers[id].state == Expired
  {
  }

  /** So expiry is not final: a concrete peer that two refreshes leave Stale, and offered, past its TTL. */
  lemma ExpiredPeerComesBack()
    ensures exists p: DiscoveredPeer, now: Instant ::
              && p.IsValid() && p.state == Alive && now as int - p.lastSeenAt as int >= 15000
              && RefreshPeer(p, now, 7500, 15000).state == Expired
              && RefreshPeer(RefreshPeer(p, now, 7500, 15000), now, 7500, 15000).state == Stale
  {
    var p := DiscoveredPeer(DiscoveryAnnouncement([97], [104], 7000, 1), Alive, 1, 0);
    var now: Instant := 15001;
    assert RefreshPeer(RefreshPeer(p, now, 7500, 15000), now, 7500, 15000).state == Stale;
  }

  // ---- The documented intent: the same refresh with the missing bound on the second test ----

  function RefreshPeerBounded(p: DiscoveredPeer, now: Millis, staleAfter: Millis, expireAfter: Millis): DiscoveredPeer {
    if !IsSet(p.lastSeenAt) then p else
    var age := now as int - p.lastSeenAt as int;
    if age >= expireAfter && p.state != Expired then p.(state := Expired)
    else if staleAfter <= age < expireAfter && p.state != Stale then p.(state := Stale)
    else p
  }

  function RefreshAllBounded(
    p: DiscoveredPeer, times: seq<Millis>, staleAfter: Millis, expireAfter: Millis): DiscoveredPeer
  {
    if times == [] then p else
    RefreshPeerBounded(RefreshAllBounded(p, times[..|times| - 1], staleAfter, expireAfter), times[|times| - 1],
                       staleAfter, expireAfter)
  }

  /** With the bound, refreshing again at the same time changes nothing. */
  lemma BoundedRefreshIsIdempotent(p: DiscoveredPeer, now: Millis, staleAfter: Millis, expireAfter: Millis)
    ensures var once := RefreshPeerBounded(p, now, staleAfter, expireAfter);
            RefreshPeerBounded(once, now, staleAfter, expireAfter) == once
  {
  }

  /** The code's refresh is idempotent exactly for peers that are not past the TTL. */
  lemma RefreshIsIdempotentIffNotOverdue(p: DiscoveredPeer, now: Millis, staleAfter: Millis, expireAfter: Millis)
    requires IsSet(p.lastSeenAt) && staleAfter <= expireAfter
    ensures var once := RefreshPeer(p, now, staleAfter, expireAfter);
            RefreshPeer(once, now, staleAfter, expireAfter) == once
            <==> now as int - p.lastSeenAt as int < expireAfter
  {
  }

  /** With the bound, a quiet peer is in the documented state after every refresh: Expired for ever past the TTL. */
  lemma {:induction false} BoundedRefreshMeetsDocumentation(
    p: DiscoveredPeer, times: seq<Millis>, staleAfter: Millis, expireAfter: Millis)
    requires IsSet(p.lastSeenAt) && p.state == Alive && staleAfter <= expireAfter && InOrder(times) && times != []
    ensures var q := RefreshAllBounded(p, times, staleAfter, expireAfter);
            && q == p.(state := q.state)
            && q.state == Documented(times[|times| - 1] as int - p.lastSeenAt as int, staleAfter, expireAfter)
  {
    if |times| > 1 {
      BoundedRefreshMeetsDocumentation(p, times[..|times| - 1], staleAfter, expireAfter);
    } else {
      assert times[..0] == [];
    }
  }
}
