/** The discovered peers, keyed by node id, with their timed states. */
module Registry {
  import opened Serializer
  import opened Types
  import opened Clocks

  datatype DiscoveredPeer = DiscoveredPeer(
    announcement: DiscoveryAnnouncement,
    state: PeerState,
    lastSeenAt: Millis,
    errorCount: nat)
  {
    /** The constructor from an announcement. */
    static function FromAnnouncement(a: DiscoveryAnnouncement, now: Instant): DiscoveredPeer {
      DiscoveredPeer(a, Discovered, now, 0)
    }

    predicate IsValid() {
      announcement.IsValid() && state != UnknownState
    }

    predicate Available() {
      state == Discovered || state == Alive
    }

    function MarkAlive(now: Instant): DiscoveredPeer {
      this.(state := Alive, lastSeenAt := now)
    }

    /** A fresh announcement replaces the old one and proves the peer alive. */
    function Update(a: DiscoveryAnnouncement, now: Instant): DiscoveredPeer {
      this.(announcement := a).MarkAlive(now)
    }

    function ToPeerInfo(): PeerInfo {
      PeerInfo(announcement.nodeId, announcement.host, announcement.port)
    }
  }

  type Peers = map<bytes, DiscoveredPeer>

  // ---- What the operations compute ----

  /** One peer's part of a refresh. The second test has no upper bound on the age. */
  function RefreshPeer(p: DiscoveredPeer, now: Millis, staleAfter: Millis, expireAfter: Millis): DiscoveredPeer {
    if !IsSet(p.lastSeenAt) then p else
    var age := now as int - p.lastSeenAt as int;
    if age >= expireAfter && p.state != Expired then p.(state := Expired)
    else if age >= staleAfter && p.state != Stale then p.(state := Stale)
    else p
  }

  function Refresh(peers: Peers, now: Millis, staleAfter: Millis, expireAfter: Millis): Peers {
    if !IsSet(now) then peers else
    map id | id in peers :: RefreshPeer(peers[id], now, staleAfter, expireAfter)
  }

  /** The peers whose state differs between two maps with the same keys. */
  ghost function Changed(before: Peers, after: Peers): set<bytes>
    requires before.Keys == after.Keys
  {
    set id | id in before && before[id].state != after[id].state
  }

  /** Stores a fresh announcement: the peer is Alive and seen at the given instant. */
  function Upsert(peers: Peers, a: DiscoveryAnnouncement, seenAt: Instant): Peers {
    if !a.IsValid() then peers
    else if a.nodeId in peers then peers[a.nodeId := peers[a.nodeId].Update(a, seenAt)]
    else peers[a.nodeId := DiscoveredPeer(a, Alive, seenAt, 0)]
  }

  /** How many clock readings storing an announcement takes: an insertion reads the clock twice. */
  function UpsertReadings(peers: Peers, a: DiscoveryAnnouncement): (r: nat)
    ensures a.IsValid() ==> r >= 1
  {
    if !a.IsValid() then 0 else if a.nodeId in peers then 1 else 2
  }

  /** Every entry is valid and stored under its own node id. */
  ghost predicate WellKeyed(peers: Peers) {
    forall id :: id in peers ==>
      peers[id].IsValid() && peers[id].announcement.nodeId == id && IsSet(peers[id].lastSeenAt)
  }

  function AvailableIds(peers: Peers): set<bytes> {
    set id | id in peers && peers[id].Available()
  }

  function IdsInState(peers: Peers, state: PeerState): set<bytes> {
    set id | id in peers && peers[id].state == state
  }

  /** The peers handed to a transport: all but the expired ones. */
  function TransportIds(peers: Peers): set<bytes> {
    set id | id in peers && peers[id].state != Expired && peers[id].ToPeerInfo().IsValid()
  }

  /** s lists the elements of ids, each once, in some order. */
  ghost predicate Enumerates(s: seq<bytes>, ids: set<bytes>) {
    && (forall i, j :: 0 <= i < j < |s| ==> s[i] != s[j])
    && (forall id :: id in s <==> id in ids)
  }

  lemma EnumerationSize(s: seq<bytes>, ids: set<bytes>)
    requires Enumerates(s, ids)
    ensures |s| == |ids|
  {
    if s == [] {
      assert ids == {};
    } else {
      var last := s[|s| - 1];
      assert forall id :: id in s[..|s| - 1] <==> id in s && id != last;
      EnumerationSize(s[..|s| - 1], ids - {last});
    }
  }

  function Select(peers: Peers, order: seq<bytes>): (r: seq<DiscoveredPeer>)
    requires forall id :: id in order ==> id in peers
    ensures |r| == |order|
    ensures forall i :: 0 <= i < |r| ==> r[i] == peers[order[i]]
  {
    seq(|order|, i requires 0 <= i < |order| => assert order[i] in order; peers[order[i]])
  }

  class DiscoveryRegistry {
    var peers: Peers

    constructor ()
      ensures peers == map[]
    {
      peers := map[];
    }

    method Clear()
      modifies this
      ensures peers == map[]
    {
      peers := map[];
    }

    /** Inserts or replaces; invalid peers are ignored. */
    method UpsertPeer(peer: DiscoveredPeer)
      modifies this
      ensures peers == if peer.IsValid() then old(peers)[peer.announcement.nodeId := peer] else old(peers)
    {
      if !peer.IsValid() {
        return;
      }
      peers := peers[peer.announcement.nodeId := peer];
    }

    method UpsertAnnouncement(announcement: DiscoveryAnnouncement, clock: Clock)
      modifies this, clock`tick
      ensures clock.tick == old(clock.tick) + UpsertReadings(old(peers), announcement)
      ensures announcement.IsValid() ==> peers == Upsert(old(peers), announcement, clock.at(clock.tick - 1))
      ensures var id := announcement.nodeId;
              id != [] && announcement.host != [] && announcement.port > 0 && announcement.timestamp > 0 ==>
                && peers.Keys == old(peers).Keys + {id}
                && (forall other :: other in old(peers) && other != id ==> peers[other] == old(peers)[other])
                && peers[id].announcement == announcement && peers[id].state == Alive
                && clock.tick > 0 && peers[id].lastSeenAt == clock.at(clock.tick - 1)
                && peers[id].errorCount == if id in old(peers) then old(peers)[id].errorCount else 0
      ensures !announcement.IsValid() ==> peers == old(peers)
    {
      if !announcement.IsValid() {
        return;
      }
      if announcement.nodeId in peers {
        var now := clock.Now();
        peers := peers[announcement.nodeId := peers[announcement.nodeId].Update(announcement, now)];
        return;
      }
      var createdAt := clock.Now();
      var peer := DiscoveredPeer.FromAnnouncement(announcement, createdAt);
      var touchedAt := clock.Now();
      peer := peer.MarkAlive(touchedAt);
      UpsertPeer(peer);
    }

    /** One turn of the refresh loop. */
    method RefreshEntry(id: bytes, now: Millis, staleAfter: Millis, expireAfter: Millis) returns (changed: bool)
      requires id in peers
      modifies this
      ensures peers == old(peers)[id := RefreshPeer(old(peers)[id], now, staleAfter, expireAfter)]
      ensures changed == (peers[id].state != old(peers)[id].state)
    {
      changed := false;
      var peer := peers[id];
      if !IsSet(peer.lastSeenAt) {
        return;
      }
      var age := now as int - peer.lastSeenAt as int;
      if age >= expireAfter && peer.state != Expired {
        peers := peers[id := peer.(state := Expired)];
        changed := true;
        return;
      }
      if age >= staleAfter && peer.state != Stale {
        peers := peers[id := peer.(state := Stale)];
        changed := true;
      }
    }

    /** Visits the map in an arbitrary order; the result does not depend on it. */
    method RefreshStates(now: Millis, staleAfter: Millis, expireAfter: Millis) returns (changed: nat)
      modifies this
      ensures peers == Refresh(old(peers), now, staleAfter, expireAfter)
      ensures changed == |Changed(old(peers), peers)|
    {
      hide RefreshPeer;
      changed := 0;
      if !IsSet(now) {
        assert Changed(peers, peers) == {};
        return;
      }
      ghost var before := peers;
      ghost var goal := Refresh(peers, now, staleAfter, expireAfter);
      ghost var flipped := {};
      var todo := peers.Keys;
      while todo != {}
        invariant peers.Keys == before.Keys && todo <= before.Keys
        invariant forall id :: id in before ==> peers[id] == if id in todo then before[id] else goal[id]
        invariant flipped == set id | id in before && id !in todo && before[id].state != goal[id].state
        invariant changed == |flipped|
      {
        var id :| id in todo;
        todo := todo - {id};
        var entryChanged := RefreshEntry(id, now, staleAfter, expireAfter);
        if entryChanged {
          changed := changed + 1;
          flipped := flipped + {id};
        }
      }
      assert peers == goal;
      assert flipped == Changed(before, goal);
    }

    method PruneExpired() returns (removed: nat)
      modifies this
      ensures peers == map id | id in old(peers) && old(peers)[id].state != Expired :: old(peers)[id]
      ensures removed == |IdsInState(old(peers), Expired)|
    {
      ghost var before := peers;
      var todo := peers.Keys;
      ghost var gone := {};
      removed := 0;
      while todo != {}
        invariant todo <= peers.Keys && peers.Keys == before.Keys - gone
        invariant forall id :: id in peers ==> peers[id] == before[id]
        invariant gone == set id | id in before && id !in todo && before[id].state == Expired
        invariant removed == |gone|
      {
        var id :| id in todo;
        todo := todo - {id};
        if peers[id].state == Expired {
          peers := peers - {id};
          removed := removed + 1;
          gone := gone + {id};
        }
      }
      assert gone == IdsInState(before, Expired);
    }

    /** Lists the available peers in the map's own, unspecified order. */
    method AvailablePeers() returns (result: seq<DiscoveredPeer>, ghost order: seq<bytes>)
      ensures Enumerates(order, AvailableIds(peers))
      ensures forall id :: id in order <==> id in peers && (peers[id].state == Discovered || peers[id].state == Alive)
      ensures result == Select(peers, order)
      ensures |result| == |AvailableIds(peers)|
    {
      result, order := [], [];
      var todo := peers.Keys;
      while todo != {}
        invariant todo <= peers.Keys
        invariant Enumerates(order, AvailableIds(peers) - todo)
        invariant result == Select(peers, order)
      {
        var id :| id in todo;
        todo := todo - {id};
        if peers[id].Available() {
          result := result + [peers[id]];
          order := order + [id];
        }
      }
      EnumerationSize(order, AvailableIds(peers));
    }

    method ByState(state: PeerState) returns (result: seq<DiscoveredPeer>, ghost order: seq<bytes>)
      ensures Enumerates(order, IdsInState(peers, state))
      ensures forall id :: id in order <==> id in peers && peers[id].state == state
      ensures result == Select(peers, order)
      ensures |result| == |IdsInState(peers, state)|
      ensures forall i :: 0 <= i < |result| ==> result[i].state == state
    {
      result, order := [], [];
      var todo := peers.Keys;
      while todo != {}
        invariant todo <= peers.Keys
        invariant Enumerates(order, IdsInState(peers, state) - todo)
        invariant result == Select(peers, order)
        invariant forall i :: 0 <= i < |result| ==> result[i].state == state
      {
        var id :| id in todo;
        todo := todo - {id};
        if peers[id].state == state {
          result := result + [peers[id]];
          order := order + [id];
        }
      }
      EnumerationSize(order, IdsInState(peers, state));
    }

    method TransportPeers() returns (result: seq<PeerInfo>, ghost order: seq<bytes>)
      ensures Enumerates(order, TransportIds(peers))
      ensures forall id :: id in order <==>
                && id in peers && peers[id].state != Expired
                && var a := peers[id].announcement; a.nodeId != [] && a.host != [] && a.port > 0
      ensures |result| == |order| == |TransportIds(peers)|
      ensures forall i :: 0 <= i < |order| ==>
                && order[i] in peers
                && var a := peers[order[i]].announcement; result[i] == PeerInfo(a.nodeId, a.host, a.port)
      ensures forall i :: 0 <= i < |result| ==> result[i].IsValid()
    {
      result, order := [], [];
      var todo := peers.Keys;
      while todo != {}
        invariant todo <= peers.Keys
        invariant Enumerates(order, TransportIds(peers) - todo)
        invariant |result| == |order|
        invariant forall i :: 0 <= i < |order| ==> order[i] in peers && result[i] == peers[order[i]].ToPeerInfo()
        invariant forall i :: 0 <= i < |result| ==> result[i].IsValid()
      {
        var id :| id in todo;
        todo := todo - {id};
        if peers[id].state != Expired && peers[id].ToPeerInfo().IsValid() {
          result := result + [peers[id].ToPeerInfo()];
          order := order + [id];
        }
      }
      EnumerationSize(order, TransportIds(peers));
    }
  }
}
