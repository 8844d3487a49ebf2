/** The values the discovery module passes around. */
module Types {
  import opened Serializer

  /** Milliseconds since the epoch. The default-constructed timestamp is UNSET, which is not valid. */
  type Millis = i64
  const UNSET: Millis := 0

  predicate IsSet(t: Millis) {
    t > 0
  }

  /** What the local clock can return: always a valid timestamp. */
  type Instant = t: Millis | IsSet(t) witness 1

  datatype MessageType = Unknown | Announce | Probe | Reply | Other(code: byte)

  function Code(kind: MessageType): byte {
    match kind
    case Unknown => 0
    case Announce => 1
    case Probe => 2
    case Reply => 3
    case Other(code) => code
  }

  function FromCode(code: byte): MessageType {
    match code
    case 0 => Unknown
    case 1 => Announce
    case 2 => Probe
    case 3 => Reply
    case _ => Other(code)
  }

  datatype DiscoveryMessage = DiscoveryMessage(
    kind: MessageType,
    fromNodeId: bytes,
    toNodeId: bytes,
    correlationId: bytes,
    payload: bytes)
  {
    predicate IsValid() {
      (kind == Announce || kind == Probe || kind == Reply) && fromNodeId != []
    }
  }

  datatype DiscoveryAnnouncement = DiscoveryAnnouncement(nodeId: bytes, host: bytes, port: u16, timestamp: Millis) {
    predicate IsValid() {
      nodeId != [] && host != [] && port != 0 && IsSet(timestamp)
    }
  }

  /** A message with its endpoints and creation time. */
  datatype DiscoveryEnvelope = DiscoveryEnvelope(
    message: DiscoveryMessage,
    fromHost: bytes,
    fromPort: u16,
    toHost: bytes,
    toPort: u16,
    timestamp: Millis)
  {
    predicate IsValid() {
      message.IsValid() && IsSet(timestamp)
    }

    predicate HasSource() {
      fromHost != [] && fromPort != 0
    }

    predicate HasDestination() {
      toHost != [] && toPort != 0
    }
  }

  /** Raw bytes with the remote endpoint they come from or go to. */
  datatype Datagram = Datagram(host: bytes, port: u16, payload: bytes) {
    predicate IsValid() {
      host != [] && port != 0 && payload != []
    }
  }

  const NO_DATAGRAM := Datagram([], 0, [])

  /** What the transport engine is told about a peer. */
  datatype PeerInfo = PeerInfo(nodeId: bytes, host: bytes, port: u16) {
    predicate IsValid() {
      nodeId != [] && host != [] && port != 0
    }
  }

  datatype DiscoveryConfig = DiscoveryConfig(
    bindHost: bytes,
    bindPort: u16,
    broadcastHost: bytes,
    broadcastPort: u16,
    nodeId: bytes,
    announceHost: bytes,
    announcePort: u16,
    announceInterval: Millis,
    peerTtl: Millis,
    maxDatagramSize: nat)
  {
    predicate IsValid() {
      && bindHost != [] && bindPort != 0
      && broadcastHost != [] && broadcastPort != 0
      && nodeId != []
      && announceHost != [] && announcePort != 0
      && announceInterval > 0 && peerTtl > 0
      && maxDatagramSize > 0
    }
  }

  datatype DiscoveryStatus = Stopped | Starting | Running | Stopping | Failed

  datatype PeerState = UnknownState | Discovered | Alive | Stale | Expired
}
