# Verified model of softadastra/discovery

This project models the discovery module of softadastra (C++ headers under
`include/softadastra/discovery/`) and proves what its wire formats, its peer registry, its engine, a network of
engines, and its user-facing service guarantee.

- `Serializer.dfy`, `MessageCodec.dfy`, `AnnouncementCodec.dfy`: the bytes on the wire. Encoders append to a
  buffer and decoders advance a cursor, as in the program; each is proved equal to a format function, and each
  format's decoder is proved to be exactly the inverse of its encoder.
- `Types.dfy`, `Clock.dfy`: messages, announcements, configuration, datagrams; the local clock.
- `Registry.dfy`, `RefreshLaws.dfy`: the peer map, its refresh with two overlapping thresholds, and what any
  number of refreshes does.
- `EngineModel.dfy`: the engine as a deterministic state machine. `DiscoveryEngine.dfy`: the engine, the UDP
  backend and the transport as classes, each method proved to do what the state machine says.
- `EngineAnswers.dfy`: exactly when each call of an engine succeeds and exactly which bytes it sends, said of the
  configuration, the socket's answers and the layout of datagrams, without the functions of the state machine.
- `EngineLaws.dfy`, `Batch.dfy`, `RemoteClocks.dfy`, `PeerExchange.dfy`: what holds in every run of one engine,
  and across the exchange between two. `EngineDriver.dfy`: whole runs of the engine object, with these laws.
- `Network.dfy`: any number of engines over a network that loses, duplicates, reorders and misattributes datagrams,
  where other nodes may act while one waits in a poll.
- `Notification.dfy`: telling new peers by comparing a count with a listing in no particular order.
  `ServiceModel.dfy`, `ServiceLaws.dfy`, `ServiceWitness.dfy`: the service as a state machine, what its callbacks
  amount to over every run, and a run in which a new peer is missed. `Service.dfy`: the service as a class, each
  method and each run of it proved to follow the state machine. `ServiceNetwork.dfy`: what a user is told of a peer
  in a network.

Check everything with `dafny verify dfyconfig.toml`.

## How the program is read

- A `std::string` is a byte string, and so is a `std::vector<std::uint8_t>`; both are `bytes`. The helpers that
  append or read a size-prefixed string, and those for bytes, are the same operation here (`AppendField`,
  `ReadField`); the engine's private copies of them are too.
- Sizes are cast to 32 bits when written (`|v| % U32_LIMIT`) while all bytes are appended. No bound on sizes is
  assumed: the codec theorems say exactly when the cast is harmless.
- The Store serializer is not part of the repository and not part of this model. Integers are written here least
  significant byte first, signed 64-bit ones in two's complement; only the proved inverse laws are used.
- A timestamp is a signed 64-bit number of milliseconds, valid when positive; the default timestamp is 0 and not
  valid; reading the clock gives a valid one. The difference of two valid timestamps cannot overflow. Every
  reading of the clock made by the program is one step in the sequence of readings `Env.at`, including the
  readings whose value the program discards.
- `Env` holds what an engine cannot decide: its configuration, its clock, and the answers to the n-th socket
  open, datagram send and transport connection. A send also fails when the datagram does not fit the 16-bit
  length field of RFC 768 (User Datagram Protocol, Fields, Length); this is what bounds message sizes in
  the network theorem, so no configuration is excluded for its size. A received datagram is cut to
  `max_datagram_size`, as on Linux: a message that is cut is lost (`CutMessagesAreLost`), but bytes after a message
  that fills the buffer are dropped unnoticed (`ExcessIsDropped`).
- The configuration is fixed, and `start` refuses an invalid one, so the later `config_checked` error branches
  cannot be reached in a running engine and are not repeated.
- `PeerInfo` belongs to the transport module; it is taken to be valid when its id, host and port are set.
- `DiscoveredPeer` is stored in the map by value and copied out of it, so it is a value here; the registry
  reassigns its map where the program writes through a pointer into it.
- Loops over the unordered map pick the next key arbitrarily, so every result holds for every iteration order.

## Where the code and the documentation differ

- `docs/guide.md:619-625` says that a peer not seen for the full TTL is Expired. `refresh_states` tests the second
  threshold without an upper bound on the age, so the refresh after the one that expires a peer relabels it Stale.
  `RefreshMeetsDocumentation`, `QuietPeerState` and `SilentPeerState` say exactly what happens;
  `OverdueIsOfferedIffExpired` what follows for the transport; the `Bounded` members prove the documented intent
  of the same code with the bound added.
- `docs/guide.md:680` says that a context is valid only with a running transport. The code does not ask for one to
  start: `StartSucceedsIff` says exactly when starting succeeds. It asks when a peer is handed over, so a peer first
  heard while the transport is down is registered without being connected, and connected later only if it is heard
  again: `TransportMayComeLater`.
- The handler is documented as called when new peers are observed (`DiscoveryService.hpp:77-80`). The code reports by
  position in a listing of an unordered map. `RunReportsTheNewIff` says exactly when a poll is certain to report the
  new peers: when none was available before, or none is new. In every other case some listing makes it report
  something else; `NewPeerCanBeMissed` and `SomeServiceMissesANewPeer` run a service, from construction, into calling
  back for a known peer again and never for the new one. `CallbacksAreRises` says how many callbacks there are in any
  case, and `ExtendingOrdersReportTheNew` which, when listings extend each other.

## Model

| member | source | states |
|---|---|---|
| Serializer.TakeFieldInverse | include/softadastra/discovery/encoding/DiscoveryDecoder.hpp:215-244 | Reading a size-prefixed field yields a value and a rest if and only if the value is below 2^32 bytes and the input is that field's encoding followed by the rest. |
| Serializer.TakeFieldExtends | include/softadastra/discovery/encoding/DiscoveryDecoder.hpp:249-282 | What follows a readable field does not change how it is read. |
| Serializer.I64Inverse | include/softadastra/discovery/engine/DiscoveryEngine.hpp:679-681 | Eight bytes read back as a signed 64-bit value if and only if they are its encoding, negative values included. |
| Serializer.ByteBuffer.AppendField | include/softadastra/discovery/encoding/DiscoveryEncoder.hpp:136-168 | Appends exactly the size cast to 32 bits and then all the bytes. |
| Serializer.ByteReader.ReadField | include/softadastra/discovery/encoding/DiscoveryDecoder.hpp:215-282 | Succeeds exactly when a whole field is left, returns it, and leaves the cursor right behind it. |
| MessageCodec.EncodeMessage | include/softadastra/discovery/encoding/DiscoveryEncoder.hpp:68-93 | Appending field by field produces the message format, whose bytes `EncodingIsLaidOut` spells out; an invalid message gives no bytes. |
| MessageCodec.MakeDatagram | include/softadastra/discovery/encoding/DiscoveryEncoder.hpp:105-127 | A usable datagram comes out exactly for a valid message and a complete endpoint, and holds the encoding. |
| MessageCodec.DecodeMessage | include/softadastra/discovery/encoding/DiscoveryDecoder.hpp:69-122 | The cursor parser, with its size and exact-consumption checks, computes the format's parse for every input; `ParsesIffLaidOut` says which bytes it accepts. |
| MessageCodec.EncodingIsLaidOut | include/softadastra/discovery/encoding/DiscoveryEncoder.hpp:40-57 | The encoding of a valid message is the one byte string that starts with 1, 2 or 3 for announce, probe, reply, and has sender, recipient, correlation id and payload at their offsets, each after its four-byte size. |
| MessageCodec.ParsesIffLaidOut | include/softadastra/discovery/encoding/DiscoveryDecoder.hpp:69-122 | Bytes decode to m if and only if they are laid out so, m has one of the three types and a sender, and every field is below 2^32 bytes. |
| MessageCodec.ParseInvertsEncode | include/softadastra/discovery/encoding/DiscoveryDecoder.hpp:69-122 | Bytes decode to m if and only if m is valid, its fields fit 32 bits, and the bytes are m's encoding. |
| MessageCodec.RoundTrip | include/softadastra/discovery/encoding/DiscoveryEncoder.hpp:68-93 | Decoding an encoding returns the message exactly when it is valid and all four fields are below 2^32 bytes; the encoding is 17 bytes plus the fields. |
| MessageCodec.ShortEncodingsRoundTrip | include/softadastra/discovery/encoding/DiscoveryEncoder.hpp:136-168 | An encoding shorter than 2^32 bytes always decodes to its message, because only the written size is cut by the cast. |
| MessageCodec.Canonical | include/softadastra/discovery/encoding/DiscoveryDecoder.hpp:69-122 | No two byte strings decode to the same message. |
| MessageCodec.SelfDelimiting | include/softadastra/discovery/encoding/DiscoveryDecoder.hpp:111-114 | No strict extension, hence no strict prefix, of an accepted byte string is accepted. |
| MessageCodec.TruncationNeverAlters | platform/linux/UdpSocket.cpp:191-253 | A datagram cut by the receive buffer is rejected; it never decodes to another message. |
| AnnouncementCodec.EncodeAnnouncement | include/softadastra/discovery/engine/DiscoveryEngine.hpp:661-684 | Produces the payload format: two fields, a 16-bit port, a signed 64-bit timestamp. |
| AnnouncementCodec.DecodeAnnouncement | include/softadastra/discovery/engine/DiscoveryEngine.hpp:689-753 | The payload parser computes the format's parse for every input. |
| AnnouncementCodec.EncodingIsLaidOut | include/softadastra/discovery/engine/DiscoveryEngine.hpp:653-684 | The encoding of a valid announcement is the one byte string with node id and host after their sizes, then two bytes of port and eight of timestamp. |
| AnnouncementCodec.ParsesIffLaidOut | include/softadastra/discovery/engine/DiscoveryEngine.hpp:704-753 | A payload decodes to a if and only if it is laid out so, and a has a node id, a host, a port and a positive timestamp. |
| AnnouncementCodec.ParseInvertsEncode | include/softadastra/discovery/engine/DiscoveryEngine.hpp:704-753 | A payload decodes to a if and only if a is valid, its strings fit 32 bits, and the payload is a's encoding. |
| AnnouncementCodec.RoundTrip | include/softadastra/discovery/engine/DiscoveryEngine.hpp:661-684 | Round trip exactly for valid announcements with strings below 2^32 bytes; 18 bytes plus the strings. |
| AnnouncementCodec.Canonical | include/softadastra/discovery/engine/DiscoveryEngine.hpp:704-753 | No two payloads decode to the same announcement. |
| AnnouncementCodec.SelfDelimiting | include/softadastra/discovery/engine/DiscoveryEngine.hpp:742-745 | No strict extension of an accepted payload is accepted. |
| Registry.DiscoveryRegistry.UpsertAnnouncement | include/softadastra/discovery/peer/DiscoveryRegistry.hpp:108-127 | A valid announcement is stored under its id, Alive and seen at the last clock reading, keeping an old entry's error count; an insertion reads the clock twice, an update once; an invalid one changes nothing. |
| Registry.DiscoveryRegistry.RefreshStates | include/softadastra/discovery/peer/DiscoveryRegistry.hpp:396-435 | Whatever the visiting order, every entry undergoes its own refresh, and the number returned is the number of entries whose state changed. |
| Registry.DiscoveryRegistry.PruneExpired | include/softadastra/discovery/peer/DiscoveryRegistry.hpp:442-460 | Removes exactly the Expired entries and returns how many there were. |
| Registry.DiscoveryRegistry.AvailablePeers | include/softadastra/discovery/peer/DiscoveryRegistry.hpp:546-559 | Lists every peer that is Discovered or Alive exactly once, in some order. |
| Registry.DiscoveryRegistry.ByState | include/softadastra/discovery/peer/DiscoveryRegistry.hpp:598-612 | Lists every peer in a state exactly once, in some order. |
| Registry.DiscoveryRegistry.TransportPeers | include/softadastra/discovery/peer/DiscoveryRegistry.hpp:525-539 | Lists the endpoint of every peer that is not Expired exactly once, Stale ones included. |
| RefreshLaws.RefreshMeetsDocumentation | include/softadastra/discovery/peer/DiscoveryRegistry.hpp:415-431 | A refresh reaches the documented state if and only if the peer was not already Expired past the TTL and, when recently seen, was Alive; an overdue Expired peer becomes Stale, a recently seen one is left alone. |
| RefreshLaws.RefreshOnlyDegrades | include/softadastra/discovery/peer/DiscoveryRegistry.hpp:396-435 | Keys, announcements, sightings and error counts stay; no unavailable peer becomes available. |
| RefreshLaws.QuietPeerState | include/softadastra/discovery/peer/DiscoveryRegistry.hpp:415-431 | Closed form after any refreshes in time order: past the TTL, Expired after an odd number of overdue refreshes and Stale after an even number; before, Stale or Alive by half the TTL. |
| RefreshLaws.OverdueIsOfferedIffExpired | include/softadastra/discovery/peer/DiscoveryRegistry.hpp:525-539 | After a refresh past the TTL, a peer is handed to transports if and only if it was Expired before it. |
| RefreshLaws.ExpiredPeerComesBack | include/softadastra/discovery/peer/DiscoveryRegistry.hpp:426-431 | A concrete peer past its TTL that one refresh expires and the next makes Stale. |
| RefreshLaws.RefreshIsIdempotentIffNotOverdue | include/softadastra/discovery/peer/DiscoveryRegistry.hpp:415-431 | Refreshing twice at one time equals refreshing once if and only if the age is below the TTL. |
| RefreshLaws.BoundedRefreshIsIdempotent | docs/guide.md:619-625 | With the missing bound, refreshing again changes nothing. |
| RefreshLaws.BoundedRefreshMeetsDocumentation | docs/guide.md:619-625 | With the missing bound, a quiet peer is in the documented state after every refresh: Expired for ever past the TTL. |
| EngineModel.PollEffect | include/softadastra/discovery/engine/DiscoveryEngine.hpp:268-309 | A poll takes at most one datagram, refreshes, and then changes the registry and the transport only by the announcement accepted from that datagram's bytes, if any, which is valid and not local. |
| EngineAnswers.AnnounceSucceedsIff | include/softadastra/discovery/engine/DiscoveryEngine.hpp:200-231 | Announcing succeeds if and only if the engine runs, the socket takes the datagram and 44 bytes plus twice the node id, the host and the digits of the label stay below 2^16; it sends the laid-out announcement of the configured endpoint to the broadcast endpoint and records the following reading; a failed one sends and records nothing. |
| EngineAnswers.ProbeSucceedsIff | include/softadastra/discovery/engine/DiscoveryEngine.hpp:238-261 | Probing succeeds if and only if the engine runs, the socket takes the datagram and it fits; it sends the laid-out probe to the broadcast endpoint. |
| EngineAnswers.CorrelationIdMeaning | include/softadastra/discovery/engine/DiscoveryEngine.hpp:773-778 | A correlation id is the word, a hyphen, and the decimal numeral of the clock reading, without leading zeros. |
| EngineAnswers.HeardIff | include/softadastra/discovery/engine/DiscoveryEngine.hpp:396-417 | An announcement is heard from a datagram if and only if the datagram has a source and what the buffer keeps of it is laid out as another node's announcement or reply, whose payload is laid out as that announcement, of another node too. |
| EngineAnswers.PollSucceedsIff | include/softadastra/discovery/engine/DiscoveryEngine.hpp:268-309 | A poll succeeds if and only if the engine runs and the first datagram brings another node's probe whose reply fits and the socket takes, or another node's message carrying another node's announcement; so it fails on own messages and malformed bytes. |
| EngineAnswers.PollSends | include/softadastra/discovery/engine/DiscoveryEngine.hpp:268-309 | A poll sends its announcement first, exactly when one is due, the socket takes it and it fits, and then the reply, exactly when the first datagram is a probe whose reply goes out, to the probe's source: both byte for byte, and nothing else. |
| EngineAnswers.BatchEndsAtTheFirstUseless | include/softadastra/discovery/engine/DiscoveryEngine.hpp:317-332 | A batch goes on over datagrams that are of use to a poll and stops at the first that is not. |
| EngineAnswers.CutMessagesAreLost | include/softadastra/discovery/backend/UdpDiscoveryBackend.hpp:184-198 | A message longer than the receive buffer is not decoded. |
| EngineAnswers.ExcessIsDropped | include/softadastra/discovery/backend/UdpDiscoveryBackend.hpp:184-198 | A datagram longer than the receive buffer is decoded if a message fills the buffer. |
| EngineAnswers.StartOutcome | include/softadastra/discovery/engine/DiscoveryEngine.hpp:118-143 | A running engine is left alone; otherwise start succeeds exactly with a complete configuration and a socket that opens, ends in Running or in Failed, and leaves no peers and no announcement time. |
| EngineAnswers.StopOutcome | include/softadastra/discovery/engine/DiscoveryEngine.hpp:148-162 | At any point of any run, stopping leaves the engine as newly made, but for its clock, the socket call counts, and what was sent and connected. |
| EngineAnswers.FirstPollAnnounces | include/softadastra/discovery/engine/DiscoveryEngine.hpp:515-533 | In every run, the first poll after a start tries to announce; if the socket takes it and it fits, the announcement is the first thing it sends, and its time is recorded. |
| DiscoveryEngines.UdpDiscoveryBackend.Start | include/softadastra/discovery/backend/UdpDiscoveryBackend.hpp:88-119 | Succeeds exactly when running already, or with a valid configuration whose socket opens; the socket is opened only in the latter case. |
| DiscoveryEngines.UdpDiscoveryBackend.Send | include/softadastra/discovery/backend/UdpDiscoveryBackend.hpp:146-170 | Succeeds, and puts the encoded message on the wire to the destination, exactly when running, with a valid message, time and destination, and the socket takes a datagram that fits. |
| DiscoveryEngines.UdpDiscoveryBackend.Poll | include/softadastra/discovery/backend/UdpDiscoveryBackend.hpp:177-207 | Takes the first datagram, cuts and decodes it, and fills in its source and the second clock reading; succeeds exactly when it has a source and what is kept of it decodes. |
| DiscoveryEngines.DiscoveryEngine.Start | include/softadastra/discovery/engine/DiscoveryEngine.hpp:118-143 | The class's start leaves the state and result of the state machine's: a running engine is left alone, an invalid configuration or a failed backend start ends in Failed, success in Running with no announcement time. |
| DiscoveryEngines.DiscoveryEngine.Stop | include/softadastra/discovery/engine/DiscoveryEngine.hpp:148-162 | The class's stop leaves the state machine's state: Stopped, no peers, no announcement time, the backend closed; a stopped engine is left alone. |
| DiscoveryEngines.DiscoveryEngine.AnnounceNow | include/softadastra/discovery/engine/DiscoveryEngine.hpp:200-231 | The class's state and result are the state machine's, down to the clock readings: an announcement is sent only when running, and its time is recorded only when the send succeeded. |
| DiscoveryEngines.DiscoveryEngine.ProbeNow | include/softadastra/discovery/engine/DiscoveryEngine.hpp:238-261 | The class's state and result are the state machine's: one probe to the broadcast endpoint when running, and no change but to the clock and the backend. |
| DiscoveryEngines.DiscoveryEngine.MaybeAnnounce | include/softadastra/discovery/engine/DiscoveryEngine.hpp:515-533 | The class's state is the state machine's: an announcement is attempted exactly when none is recorded or the interval has passed since it. |
| DiscoveryEngines.DiscoveryEngine.RefreshPeerStates | include/softadastra/discovery/engine/DiscoveryEngine.hpp:538-554 | The class's state is the state machine's: every entry refreshed at one clock reading, with half the TTL rounded down and the TTL as thresholds. |
| DiscoveryEngines.DiscoveryEngine.HandleAnnounce | include/softadastra/discovery/engine/DiscoveryEngine.hpp:396-417 | The class's state and result are the state machine's: a payload that decodes to another node's announcement is stored and handed to the transport, anything else changes nothing. |
| DiscoveryEngines.DiscoveryEngine.HandleReply | include/softadastra/discovery/engine/DiscoveryEngine.hpp:447-468 | A reply is handled by the same function of the state as an announcement. |
| DiscoveryEngines.DiscoveryEngine.HandleProbe | include/softadastra/discovery/engine/DiscoveryEngine.hpp:422-442 | The class's state and result are the state machine's: a reply to the probe's source, or failure without one. |
| DiscoveryEngines.DiscoveryEngine.IntegrateWithTransport | include/softadastra/discovery/engine/DiscoveryEngine.hpp:482-510 | The transport ends as in the state machine: one connection for a valid peer unknown to a running transport, otherwise nothing. |
| DiscoveryEngines.DiscoveryEngine.PollOnce | include/softadastra/discovery/engine/DiscoveryEngine.hpp:268-309 | The class's state, over engine, backend, registry, transport and clock together, and its result are the state machine's poll. |
| DiscoveryEngines.DiscoveryEngine.PollMany | include/softadastra/discovery/engine/DiscoveryEngine.hpp:317-332 | The number returned and the state left are those of single polls up to the first failure. |
| EngineDriver.Perform | include/softadastra/discovery/engine/DiscoveryEngine.hpp:118-332 | One call of the engine object, or one outside event, takes its state along the state machine's step. |
| EngineDriver.PerformAll | include/softadastra/discovery/engine/DiscoveryEngine.hpp:118-332 | Any sequence of them takes it along the run; a new engine object is then consistent and timely, stores exactly the history of accepted announcements, and has connected each id at most once to a transport that remembers. |
| EngineLaws.AlwaysConsistent | include/softadastra/discovery/engine/DiscoveryEngine.hpp:118-162 | After every call of every run, with arbitrary inbound bytes: the status is Stopped, Running or Failed; peers or an announcement time imply Running; entries are valid, keyed by their own id, not local, and Alive, Stale or Expired. |
| EngineLaws.RegistryIsHistory | include/softadastra/discovery/engine/DiscoveryEngine.hpp:396-477 | The registry's ids and announcements are exactly the last announcement per id in the history of accepted datagrams since the last stop. |
| EngineLaws.LastByIdMeaning | include/softadastra/discovery/peer/DiscoveryRegistry.hpp:108-127 | The last announcement per id is what it says: an id is present if and only if it occurs, with its last occurrence. |
| EngineLaws.AlwaysTimely | include/softadastra/discovery/engine/DiscoveryEngine.hpp:538-554 | With a nondecreasing clock, sightings are past, a peer that is not Alive has been silent for half the TTL, an Expired one for the TTL. |
| EngineLaws.ExactLiveness | include/softadastra/discovery/engine/DiscoveryEngine.hpp:275-276 | In every run, right after the refresh in a poll a peer is available if and only if it was seen less than half the TTL ago; the available ids at the end of the poll are exactly these and the one just heard. |
| EngineLaws.SilentPeerIsOnlyRefreshed | include/softadastra/discovery/peer/DiscoveryRegistry.hpp:396-435 | In a run that does not hear from a peer, its entry undergoes the run's refreshes, in time order, and nothing else. |
| EngineLaws.SilentPeerState | include/softadastra/discovery/peer/DiscoveryRegistry.hpp:415-431 | So its state in the engine is settled by the parity of the overdue refreshes. |
| EngineLaws.AnnouncementsArePaced | include/softadastra/discovery/engine/DiscoveryEngine.hpp:515-533 | Between two stops, n successful automatic announcements span at least n - 1 intervals, by decision and by recording time, with manual announcements and failures interleaved. |
| EngineLaws.NoAnnouncementIsOverdue | include/softadastra/discovery/engine/DiscoveryEngine.hpp:524-532 | A poll leaves no due announcement unmade unless its send failed. |
| EngineLaws.StartSucceedsIff | include/softadastra/discovery/engine/DiscoveryEngine.hpp:118-143 | Starting succeeds exactly when the engine runs already, or the configuration is valid and the socket opens, whatever the transport's state. |
| EngineLaws.TransportMayComeLater | include/softadastra/discovery/engine/DiscoveryEngine.hpp:482-510 | An announcement accepted while the transport is down is registered and connects nobody; when the id is next accepted, it is connected if and only if the transport is running and does not know it. |
| EngineLaws.HandoffStep | include/softadastra/discovery/engine/DiscoveryEngine.hpp:482-510 | A step connects a peer if and only if it accepts an announcement of an id unknown to the running transport; the peer is valid, not local, and registered Alive with that endpoint; the transport knows it from then on if joining succeeds, and is otherwise unchanged. |
| EngineLaws.ConnectedAtMostOnce | include/softadastra/discovery/engine/DiscoveryEngine.hpp:504-509 | If connecting always succeeds and the transport forgets nobody, every id is connected at most once in a run. |
| Batch.PollsAreARun | include/softadastra/discovery/engine/DiscoveryEngine.hpp:317-332 | Polling k times is a run of k poll events. |
| Batch.BatchesObeyTheLaws | include/softadastra/discovery/engine/DiscoveryEngine.hpp:317-332 | After a batch that follows any run the engine is consistent, timely with a nondecreasing clock, and its registry is the history including the batch's own polls. |
| Batch.OutcomeIsUnique | include/softadastra/discovery/engine/DiscoveryEngine.hpp:317-332 | The outcome of a batch is determined by the state it starts in. |
| Batch.BatchTakesAPrefix | include/softadastra/discovery/engine/DiscoveryEngine.hpp:317-332 | A batch that processed n messages took n or n + 1 datagrams, from the front, leaving the rest of the queue unchanged. |
| RemoteClocks.RemoteClocksDoNotMatter | include/softadastra/discovery/peer/DiscoveredPeer.hpp:217-221 | Two runs whose inputs differ only in the valid timestamps of received announcements agree on every state, every sighting, every datagram sent and every connection. |
| RemoteClocks.TwinsDecodeAlike | include/softadastra/discovery/backend/UdpDiscoveryBackend.hpp:177-207 | Datagrams that differ only in an announcement's timestamp have equal length, are cut alike, and decode alike. |
| PeerExchange.AnnouncementBytes | include/softadastra/discovery/engine/DiscoveryEngine.hpp:200-231 | A successful announcement is one datagram to the configured broadcast endpoint that decodes to the sender's own configured endpoint; a failed one sends nothing. |
| PeerExchange.ProbeBytes | include/softadastra/discovery/engine/DiscoveryEngine.hpp:238-261 | A successful probe goes to the broadcast endpoint and decodes to the probe. |
| PeerExchange.AnnouncingRegistersPeer | include/softadastra/discovery/engine/DiscoveryEngine.hpp:396-417 | A node that receives the bytes of another's announcement holds it Alive at its configured endpoint. |
| PeerExchange.ProbeIsAnsweredIff | include/softadastra/discovery/engine/DiscoveryEngine.hpp:422-442 | A probe that arrives whole from another node is answered if and only if the operating system takes the reply and it fits a datagram. |
| PeerExchange.ProbeIsAnswered | include/softadastra/discovery/engine/DiscoveryEngine.hpp:422-442 | The reply to a probe goes to the probe's source endpoint and decodes to a reply to the prober with the probe's correlation id, announcing the answering node. |
| PeerExchange.AnnouncementRegistersPeer | include/softadastra/discovery/engine/DiscoveryEngine.hpp:447-468 | A node that receives an announcement or a reply holds its sender Alive, at the sender's configured host and port, seen at the poll's last clock reading. |
| PeerExchange.ProbeExchangeRegistersPeer | include/softadastra/discovery/engine/DiscoveryEngine.hpp:580-614 | Probe and reply composed, through both codecs nested, whatever else the two nodes did before: the prober ends with the answering node registered Alive at its configured endpoint. |
| Network.LocalMessagesAreHonest | include/softadastra/discovery/engine/DiscoveryEngine.hpp:559-614 | Every message an engine builds, if it fits a datagram, decodes to itself and announces at most the engine's own configured endpoint. |
| Network.HalvesMakeAPoll | include/softadastra/discovery/engine/DiscoveryEngine.hpp:268-309 | A poll is its two halves, before and after the wait for a datagram, one after the other; in the network other nodes may act in between. |
| Network.NodeStepKeepsAuthentic | include/softadastra/discovery/engine/DiscoveryEngine.hpp:268-309 | One call of a node, or one half of a poll, keeps its registry and its connections authentic and everything it has sent honest, when what reaches it is genuine. |
| Network.NetworkAuthenticity | include/softadastra/discovery/engine/DiscoveryEngine.hpp:396-468 | In every reachable state of N engines over a lossy, duplicating, reordering, misattributing network, an entry under id j carries the announce host and port of a node configured with id j, and as timestamp an earlier clock reading of that node; no engine holds its own id. |
| Network.ConnectionsAreAuthentic | include/softadastra/discovery/engine/DiscoveryEngine.hpp:482-510 | In every reachable state every connect_peer call ever made is for another id, at the announce host and port of a node configured with that id. |
| Services.DiscoveryService.Start | include/softadastra/discovery/DiscoveryService.hpp:126-136 | The object's state is the model's after a start: the count becomes the registry's size, which is 0 and the available count when the engine was not running; invalid options change nothing. |
| Services.DiscoveryService.Stop | include/softadastra/discovery/DiscoveryService.hpp:141-145 | Stops the engine and forgets the count. |
| Services.DiscoveryService.AnnounceNow | include/softadastra/discovery/DiscoveryService.hpp:172-175 | The engine announces; nothing else of the service changes. |
| Services.DiscoveryService.ProbeNow | include/softadastra/discovery/DiscoveryService.hpp:182-185 | The engine probes; nothing else of the service changes. |
| Services.DiscoveryService.Poll | include/softadastra/discovery/DiscoveryService.hpp:192-199 | One engine poll and then the notification for a listing of the peers available after it: exactly max(0, available - known) callbacks with a handler installed. |
| Services.DiscoveryService.PollMany | include/softadastra/discovery/DiscoveryService.hpp:207-215 | The same after a batch. |
| Services.DiscoveryService.Peers | include/softadastra/discovery/DiscoveryService.hpp:222-242 | Lists every peer that is Discovered or Alive exactly once, with the host, port and last sighting registered under its id; the validity check drops none, and each costs one clock reading. |
| Services.DiscoveryService.NotifyNewPeers | include/softadastra/discovery/DiscoveryService.hpp:304-335 | The callbacks are for the part of the listing past the known count, none lost to an invalid public peer, each with the host, port and last sighting registered under its id; the known count becomes the available count. |
| Services.AskAll | include/softadastra/discovery/DiscoveryService.hpp:126-245 | Any requests and outside events take the service object along a legal run of the model, with the listings its map gave; from a new service the callbacks number the rises of the available count. |
| Notification.ReportsTheNewIff | include/softadastra/discovery/DiscoveryService.hpp:315-332 | For a given listing the peers reported are exactly the new ones, once each, if and only if the positions already counted hold old peers. |
| Notification.EveryOrderReportsTheNewIff | include/softadastra/discovery/DiscoveryService.hpp:315-332 | Every listing reports exactly the new ones if and only if no peer was known or none is new. |
| ServiceLaws.ServeKeepsConsistent | include/softadastra/discovery/DiscoveryService.hpp:126-215 | The engine stays consistent in every run of a service. |
| ServiceLaws.CallbacksShowTheRegistry | include/softadastra/discovery/Peer.hpp:115-126 | Every callback gives the host, the port and the last sighting registered under its id at the notification. |
| ServiceNetwork.CallbacksAreAuthentic | include/softadastra/discovery/DiscoveryService.hpp:321-332 | In every run of a service that receives what nodes of a network have sent, every callback is for another node, at the announce host and port of a node configured with that id. |
| ServiceNetwork.AnnouncingMakesACallback | include/softadastra/discovery/DiscoveryService.hpp:192-199 | A service with a handler and no counted peers that polls another node's announcement calls back for that node, with its configured host and port and the poll's last reading, in whatever order its map is listed. |
| ServiceLaws.NotificationReportsTheNewIff | include/softadastra/discovery/DiscoveryService.hpp:192-215 | A poll or batch with a handler is certain to call back for exactly the new peers, once each, if and only if the count stood for no peer or no peer is new. |
| ServiceLaws.RunReportsTheNewIff | include/softadastra/discovery/DiscoveryService.hpp:192-215 | The same for the next poll or batch after any run of a new service; the peers the count stands for are those available before the call when the engine is polled and stopped through the service only and not started while running. |
| ServiceLaws.BaseIsAvailable | include/softadastra/discovery/DiscoveryService.hpp:304-335 | In such runs the known count always stands for the peers available at present. |
| ServiceLaws.CallbacksAreRises | include/softadastra/discovery/DiscoveryService.hpp:304-335 | Over any run the callbacks number the sum, over the notifications with a handler, of how far the available peers outnumber those at the last notification, counted afresh after a stop and from the registry after a start. |
| ServiceLaws.CallbacksExceedGrowthByFalls | include/softadastra/discovery/DiscoveryService.hpp:304-335 | While a handler stays installed, the callbacks exceed the net growth of the number of available peers by exactly how far it fell in between. |
| ServiceLaws.ExtendingOrdersReportEachOnce | include/softadastra/discovery/DiscoveryService.hpp:304-335 | If each listing of a run extends the one before, the callbacks' ids follow the first listing in the order of the last. |
| ServiceLaws.ExtendingOrdersReportTheNew | include/softadastra/discovery/DiscoveryService.hpp:304-335 | Then the callbacks of the run are for exactly the peers that became available in it, once each. |
| ServiceWitness.NewPeerCanBeMissed | include/softadastra/discovery/DiscoveryService.hpp:321-332 | A new service is started, hears a, polls, hears b and polls: the run is legal, the available peers go from a to a and b, and the callbacks are for a twice and never for b. |
| ServiceWitness.SomeServiceMissesANewPeer | include/softadastra/discovery/DiscoveryService.hpp:321-332 | Such a service exists: a concrete configuration and the encoded bytes of two announcements. |

## Left out

- The socket calls, options, timeouts and handles of the Linux and Windows sockets: only opening, sending whole datagrams and receiving a cut datagram remain. Windows reports a cut datagram as an error instead.
- The transport, store, sync and write-ahead-log engines behind the headers: the transport is a running flag, a set of peer ids and a log of connections.
- `DiscoveryClient` and `DiscoveryServer` as classes: their checks are inlined where the engine sends and polls; the retry count and attempt time of an envelope are written but never read, so only the clock reading remains.
- `DiscoveryOptions`, the configuration factories, the `to_string` helpers, `clear` and the single-field getters.
- The registry operations no engine uses (`erase`, `set_state`, the `mark_` and `touch` family by id): each is one branch and one assignment.
- Writing through a pointer returned by `find`: the registry reassigns the entry, so aliasing of that pointer is not captured.
- Starting or stopping the backend behind a running engine's back, which its shared reference permits: no event does it, so in every run the backend runs exactly while the engine does.
- Handlers that call back into the service while being notified, or that are replaced between calls of one poll.
- The values of correlation ids being distinct: nothing in the program needs it.
- Null contexts, move construction, destruction, memory exhaustion and threads.
