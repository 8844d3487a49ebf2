/** The wire format of a discovery message: a type byte and four size-prefixed fields. */
module MessageCodec {
  import opened Serializer
  import opened Types

  const MINIMUM_MESSAGE_SIZE: nat := 17

  // ---- The format ----

  function Fields(m: DiscoveryMessage): bytes {
    Field(m.fromNodeId) + (Field(m.toNodeId) + (Field(m.correlationId) + Field(m.payload)))
  }

  /** Invalid messages have no encoding: the encoder returns an empty buffer for them. */
  function Encode(m: DiscoveryMessage): bytes {
    if m.IsValid() then [Code(m.kind)] + Fields(m) else []
  }

  function Parse(data: bytes): Option<DiscoveryMessage> {
    if |data| < MINIMUM_MESSAGE_SIZE then None else
    var (from, afterFrom) :- TakeField(data[1..]);
    var (to, afterTo) :- TakeField(afterFrom);
    var (correlation, afterCorrelation) :- TakeField(afterTo);
    var (payload, rest) :- TakeField(afterCorrelation);
    var m := DiscoveryMessage(FromCode(data[0]), from, to, correlation, payload);
    if rest != [] || !m.IsValid() then None else Some(m)
  }

  /** No field is so long that its size changes in the cast to 32 bits. */
  predicate Fits(m: DiscoveryMessage) {
    && |m.fromNodeId| < U32_LIMIT && |m.toNodeId| < U32_LIMIT
    && |m.correlationId| < U32_LIMIT && |m.payload| < U32_LIMIT
  }

  // ---- Encoder and decoder ----

  method EncodeMessage(message: DiscoveryMessage) returns (data: bytes)
    ensures data == Encode(message)
  {
    if !message.IsValid() {
      return [];
    }
    var buffer := new ByteBuffer();
    buffer.PushBack(Code(message.kind));
    buffer.AppendField(message.fromNodeId);
    buffer.AppendField(message.toNodeId);
    buffer.AppendField(message.correlationId);
    buffer.AppendField(message.payload);
    data := buffer.data;
    assert data == [Code(message.kind)] + Fields(message);
  }

  method MakeDatagram(message: DiscoveryMessage, host: bytes, port: u16) returns (datagram: Datagram)
    ensures datagram.IsValid() <==> message.IsValid() && host != [] && port != 0
    ensures datagram.IsValid() ==> datagram == Datagram(host, port, Encode(message))
    ensures !datagram.IsValid() ==> datagram == NO_DATAGRAM
  {
    if host == [] || port == 0 {
      return NO_DATAGRAM;
    }
    var payload := EncodeMessage(message);
    if payload == [] {
      return NO_DATAGRAM;
    }
    datagram := Datagram(host, port, payload);
  }

  method DecodeMessage(data: bytes) returns (message: Option<DiscoveryMessage>)
    ensures message == Parse(data)
  {
    hide TakeField, ByteReader.Rest, ByteReader.AtEnd;
    if |data| < MINIMUM_MESSAGE_SIZE {
      return None;
    }
    var reader := new ByteReader(data);
    var ok, code := reader.ReadU8();
    if !ok {
      return None;
    }
    ghost var afterCode := reader.Rest();
    assert afterCode == data[1..];
    var from, to, correlation, payload;
    ok, from := reader.ReadField();
    if !ok {
      return None;
    }
    ghost var afterFrom := reader.Rest();
    ok, to := reader.ReadField();
    if !ok {
      return None;
    }
    ghost var afterTo := reader.Rest();
    ok, correlation := reader.ReadField();
    if !ok {
      return None;
    }
    ghost var afterCorrelation := reader.Rest();
    ok, payload := reader.ReadField();
    if !ok || !reader.AtEnd() {
      return None;
    }
    assert TakeField(afterCorrelation) == Some((payload, []));
    var m := DiscoveryMessage(FromCode(code), from, to, correlation, payload);
    if !m.IsValid() {
      return None;
    }
    message := Some(m);
  }

  // ---- The decoder is exactly the inverse of the encoder ----

  /** Accepted bytes and encodable messages correspond one to one: this is round trip and canonical form at once. */
  lemma ParseInvertsEncode(data: bytes, m: DiscoveryMessage)
    ensures Parse(data) == Some(m) <==> m.IsValid() && Fits(m) && data == Encode(m)
  {
    if Parse(data) == Some(m) {
      ParsedFieldsAreEncoded(data, m);
    }
    if m.IsValid() && Fits(m) && data == Encode(m) {
      EncodedFieldsAreParsed(data, m);
    }
  }

  lemma ParsedFieldsAreEncoded(data: bytes, m: DiscoveryMessage)
    requires Parse(data) == Some(m)
    ensures m.IsValid() && Fits(m) && data == Encode(m)
  {
    hide TakeField, Field;
    var (from, afterFrom) := TakeField(data[1..]).value;
    var (to, afterTo) := TakeField(afterFrom).value;
    var (correlation, afterCorrelation) := TakeField(afterTo).value;
    var (payload, rest) := TakeField(afterCorrelation).value;
    TakeFieldInverse(data[1..], from, afterFrom);
    TakeFieldInverse(afterFrom, to, afterTo);
    TakeFieldInverse(afterTo, correlation, afterCorrelation);
    TakeFieldInverse(afterCorrelation, payload, []);
    assert data == [data[0]] + data[1..];
    assert afterCorrelation == Field(payload);
  }

  lemma EncodedFieldsAreParsed(data: bytes, m: DiscoveryMessage)
    requires m.IsValid() && Fits(m) && data == Encode(m)
    ensures Parse(data) == Some(m)
  {
    var afterCorrelation := Field(m.payload);
    var afterTo := Field(m.correlationId) + afterCorrelation;
    var afterFrom := Field(m.toNodeId) + afterTo;
    assert data[1..] == Field(m.fromNodeId) + afterFrom;
    assert afterCorrelation == Field(m.payload) + [];
    TakeFieldInverse(data[1..], m.fromNodeId, afterFrom);
    TakeFieldInverse(afterFrom, m.toNodeId, afterTo);
    TakeFieldInverse(afterTo, m.correlationId, afterCorrelation);
    TakeFieldInverse(afterCorrelation, m.payload, []);
  }

  /** The bytes of a message: its type as 1, 2 or 3, then sender, recipient, correlation id and payload, one right
      after the other. */
  ghost predicate LaidOut(data: bytes, m: DiscoveryMessage) {
    var to := 5 + |m.fromNodeId|;
    var correlation := to + 4 + |m.toNodeId|;
    var payload := correlation + 4 + |m.correlationId|;
    && |data| == payload + 4 + |m.payload|
    && data[0] == (match m.kind case Announce => 1 case Probe => 2 case Reply => 3 case _ => 0)
    && FieldAt(data, 1, m.fromNodeId)
    && FieldAt(data, to, m.toNodeId)
    && FieldAt(data, correlation, m.correlationId)
    && FieldAt(data, payload, m.payload)
  }

  /** An encoding is these bytes and no others. */
  lemma EncodingIsLaidOut(data: bytes, m: DiscoveryMessage)
    requires (m.kind.Announce? || m.kind.Probe? || m.kind.Reply?) && m.fromNodeId != []
    ensures data == Encode(m) <==> LaidOut(data, m)
  {
    hide Field, FieldAt;
    var to := 5 + |m.fromNodeId|;
    var correlation := to + 4 + |m.toNodeId|;
    var payload := correlation + 4 + |m.correlationId|;
    FieldAtIff(data, 1, m.fromNodeId);
    FieldAtIff(data, to, m.toNodeId);
    FieldAtIff(data, correlation, m.correlationId);
    FieldAtIff(data, payload, m.payload);
    InPieces(data, Code(m.kind), Field(m.fromNodeId), Field(m.toNodeId), Field(m.correlationId), Field(m.payload));
  }

  lemma InPieces(data: bytes, code: byte, a: bytes, b: bytes, c: bytes, d: bytes)
    ensures data == [code] + (a + (b + (c + d)))
       <==> && |data| == 1 + |a| + |b| + |c| + |d|
            && data[0] == code && data[1..1 + |a|] == a && data[1 + |a|..1 + |a| + |b|] == b
            && data[1 + |a| + |b|..1 + |a| + |b| + |c|] == c && data[1 + |a| + |b| + |c|..] == d
  {
    if |data| == 1 + |a| + |b| + |c| + |d| {
      var rest := data[1..];
      assert data == [data[0]] + rest;
      PiecesOf(rest, a, b + (c + d));
      PiecesOf(rest[|a|..], b, c + d);
      PiecesOf(rest[|a|..][|b|..], c, d);
    }
  }

  lemma PiecesOf(data: bytes, a: bytes, b: bytes)
    requires |data| == |a| + |b|
    ensures data == a + b <==> data[..|a|] == a && data[|a|..] == b
  {
    assert data == data[..|a|] + data[|a|..];
  }

  /** Decoding accepts exactly the laid-out bytes of a message of one of the three types with a sender, and no
      field of 2^32 bytes or more. */
  lemma ParsesIffLaidOut(data: bytes, m: DiscoveryMessage)
    ensures Parse(data) == Some(m)
       <==> && (m.kind.Announce? || m.kind.Probe? || m.kind.Reply?) && m.fromNodeId != []
            && |m.fromNodeId| < U32_LIMIT && |m.toNodeId| < U32_LIMIT
            && |m.correlationId| < U32_LIMIT && |m.payload| < U32_LIMIT
            && LaidOut(data, m)
  {
    hide Parse, LaidOut, Encode;
    ParseInvertsEncode(data, m);
    if (m.kind.Announce? || m.kind.Probe? || m.kind.Reply?) && m.fromNodeId != [] {
      EncodingIsLaidOut(data, m);
    }
  }

  /** Decoding what was encoded gives the message back exactly when it is valid and every field fits 32 bits. */
  lemma RoundTrip(m: DiscoveryMessage)
    ensures Parse(Encode(m)) == Some(m) <==> m.IsValid() && Fits(m)
    ensures m.IsValid() ==>
              |Encode(m)| == 17 + |m.fromNodeId| + |m.toNodeId| + |m.correlationId| + |m.payload|
  {
    ParseInvertsEncode(Encode(m), m);
  }

  /** The length written is never cut, so an encoding below the 32-bit limit always decodes to its message. */
  lemma ShortEncodingsRoundTrip(m: DiscoveryMessage)
    requires m.IsValid() && |Encode(m)| < U32_LIMIT
    ensures Fits(m) && Parse(Encode(m)) == Some(m)
  {
    RoundTrip(m);
  }

  /** No two byte strings decode to the same message. */
  lemma Canonical(a: bytes, b: bytes)
    requires Parse(a).Some? && Parse(a) == Parse(b)
    ensures a == b
  {
    ParseInvertsEncode(a, Parse(a).value);
    ParseInvertsEncode(b, Parse(a).value);
  }

  /** The format delimits itself: an accepted byte string has no accepted strict prefix and no accepted strict
      extension. */
  lemma SelfDelimiting(data: bytes, more: bytes)
    requires Parse(data).Some?
    ensures Parse(data + more).Some? ==> more == []
  {
    var (_, afterFrom) := TakeField(data[1..]).value;
    var (_, afterTo) := TakeField(afterFrom).value;
    var (_, afterCorrelation) := TakeField(afterTo).value;
    assert (data + more)[1..] == data[1..] + more;
    TakeFieldExtends(data[1..], more);
    TakeFieldExtends(afterFrom, more);
    TakeFieldExtends(afterTo, more);
    TakeFieldExtends(afterCorrelation, more);
  }

  lemma NothingIsNoMessage()
    ensures Parse([]) == None
  {
  }

  /** What a receive with a buffer of limit bytes keeps of a datagram. */
  function Truncate(data: bytes, limit: nat): bytes {
    if |data| <= limit then data else data[..limit]
  }

  /** A datagram cut by the receive buffer is rejected; it never turns into another message. */
  lemma TruncationNeverAlters(data: bytes, limit: nat)
    requires Parse(data).Some?
    ensures Parse(Truncate(data, limit)) == if |data| <= limit then Parse(data) else None
  {
    hide Parse;
    if limit < |data| && Parse(data[..limit]).Some? {
      assert data == data[..limit] + data[limit..];
      SelfDelimiting(data[..limit], data[limit..]);
      assert false;
    }
  }
}
