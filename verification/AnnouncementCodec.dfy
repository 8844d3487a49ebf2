/** The wire format of an announcement payload: node id, host, 16-bit port, 64-bit signed timestamp. */
module AnnouncementCodec {
  import opened Serializer
  import opened Types

  // ---- The format ----

  function Encode(a: DiscoveryAnnouncement): bytes {
    if a.IsValid() then Field(a.nodeId) + Field(a.host) + U16(a.port) + I64(a.timestamp) else []
  }

  function Parse(data: bytes): Option<DiscoveryAnnouncement> {
    var (nodeId, afterId) :- TakeField(data);
    var (host, tail) :- TakeField(afterId);
    ParseTail(nodeId, host, tail)
  }

  /** The fixed-size end of the payload, once both strings have been read. */
  function ParseTail(nodeId: bytes, host: bytes, tail: bytes): Option<DiscoveryAnnouncement> {
    if |tail| != 10 then None else
    var a := DiscoveryAnnouncement(nodeId, host, U16Value(tail[..2]), I64Value(tail[2..]));
    if a.IsValid() then Some(a) else None
  }

  predicate Fits(a: DiscoveryAnnouncement) {
    |a.nodeId| < U32_LIMIT && |a.host| < U32_LIMIT
  }

  // ---- Encoder and decoder ----

  method EncodeAnnouncement(announcement: DiscoveryAnnouncement) returns (data: bytes)
    ensures data == Encode(announcement)
  {
    hide Field, U16, I64;
    if !announcement.IsValid() {
      return [];
    }
    var buffer := new ByteBuffer();
    buffer.AppendField(announcement.nodeId);
    buffer.AppendField(announcement.host);
    buffer.AppendU16(announcement.port);
    buffer.AppendI64(announcement.timestamp);
    data := buffer.data;
  }

  method DecodeAnnouncement(data: bytes) returns (announcement: Option<DiscoveryAnnouncement>)
    ensures announcement == Parse(data)
  {
    if data == [] {
      return None;
    }
    hide TakeField, U16Value, I64Value, ByteReader.Rest;
    var reader := new ByteReader(data);
    var ok, nodeId := reader.ReadField();
    if !ok {
      return None;
    }
    var host;
    ok, host := reader.ReadField();
    if !ok {
      return None;
    }
    var port, timestamp;
    ok, port, timestamp := ReadTail(reader);
    if !ok {
      return None;
    }
    var a := DiscoveryAnnouncement(nodeId, host, port, timestamp);
    if !a.IsValid() {
      return None;
    }
    announcement := Some(a);
  }

  /** Reads the port and the timestamp; succeeds only when nothing is left after them. */
  method ReadTail(reader: ByteReader) returns (ok: bool, port: u16, timestamp: i64)
    requires reader.Valid()
    modifies reader`offset
    ensures ok <==> |old(reader.Rest())| == 10
    ensures ok ==> port == U16Value(old(reader.Rest())[..2]) && timestamp == I64Value(old(reader.Rest())[2..])
  {
    hide U16Value, I64Value;
    ghost var tail := reader.Rest();
    timestamp := 0;
    ok, port := reader.ReadU16();
    if !ok {
      return;
    }
    assert reader.Rest() == tail[2..];
    ok, timestamp := reader.ReadI64();
    ok := ok && reader.AtEnd();
    assert ok ==> tail[2..][..8] == tail[2..];
  }

  // ---- The decoder is exactly the inverse of the encoder ----

  lemma TailInverse(tail: bytes, port: u16, timestamp: i64)
    ensures |tail| == 10 && U16Value(tail[..2]) == port && I64Value(tail[2..]) == timestamp
            <==> tail == U16(port) + I64(timestamp)
  {
    if |tail| == 10 {
      U16Inverse(port, tail[..2]);
      I64Inverse(timestamp, tail[2..]);
      assert tail == tail[..2] + tail[2..];
      if tail == U16(port) + I64(timestamp) {
        assert tail[..2] == U16(port) && tail[2..] == I64(timestamp);
      }
    }
  }

  /** Accepted payloads and encodable announcements correspond one to one. */
  lemma ParseInvertsEncode(data: bytes, a: DiscoveryAnnouncement)
    ensures Parse(data) == Some(a) <==> a.IsValid() && Fits(a) && data == Encode(a)
  {
    var tail := U16(a.port) + I64(a.timestamp);
    TailInverse(tail, a.port, a.timestamp);
    hide TakeField, Field, U16, I64, U16Value, I64Value;
    if Parse(data) == Some(a) {
      var (nodeId, afterId) := TakeField(data).value;
      var (host, rest) := TakeField(afterId).value;
      TakeFieldInverse(data, nodeId, afterId);
      TakeFieldInverse(afterId, host, rest);
      TailInverse(rest, a.port, a.timestamp);
      assert data == Field(a.nodeId) + (Field(a.host) + tail);
    }
    if a.IsValid() && Fits(a) && data == Encode(a) {
      assert data == Field(a.nodeId) + (Field(a.host) + tail);
      TakeFieldInverse(data, a.nodeId, Field(a.host) + tail);
      TakeFieldInverse(Field(a.host) + tail, a.host, tail);
    }
  }

  /** The bytes of an announcement: node id and host with their sizes, two bytes of port, eight of timestamp. */
  ghost predicate LaidOut(data: bytes, a: DiscoveryAnnouncement) {
    var host := 4 + |a.nodeId|;
    var port := host + 4 + |a.host|;
    && |data| == port + 10
    && FieldAt(data, 0, a.nodeId)
    && FieldAt(data, host, a.host)
    && LittleEndian(data[port..port + 2]) == a.port
    && LittleEndian(data[port + 2..]) == a.timestamp
  }

  /** An encoding is these bytes and no others. */
  lemma EncodingIsLaidOut(data: bytes, a: DiscoveryAnnouncement)
    requires a.nodeId != [] && a.host != [] && a.port > 0 && a.timestamp > 0
    ensures data == Encode(a) <==> LaidOut(data, a)
  {
    hide Field, U16, I64, LittleEndian;
    var host := 4 + |a.nodeId|;
    var port := host + 4 + |a.host|;
    FieldAtIff(data, 0, a.nodeId);
    FieldAtIff(data, host, a.host);
    U16OnTheWire(a.port);
    I64OnTheWire(a.timestamp);
    hide FieldAt;
    if |data| == port + 10 {
      assert data == data[..host] + data[host..port] + data[port..port + 2] + data[port + 2..];
      if LaidOut(data, a) {
        LittleEndianIsOneToOne(data[port..port + 2], U16(a.port));
        LittleEndianIsOneToOne(data[port + 2..], I64(a.timestamp));
      }
      if data == Encode(a) {
        assert data[port..port + 2] == U16(a.port) && data[port + 2..] == I64(a.timestamp);
      }
    }
  }

  /** Decoding accepts exactly the laid-out bytes of an announcement with a node id, a host, a port and a positive
      timestamp, and no field of 2^32 bytes or more. */
  lemma ParsesIffLaidOut(data: bytes, a: DiscoveryAnnouncement)
    ensures Parse(data) == Some(a)
       <==> && a.nodeId != [] && a.host != [] && a.port > 0 && a.timestamp > 0
            && |a.nodeId| < U32_LIMIT && |a.host| < U32_LIMIT
            && LaidOut(data, a)
  {
    hide Parse, LaidOut, Encode;
    ParseInvertsEncode(data, a);
    if a.nodeId != [] && a.host != [] && a.port > 0 && a.timestamp > 0 {
      EncodingIsLaidOut(data, a);
    }
  }

  lemma RoundTrip(a: DiscoveryAnnouncement)
    ensures Parse(Encode(a)) == Some(a) <==> a.IsValid() && Fits(a)
    ensures a.IsValid() ==> |Encode(a)| == 18 + |a.nodeId| + |a.host|
  {
    ParseInvertsEncode(Encode(a), a);
  }

  /** No two payloads decode to the same announcement. */
  lemma Canonical(a: bytes, b: bytes)
    requires Parse(a).Some? && Parse(a) == Parse(b)
    ensures a == b
  {
    ParseInvertsEncode(a, Parse(a).value);
    ParseInvertsEncode(b, Parse(a).value);
  }

  /** An accepted payload has no accepted strict prefix and no accepted strict extension. */
  lemma SelfDelimiting(data: bytes, more: bytes)
    requires Parse(data).Some?
    ensures Parse(data + more).Some? ==> more == []
  {
    TakeFieldExtends(data, more);
    TakeFieldExtends(TakeField(data).value.1, more);
  }
}
