/** Bytes, and the fixed-width integers and size-prefixed fields that both wire formats are made of. */
module Serializer {

  datatype Option<+T> = None | Some(value: T) {
    predicate IsFailure() {
      None?
    }

    function PropagateFailure<U>(): Option<U>
      requires None?
    {
      None
    }

    function Extract(): T
      requires Some?
    {
      value
    }
  }

  type byte = x: int | 0 <= x < 0x100
  /** A byte vector. The program's std::string values are byte strings too: they go on the wire unchanged. */
  type bytes = seq<byte>

  type u16 = x: int | 0 <= x < 0x1_0000
  type i64 = x: int | -0x8000_0000_0000_0000 <= x < 0x8000_0000_0000_0000

  const U32_LIMIT: int := 0x1_0000_0000
  const I64_MODULUS: int := 0x1_0000_0000_0000_0000

  // ---- What the integers look like on the wire (least significant byte first) ----

  function U16(v: u16): (b: bytes)
    ensures |b| == 2
  {
    [v % 0x100, v / 0x100]
  }

  function U16Value(b: bytes): (v: u16)
    requires |b| == 2
  {
    b[0] as int + 0x100 * (b[1] as int)
  }

  function U32(v: nat): (b: bytes)
    requires v < U32_LIMIT
    ensures |b| == 4
  {
    U16(v % 0x1_0000) + U16(v / 0x1_0000)
  }

  function U32Value(b: bytes): (v: nat)
    requires |b| == 4
    ensures v < U32_LIMIT
  {
    U16Value(b[..2]) + 0x1_0000 * U16Value(b[2..])
  }

  /** Two's complement. */
  function I64(v: i64): (b: bytes)
    ensures |b| == 8
  {
    var u := if v < 0 then v + I64_MODULUS else v;
    U32(u % U32_LIMIT) + U32(u / U32_LIMIT)
  }

  function I64Value(b: bytes): (v: i64)
    requires |b| == 8
  {
    var u := U32Value(b[..4]) + U32_LIMIT * U32Value(b[4..]);
    if u < I64_MODULUS / 2 then u else u - I64_MODULUS
  }

  lemma U16Inverse(v: u16, b: bytes)
    requires |b| == 2
    ensures U16Value(b) == v <==> b == U16(v)
  {
    if U16Value(b) == v {
      assert b == [b[0], b[1]];
    }
  }

  lemma U32Inverse(v: nat, b: bytes)
    requires v < U32_LIMIT && |b| == 4
    ensures U32Value(b) == v <==> b == U32(v)
  {
    U16Inverse(v % 0x1_0000, b[..2]);
    U16Inverse(v / 0x1_0000, b[2..]);
    assert b == b[..2] + b[2..];
    if b == U32(v) {
      assert b[..2] == U16(v % 0x1_0000) && b[2..] == U16(v / 0x1_0000);
    }
  }

  lemma I64Inverse(v: i64, b: bytes)
    requires |b| == 8
    ensures I64Value(b) == v <==> b == I64(v)
  {
    var u := if v < 0 then v + I64_MODULUS else v;
    U32Inverse(u % U32_LIMIT, b[..4]);
    U32Inverse(u / U32_LIMIT, b[4..]);
    assert b == b[..4] + b[4..];
    if b == I64(v) {
      assert b[..4] == U32(u % U32_LIMIT) && b[4..] == U32(u / U32_LIMIT);
    }
  }

  // ---- The integers, said without the functions above ----

  /** The number whose base-256 digits are b, least significant first. */
  function LittleEndian(b: bytes): nat {
    if b == [] then 0 else b[0] + 0x100 * LittleEndian(b[1..])
  }

  lemma {:induction false} LittleEndianSum(a: bytes, b: bytes, weight: nat)
    requires weight == Weight(|a|)
    ensures LittleEndian(a + b) == LittleEndian(a) + weight * LittleEndian(b)
  {
    if a == [] {
      assert a + b == b;
    } else {
      assert (a + b)[1..] == a[1..] + b;
      LittleEndianSum(a[1..], b, Weight(|a| - 1));
      Regroup(Weight(|a| - 1), LittleEndian(b));
    }
  }

  lemma Regroup(weight: nat, n: nat)
    ensures 0x100 * (weight * n) == (0x100 * weight) * n
  {
  }

  /** What a byte is worth after n others. */
  function Weight(n: nat): nat {
    if n == 0 then 1 else 0x100 * Weight(n - 1)
  }

  lemma U16OnTheWire(v: u16)
    ensures LittleEndian(U16(v)) == v
  {
    var b := U16(v);
    assert b[1..] == [b[1]];
    assert LittleEndian([b[1]]) == b[1];
  }

  lemma U32OnTheWire(v: nat)
    requires v < U32_LIMIT
    ensures LittleEndian(U32(v)) == v
  {
    U16OnTheWire(v % 0x1_0000);
    U16OnTheWire(v / 0x1_0000);
    LittleEndianSum(U16(v % 0x1_0000), U16(v / 0x1_0000), 0x1_0000);
  }

  lemma I64OnTheWire(v: i64)
    ensures LittleEndian(I64(v)) == if v < 0 then v + I64_MODULUS else v
  {
    hide U32;
    var u := if v < 0 then v + I64_MODULUS else v;
    U32OnTheWire(u % U32_LIMIT);
    U32OnTheWire(u / U32_LIMIT);
    assert Weight(4) == U32_LIMIT;
    LittleEndianSum(U32(u % U32_LIMIT), U32(u / U32_LIMIT), U32_LIMIT);
  }

  /** Digits of equal number are determined by their value. */
  lemma {:induction false} LittleEndianIsOneToOne(a: bytes, b: bytes)
    requires |a| == |b| && LittleEndian(a) == LittleEndian(b)
    ensures a == b
  {
    if a != [] {
      assert a[0] == LittleEndian(a) % 0x100 && b[0] == LittleEndian(b) % 0x100;
      LittleEndianIsOneToOne(a[1..], b[1..]);
      assert a == [a[0]] + a[1..] && b == [b[0]] + b[1..];
    }
  }

  /** From this position on: a four-byte size, which is that of v up to the cast, and all of v. */
  ghost predicate FieldAt(data: bytes, at: nat, v: bytes) {
    && at + 4 + |v| <= |data|
    && LittleEndian(data[at..at + 4]) == |v| % 0x1_0000_0000
    && data[at + 4..at + 4 + |v|] == v
  }

  lemma FieldAtIff(data: bytes, at: nat, v: bytes)
    ensures FieldAt(data, at, v) <==> at + 4 + |v| <= |data| && data[at..at + 4 + |v|] == Field(v)
  {
    hide U32;
    U32OnTheWire(|v| % U32_LIMIT);
    if at + 4 + |v| <= |data| {
      var here := data[at..at + 4 + |v|];
      assert here[..4] == data[at..at + 4] && here[4..] == data[at + 4..at + 4 + |v|];
      assert here == here[..4] + here[4..];
      if FieldAt(data, at, v) {
        LittleEndianIsOneToOne(data[at..at + 4], U32(|v| % U32_LIMIT));
      }
      if here == Field(v) {
        assert Field(v)[..4] == U32(|v| % U32_LIMIT) && Field(v)[4..] == v;
      }
    }
  }

  // ---- Size-prefixed fields ----

  /** A field on the wire: its size cast to 32 bits, then all of its bytes. */
  function Field(v: bytes): (b: bytes)
    ensures |b| == 4 + |v|
  {
    U32(|v| % U32_LIMIT) + v
  }

  /** Reads one field off the front of b: its value and what follows it. */
  function TakeField(b: bytes): Option<(bytes, bytes)> {
    if |b| < 4 then None else
    var size := U32Value(b[..4]);
    if |b| - 4 < size then None else Some((b[4..4 + size], b[4 + size..]))
  }

  /** Reading inverts writing exactly on the values whose size survives the cast to 32 bits. */
  lemma TakeFieldInverse(b: bytes, v: bytes, rest: bytes)
    ensures TakeField(b) == Some((v, rest)) <==> |v| < U32_LIMIT && b == Field(v) + rest
  {
    hide U32, U32Value;
    if TakeField(b) == Some((v, rest)) {
      U32Inverse(|v|, b[..4]);
      assert b == b[..4] + b[4..4 + |v|] + b[4 + |v|..];
    }
    if |v| < U32_LIMIT && b == Field(v) + rest {
      assert b[..4] == U32(|v|);
      U32Inverse(|v|, b[..4]);
    }
  }

  /** A field that can be read is read the same way whatever comes after it. */
  lemma TakeFieldExtends(b: bytes, more: bytes)
    requires TakeField(b).Some?
    ensures TakeField(b + more) == Some((TakeField(b).value.0, TakeField(b).value.1 + more))
  {
    var (v, rest) := TakeField(b).value;
    TakeFieldInverse(b, v, rest);
    TakeFieldInverse(b + more, v, rest + more);
    assert b + more == Field(v) + (rest + more);
  }

  // ---- The buffer an encoder appends to ----

  class ByteBuffer {
    var data: bytes

    constructor ()
      ensures data == []
    {
      data := [];
    }

    method PushBack(b: byte)
      modifies this
      ensures data == old(data) + [b]
    {
      data := data + [b];
    }

    method Insert(v: bytes)
      modifies this
      ensures data == old(data) + v
    {
      data := data + v;
    }

    method AppendU16(v: u16)
      modifies this
      ensures data == old(data) + U16(v)
    {
      PushBack(v % 0x100);
      PushBack(v / 0x100);
    }

    method AppendU32(v: nat)
      requires v < U32_LIMIT
      modifies this
      ensures data == old(data) + U32(v)
    {
      AppendU16(v % 0x1_0000);
      AppendU16(v / 0x1_0000);
    }

    method AppendI64(v: i64)
      modifies this
      ensures data == old(data) + I64(v)
    {
      var u := if v < 0 then v + I64_MODULUS else v;
      AppendU32(u % U32_LIMIT);
      AppendU32(u / U32_LIMIT);
    }

    /** append_string and append_bytes: the size goes through a cast to 32 bits, the bytes do not. */
    method AppendField(v: bytes)
      modifies this
      ensures data == old(data) + Field(v)
    {
      AppendU32(|v| % U32_LIMIT);
      Insert(v);
    }
  }

  // ---- The cursor a decoder advances ----

  class ByteReader {
    const data: bytes
    var offset: nat

    ghost predicate Valid()
      reads this
    {
      offset <= |data|
    }

    /** The bytes not yet read. */
    ghost function Rest(): bytes
      requires Valid()
      reads this
    {
      data[offset..]
    }

    constructor (data: bytes)
      ensures Valid() && Rest() == data && this.data == data
    {
      this.data := data;
      offset := 0;
    }

    predicate AtEnd()
      requires Valid()
      reads this
      ensures AtEnd() <==> Rest() == []
    {
      offset == |data|
    }

    predicate CanRead(size: nat)
      requires Valid()
      reads this
    {
      size <= |data| - offset
    }

    method ReadU8() returns (ok: bool, v: byte)
      requires Valid()
      modifies this`offset
      ensures Valid()
      ensures ok == (|old(Rest())| >= 1)
      ensures ok ==> old(Rest()) == [v] + Rest()
    {
      ok, v := CanRead(1), 0;
      if ok {
        v := data[offset];
        offset := offset + 1;
      }
    }

    method ReadU16() returns (ok: bool, v: u16)
      requires Valid()
      modifies this`offset
      ensures Valid()
      ensures ok == (|old(Rest())| >= 2)
      ensures ok ==> v == U16Value(old(Rest())[..2]) && Rest() == old(Rest())[2..]
    {
      ok, v := CanRead(2), 0;
      if ok {
        v := data[offset] as int + 0x100 * (data[offset + 1] as int);
        offset := offset + 2;
      }
    }

    method ReadU32() returns (ok: bool, v: nat)
      requires Valid()
      modifies this`offset
      ensures Valid()
      ensures ok == (|old(Rest())| >= 4)
      ensures ok ==> v == U32Value(old(Rest())[..4]) && offset == old(offset) + 4
      ensures !ok ==> offset == old(offset)
    {
      ok, v := CanRead(4), 0;
      if ok {
        var b := data[offset..offset + 4];
        assert b == Rest()[..4];
        v := U32Value(b);
        offset := offset + 4;
      }
    }

    method ReadI64() returns (ok: bool, v: i64)
      requires Valid()
      modifies this`offset
      ensures Valid()
      ensures ok == (|old(Rest())| >= 8)
      ensures ok ==> v == I64Value(old(Rest())[..8]) && Rest() == old(Rest())[8..]
    {
      ok, v := CanRead(8), 0;
      if ok {
        var b := data[offset..offset + 8];
        assert b == Rest()[..8];
        v := I64Value(b);
        offset := offset + 8;
      }
    }

    /** read_string and read_bytes: the size, the bounds check, the bytes. */
    method ReadField() returns (ok: bool, v: bytes)
      requires Valid()
      modifies this`offset
      ensures Valid()
      ensures ok == TakeField(old(Rest())).Some?
      ensures ok ==> TakeField(old(Rest())) == Some((v, Rest()))
    {
      v := [];
      ghost var before := Rest();
      var size;
      ok, size := ReadU32();
      if !ok {
        return;
      }
      ok := CanRead(size);
      if ok {
        ghost var start := offset - 4;
        assert before == data[start..];
        v := data[offset..offset + size];
        assert v == before[4..4 + size];
        offset := offset + size;
        assert Rest() == before[4 + size..];
      }
    }
  }
}
