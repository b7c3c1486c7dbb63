/** The connect packet: a 4-byte connection type followed by a fixed-size slot
    holding the client's name. The name is kept as its UTF-8 bytes. */
module ConnectPacketCodec {
  import opened Wrappers

  type byte = b: int | 0 <= b < 256

  /** A C# `int`, the underlying type of an enum. */
  type Int32 = v: int | -0x8000_0000 <= v < 0x8000_0000

  /** The values of `ConnectionTypes`; any other `Int32` is a valid, unnamed
      value of the enum. */
  const FirstConnection: Int32 := 0
  const Reconnecting: Int32 := 1

  /** The UTF-8 bytes of "?????", the name of a fresh packet. */
  const DefaultClientName: seq<byte> := [0x3F, 0x3F, 0x3F, 0x3F, 0x3F]

  /** The exceptions the codec can throw: a span shorter than the read, write
      or slice needs, and a copy into a destination shorter than the source. */
  datatype PacketFault = ArgumentOutOfRange | DestinationTooShort

  // ---------------------------------------------------------------------------
  // The connection type on the wire: 4 bytes, little-endian, two's complement
  // ---------------------------------------------------------------------------

  function Pow256(k: nat): (p: nat)
    ensures p >= 1
  {
    if k == 0 then 1 else 256 * Pow256(k - 1)
  }

  /** The `k` low bytes of `u`, least significant first. */
  function LittleEndian(u: nat, k: nat): (bytes: seq<byte>)
    ensures |bytes| == k
  {
    if k == 0 then [] else [u % 256] + LittleEndian(u / 256, k - 1)
  }

  /** The unsigned value of little-endian bytes. */
  function Unsigned(bytes: seq<byte>): (u: nat)
    ensures u < Pow256(|bytes|)
  {
    if bytes == [] then 0
    else
      var rest := Unsigned(bytes[1..]);
      assert 256 * rest <= 256 * (Pow256(|bytes| - 1) - 1);
      bytes[0] + 256 * rest
  }

  lemma {:induction false} UnsignedOfLittleEndian(u: nat, k: nat)
    requires u < Pow256(k)
    ensures Unsigned(LittleEndian(u, k)) == u
  {
    if k > 0 {
      var bytes := LittleEndian(u, k);
      assert bytes[1..] == LittleEndian(u / 256, k - 1);
      assert u / 256 < Pow256(k - 1);
      UnsignedOfLittleEndian(u / 256, k - 1);
    }
  }

  lemma {:induction false} LittleEndianOfUnsigned(bytes: seq<byte>)
    ensures LittleEndian(Unsigned(bytes), |bytes|) == bytes
  {
    if bytes != [] {
      var u := Unsigned(bytes);
      var rest := Unsigned(bytes[1..]);
      assert u % 256 == bytes[0] && u / 256 == rest;
      LittleEndianOfUnsigned(bytes[1..]);
    }
  }

  lemma Pow256Four()
    ensures Pow256(4) == 0x1_0000_0000
  {
    assert Pow256(2) == 65536;
  }

  /** The value of 4 little-endian bytes, written out. */
  lemma UnsignedFour(bytes: seq<byte>)
    requires |bytes| == 4
    ensures Unsigned(bytes) == bytes[0] as int + 256 * bytes[1] as int + 65536 * bytes[2] as int + 16777216 * bytes[3] as int
  {
    assert bytes[1..][1..][1..][1..] == [];
    assert Unsigned(bytes[3..]) == bytes[3];
    assert Unsigned(bytes[2..]) == bytes[2] + 256 * Unsigned(bytes[3..]);
    assert Unsigned(bytes[1..]) == bytes[1] + 256 * Unsigned(bytes[2..]);
  }

  /** The bytes `MemoryMarshal.Write` stores for a connection type: its two's
      complement value modulo 2^32, least significant byte first. */
  function EncodeInt32(v: Int32): (bytes: seq<byte>)
    ensures |bytes| == 4
    ensures Unsigned(bytes) == if v < 0 then v + 0x1_0000_0000 else v
  {
    Pow256Four();
    UnsignedOfLittleEndian(if v < 0 then v + 0x1_0000_0000 else v, 4);
    LittleEndian(if v < 0 then v + 0x1_0000_0000 else v, 4)
  }

  /** The connection type `MemoryMarshal.Read` loads from 4 bytes: negative
      exactly when the top bit of the last byte is set, and congruent to the
      bytes' unsigned value modulo 2^32. */
  function DecodeInt32(bytes: seq<byte>): (v: Int32)
    requires |bytes| == 4
    ensures v < 0 <==> bytes[3] >= 128
    ensures v == Unsigned(bytes) || v == Unsigned(bytes) - 0x1_0000_0000
  {
    Pow256Four();
    UnsignedFour(bytes);
    var u := Unsigned(bytes);
    if u >= 0x8000_0000 then u - 0x1_0000_0000 else u
  }

  lemma DecodeEncode(v: Int32)
    ensures DecodeInt32(EncodeInt32(v)) == v
  {
    Pow256Four();
    UnsignedOfLittleEndian(if v < 0 then v + 0x1_0000_0000 else v, 4);
  }

  lemma EncodeDecode(bytes: seq<byte>)
    requires |bytes| == 4
    ensures EncodeInt32(DecodeInt32(bytes)) == bytes
  {
    Pow256Four();
    LittleEndianOfUnsigned(bytes);
  }

  // ---------------------------------------------------------------------------
  // The name slot
  // ---------------------------------------------------------------------------

  /** The bytes before the first NUL. UTF-8 encodes U+0000 as the byte 0 and
      uses that byte for nothing else, so cutting the bytes here is cutting the
      decoded string at its first NUL character. */
  function TrimNullTerm(s: seq<byte>): (t: seq<byte>)
    ensures t <= s
    ensures 0 !in t
    ensures |t| < |s| ==> s[|t|] == 0
  {
    if s == [] || s[0] == 0 then [] else [s[0]] + TrimNullTerm(s[1..])
  }

  /** Trimming a name followed by more bytes gives the name back exactly when
      the name holds no NUL and the bytes after it end or start with one. */
  lemma TrimNameThen(name: seq<byte>, rest: seq<byte>)
    ensures TrimNullTerm(name + rest) == name <==> 0 !in name && (rest == [] || rest[0] == 0)
  {
    var s := name + rest;
    if 0 !in name && (rest == [] || rest[0] == 0) {
      assert s[..|name|] == name;
    }
  }

  /** Trimming is unaffected by NUL bytes appended after the name. */
  lemma {:induction false} TrimIgnoresTrailingZeros(name: seq<byte>, zeros: seq<byte>)
    requires forall i :: 0 <= i < |zeros| ==> zeros[i] == 0
    ensures TrimNullTerm(name + zeros) == TrimNullTerm(name)
  {
    if name == [] {
      assert zeros == [] || zeros[0] == 0;
    } else {
      assert (name + zeros)[1..] == name[1..] + zeros;
      TrimIgnoresTrailingZeros(name[1..], zeros);
    }
  }

  // ---------------------------------------------------------------------------
  // The packet
  // ---------------------------------------------------------------------------

  /** The two fields of a packet, as values. */
  datatype Fields = Fields(connectionType: Int32, clientName: seq<byte>)

  /** What `Serialize` leaves in a buffer `buf`, and whether it completes. It
      writes the connection type first; a buffer too short for the slot, or a
      name too long for it, then throws. Slot bytes after the name keep their
      old values. */
  function Serialized(buf: seq<byte>, f: Fields, nameSize: nat): (result: (seq<byte>, Outcome<PacketFault>))
    ensures |result.0| == |buf|
    ensures |buf| < 4 ==> result.0 == buf
    ensures result.1.Pass? <==> |buf| >= ConnectPacket.Size(nameSize) && |f.clientName| <= nameSize
    ensures result.1 == Fail(ArgumentOutOfRange) <==> |buf| < ConnectPacket.Size(nameSize)
    ensures result.1 == Fail(DestinationTooShort) <==> |buf| >= ConnectPacket.Size(nameSize) && |f.clientName| > nameSize
    ensures |buf| >= 4 ==> result.0[..4] == EncodeInt32(f.connectionType)
    ensures result.1.Pass? ==> result.0[4..4 + |f.clientName|] == f.clientName
    ensures forall i :: 4 + |f.clientName| <= i < |buf| ==> result.0[i] == buf[i]
    ensures result.1.Fail? ==> forall i :: 4 <= i < |buf| ==> result.0[i] == buf[i]
  {
    if |buf| < 4 then (buf, Fail(ArgumentOutOfRange))
    else
      var typed := EncodeInt32(f.connectionType) + buf[4..];
      if |buf| < 4 + nameSize then (typed, Fail(ArgumentOutOfRange))
      else if |f.clientName| > nameSize then (typed, Fail(DestinationTooShort))
      else (EncodeInt32(f.connectionType) + f.clientName + buf[4 + |f.clientName|..], Pass)
  }

  /** The fields `Deserialize` leaves in a packet whose fields were `before`,
      and whether it completes. The connection type is assigned before the slot
      is sliced, so a buffer too short for the slot still changes it. */
  function Deserialized(buf: seq<byte>, before: Fields, nameSize: nat): (result: (Fields, Outcome<PacketFault>))
    ensures result.1.Pass? <==> |buf| >= ConnectPacket.Size(nameSize)
    ensures result.1.Fail? ==> result.1 == Fail(ArgumentOutOfRange)
    ensures |buf| < 4 ==> result.0 == before
    ensures |buf| >= 4 ==> EncodeInt32(result.0.connectionType) == buf[..4]
    ensures result.1.Fail? ==> result.0.clientName == before.clientName
    ensures result.1.Pass? ==> result.0.clientName <= buf[4..4 + nameSize] && 0 !in result.0.clientName
    ensures result.1.Pass? && |result.0.clientName| < nameSize ==> buf[4 + |result.0.clientName|] == 0
  {
    if |buf| < 4 then (before, Fail(ArgumentOutOfRange))
    else
      var connectionType := DecodeInt32(buf[..4]);
      EncodeDecode(buf[..4]);
      if |buf| < 4 + nameSize then (Fields(connectionType, before.clientName), Fail(ArgumentOutOfRange))
      else (Fields(connectionType, TrimNullTerm(buf[4..4 + nameSize])), Pass)
  }

  class ConnectPacket {
    var connectionType: Int32
    var clientName: seq<byte>

    /** A fresh packet: a first connection, named "?????". */
    constructor ()
      ensures connectionType == FirstConnection && clientName == DefaultClientName
    {
      connectionType := FirstConnection;
      clientName := DefaultClientName;
    }

    /** The packet's size: the same for every packet, whatever its fields. */
    static function Size(nameSize: nat): nat
    {
      4 + nameSize
    }

    function Contents(): Fields
      reads this
    {
      Fields(connectionType, clientName)
    }

    method Serialize(data: array<byte>, nameSize: nat) returns (r: Outcome<PacketFault>)
      modifies data
      ensures (data[..], r) == Serialized(old(data[..]), Contents(), nameSize)
    {
      if data.Length < 4 {
        return Fail(ArgumentOutOfRange);
      }
      var typeBytes := EncodeInt32(connectionType);
      for k := 0 to 4
        invariant forall i :: 0 <= i < data.Length ==> data[i] == (if i < k then typeBytes[i] else old(data[i]))
      {
        data[k] := typeBytes[k];
      }
      assert data[..] == typeBytes + old(data[..])[4..];
      if data.Length < 4 + nameSize {
        return Fail(ArgumentOutOfRange);
      }
      var bytes := clientName;
      if |bytes| > nameSize {
        return Fail(DestinationTooShort);
      }
      for k := 0 to |bytes|
        invariant forall i :: 0 <= i < data.Length ==>
          data[i] == (if i < 4 then typeBytes[i] else if i < 4 + k then bytes[i - 4] else old(data[i]))
      {
        data[4 + k] := bytes[k];
      }
      assert data[..] == typeBytes + bytes + old(data[..])[4 + |bytes|..];
      return Pass;
    }

    method Deserialize(data: array<byte>, nameSize: nat) returns (r: Outcome<PacketFault>)
      modifies this
      ensures (Contents(), r) == Deserialized(data[..], old(Contents()), nameSize)
    {
      if data.Length < 4 {
        return Fail(ArgumentOutOfRange);
      }
      connectionType := DecodeInt32(data[..4]);
      if data.Length < 4 + nameSize {
        return Fail(ArgumentOutOfRange);
      }
      clientName := TrimNullTerm(data[4..4 + nameSize]);
      return Pass;
    }
  }

  // ---------------------------------------------------------------------------
  // Properties
  // ---------------------------------------------------------------------------

  /** `Size` is the buffer length both directions need, whatever the fields:
      a buffer of exactly `Size` bytes takes every name that fits the slot and
      can always be read, and any shorter buffer makes both throw. */
  lemma SizeIsTheBufferNeeded(f: Fields, nameSize: nat)
    ensures forall buf :: |buf| == ConnectPacket.Size(nameSize) ==>
      (Serialized(buf, f, nameSize).1.Pass? <==> |f.clientName| <= nameSize) && Deserialized(buf, f, nameSize).1.Pass?
    ensures forall buf :: |buf| < ConnectPacket.Size(nameSize) ==>
      Serialized(buf, f, nameSize).1.Fail? && Deserialized(buf, f, nameSize).1.Fail?
  {
  }

  /** `Deserialize` reads only the packet's own bytes: two buffers that agree on
      them give the same fields. */
  lemma DeserializeReadsOnlyThePacket(buf: seq<byte>, other: seq<byte>, before: Fields, nameSize: nat)
    requires |buf| >= ConnectPacket.Size(nameSize) && |other| >= ConnectPacket.Size(nameSize)
    requires buf[..ConnectPacket.Size(nameSize)] == other[..ConnectPacket.Size(nameSize)]
    ensures Deserialized(buf, before, nameSize) == Deserialized(other, before, nameSize)
  {
    var n := ConnectPacket.Size(nameSize);
    assert buf[..4] == buf[..n][..4] == other[..n][..4] == other[..4];
    assert buf[4..n] == buf[..n][4..] == other[..n][4..] == other[4..n];
  }

  /** Serializing and then deserializing gives back the connection type, and
      gives back the name exactly when it holds no NUL and the slot byte after
      it (if any) was already NUL. */
  lemma RoundTrip(buf: seq<byte>, f: Fields, before: Fields, nameSize: nat)
    requires |buf| >= ConnectPacket.Size(nameSize) && |f.clientName| <= nameSize
    ensures Deserialized(Serialized(buf, f, nameSize).0, before, nameSize).1 == Pass
    ensures Deserialized(Serialized(buf, f, nameSize).0, before, nameSize).0.connectionType == f.connectionType
    ensures Deserialized(Serialized(buf, f, nameSize).0, before, nameSize).0.clientName == f.clientName
        <==> 0 !in f.clientName && (|f.clientName| == nameSize || buf[4 + |f.clientName|] == 0)
  {
    var out := Serialized(buf, f, nameSize).0;
    var name := f.clientName;
    DecodeEncode(f.connectionType);
    var rest := buf[4 + |name|..4 + nameSize];
    assert out[4..4 + nameSize] == name + rest;
    TrimNameThen(name, rest);
  }

  /** Through a zero-filled buffer, the name comes back cut at its first NUL. */
  lemma RoundTripThroughZeros(buf: seq<byte>, f: Fields, before: Fields, nameSize: nat)
    requires |buf| >= ConnectPacket.Size(nameSize) && |f.clientName| <= nameSize
    requires forall i :: 0 <= i < |buf| ==> buf[i] == 0
    ensures Deserialized(Serialized(buf, f, nameSize).0, before, nameSize)
         == (Fields(f.connectionType, TrimNullTerm(f.clientName)), Pass)
  {
    var out := Serialized(buf, f, nameSize).0;
    var name := f.clientName;
    DecodeEncode(f.connectionType);
    var rest := buf[4 + |name|..4 + nameSize];
    assert out[4..4 + nameSize] == name + rest;
    TrimIgnoresTrailingZeros(name, rest);
  }

  /** Serializing the fields just deserialized from a buffer leaves the buffer
      as it was. */
  lemma ReserializeIsIdentity(buf: seq<byte>, before: Fields, nameSize: nat)
    requires Deserialized(buf, before, nameSize).1.Pass?
    ensures Serialized(buf, Deserialized(buf, before, nameSize).0, nameSize) == (buf, Pass)
  {
    var f := Deserialized(buf, before, nameSize).0;
    EncodeDecode(buf[..4]);
    var out := Serialized(buf, f, nameSize).0;
    assert buf[4..4 + |f.clientName|] == f.clientName;
    assert out == buf;
  }

  /** A fresh packet serialized into a zero-filled buffer with room for its
      name deserializes to a first connection named "?????". */
  lemma FreshPacketRoundTrip(buf: seq<byte>, before: Fields, nameSize: nat)
    requires nameSize >= |DefaultClientName| && |buf| >= ConnectPacket.Size(nameSize)
    requires forall i :: 0 <= i < |buf| ==> buf[i] == 0
    ensures Deserialized(Serialized(buf, Fields(FirstConnection, DefaultClientName), nameSize).0, before, nameSize)
         == (Fields(FirstConnection, DefaultClientName), Pass)
  {
    RoundTripThroughZeros(buf, Fields(FirstConnection, DefaultClientName), before, nameSize);
    assert TrimNullTerm(DefaultClientName) == DefaultClientName by {
      TrimNameThen(DefaultClientName, []);
      assert DefaultClientName + [] == DefaultClientName;
    }
  }
}
