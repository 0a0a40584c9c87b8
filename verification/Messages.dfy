/** Message identifiers and the two variable-length packet formats of messages/. */
module Messages {
  import opened Bytes
  import opened SpanCodec
  import opened StartDeviceCodec

  const START_DEVICE: byte := 0
  const START_HOST: byte := 1
  const LOG_INFO: byte := 73
  const LOG_INFO_UART: byte := 105
  const RECEIVED_PACKET: byte := 82
  const PACKET_TO_SEND: byte := 83
  const PING: byte := 80
  const NEWLINE: byte := 10

  const PACKET_HEADER: nat := 11

  datatype Packet = Packet(mac: Bytes, data: Bytes) {
    predicate Valid() {
      |mac| == 6 && |data| < TWO_32
    }
  }

  /** The layout both packet formats share: identifier, address, big-endian length, payload. */
  function PacketImage(id: byte, p: Packet): (b: Bytes)
    requires |p.mac| == 6
    ensures |b| == PACKET_HEADER + |p.data|
  {
    [id] + p.mac + BigEndian(4, |p.data|) + p.data
  }

  /** The length a packet header declares. */
  function DeclaredLength(b: Bytes): (n: nat)
    requires |b| >= PACKET_HEADER
    ensures n < TWO_32
  {
    WordWidths();
    FromBig(b[7..11])
  }

  /** The packet at the beginning of `b`. */
  function PacketAt(b: Bytes): (p: Packet)
    requires |b| >= PACKET_HEADER && DeclaredLength(b) <= |b| - PACKET_HEADER
    ensures p.Valid() && |p.data| == DeclaredLength(b)
  {
    Packet(b[1..7], b[11..11 + DeclaredLength(b)])
  }

  /** Where each field lies, the length with its first byte counting most. */
  lemma PacketFields(id: byte, p: Packet)
    requires p.Valid()
    ensures var b := PacketImage(id, p);
      && b[0] == id && b[1..7] == p.mac && b[11..] == p.data
      && Word(b[7], b[8], b[9], b[10]) == |p.data|
  {
    var length := BigEndian(4, |p.data|);
    BytesOfWord(|p.data|);
    hide BigEndian;
    Middle([id], p.mac, length + p.data);
    assert PacketImage(id, p) == [id] + p.mac + (length + p.data);
    Middle([id] + p.mac, length, p.data);
    Middle([id] + p.mac + length, p.data, []);
    assert PacketImage(id, p) + [] == PacketImage(id, p);
    assert forall i :: 0 <= i < 4 ==> PacketImage(id, p)[7..11][i] == length[i];
  }

  lemma LengthOfImage(id: byte, p: Packet, tail: Bytes)
    requires p.Valid()
    ensures DeclaredLength(PacketImage(id, p) + tail) == |p.data|
  {
    var length := BigEndian(4, |p.data|);
    Middle([id] + p.mac, length, p.data);
    SliceOfAppend(PacketImage(id, p), tail, 7, 11);
    WordWidths();
    BigRoundTrip(4, |p.data|);
  }

  /** The layout is a bijection between packets and complete images, whatever follows them. */
  lemma PacketRoundTrip(id: byte, p: Packet, b: Bytes, tail: Bytes)
    requires p.Valid()
    requires |b| >= PACKET_HEADER && |b| == PACKET_HEADER + DeclaredLength(b) && b[0] == id
    ensures DeclaredLength(PacketImage(id, p) + tail) == |p.data|
    ensures PacketAt(PacketImage(id, p) + tail) == p
    ensures PacketImage(id, PacketAt(b)) == b
  {
    LengthOfImage(id, p, tail);
    var i := PacketImage(id, p);
    assert i == [id] + p.mac + (BigEndian(4, |p.data|) + p.data);
    Middle([id], p.mac, BigEndian(4, |p.data|) + p.data);
    Middle([id] + p.mac + BigEndian(4, |p.data|), p.data, []);
    assert i + [] == i;
    SliceOfAppend(i, tail, 1, 7);
    SliceOfAppend(i, tail, 11, 11 + |p.data|);
    BigOfBytes(b[7..11]);
    assert b == [id] + b[1..7] + b[7..11] + b[11..];
  }

  /** The serializers append field by field; the length field is stored from memory. */
  method Serialize(o: ByteOrder, id: byte, p: Packet) returns (buffer: Bytes)
    requires |p.mac| == 6
    ensures buffer == PacketImage(id, p)
  {
    hide BigEndian, FromBig, Reverse, Memory, HostToNetwork, Pow256;
    buffer := [];
    buffer := buffer + [id];
    buffer := buffer + p.mac;
    LengthField(o, |p.data|);
    var length := HostToNetwork(o, 4, |p.data| % TWO_32);
    buffer := buffer + Memory(o, 4, length);
    buffer := buffer + p.data;
  }

  /** The stored length is big-endian and is the payload size modulo 2^32. */
  lemma LengthField(o: ByteOrder, n: nat)
    ensures n % TWO_32 < Pow256(4)
    ensures Memory(o, 4, HostToNetwork(o, 4, n % TWO_32)) == BigEndian(4, n)
  {
    hide BigEndian, FromBig, Reverse, Memory, HostToNetwork;
    WordWidths();
    NetworkImage(o, 4, n % TWO_32);
    BigEndianTruncates(4, n % TWO_32, n / TWO_32);
  }

  /** `io<packet_to_send>::deserialize`: skips the identifier and trusts the declared length. */
  method DeserializePacketToSend(o: ByteOrder, buffer: Bytes) returns (p: Packet)
    requires |buffer| >= PACKET_HEADER && DeclaredLength(buffer) <= |buffer| - PACKET_HEADER
    ensures p == PacketAt(buffer)
    ensures p.mac == buffer[1..7] && |p.data| == FromBig(buffer[7..11]) && p.data == buffer[11..11 + |p.data|]
  {
    var b := buffer[1..];
    var mac := b[..6];
    b := b[6..];
    WordWidths();
    NetworkLoad(o, b[..4]);
    assert b[..4] == buffer[7..11];
    var length := HostToNetwork(o, 4, Load(o, b[..4]));
    b := b[4..];
    p := Packet(mac, b[..length]);
    assert buffer[11..11 + length] == buffer[11..][..length];
  }

  /** `io<received_packet>::deserialize`: no identifier, and the length is cut to what is there. */
  function ReceivedBody(b: Bytes): (p: Packet)
    requires |b| >= PACKET_HEADER - 1
    ensures |p.mac| == 6
  {
    var n := FromBig(b[6..10]);
    Packet(b[..6], b[10..if n < |b| - 10 then 10 + n else |b|])
  }

  method DeserializeReceivedPacket(o: ByteOrder, buffer: Bytes) returns (p: Packet)
    requires |buffer| >= PACKET_HEADER - 1
    ensures p == ReceivedBody(buffer)
    ensures p.mac == buffer[..6] && p.data == buffer[10..10 + |p.data|]
    ensures |p.data| == if FromBig(buffer[6..10]) < |buffer| - 10 then FromBig(buffer[6..10]) else |buffer| - 10
  {
    var mac := buffer[..6];
    var b := buffer[6..];
    WordWidths();
    NetworkLoad(o, b[..4]);
    assert b[..4] == buffer[6..10];
    var length := HostToNetwork(o, 4, Load(o, b[..4]));
    b := b[4..];
    p := Packet(mac, b[..if length < |b| then length else |b|]);
    assert p.data == ReceivedBody(buffer).data;
  }

  /** Once the whole packet is there, both readings of it agree. */
  lemma ReceivedBodyIsPacket(b: Bytes)
    requires |b| >= PACKET_HEADER && DeclaredLength(b) <= |b| - PACKET_HEADER
    ensures ReceivedBody(b[1..]) == PacketAt(b)
  {
    assert b[1..][6..10] == b[7..11];
    assert b[1..][10..10 + DeclaredLength(b)] == b[11..11 + DeclaredLength(b)];
  }
}
