/** The announcement a device sends until the host answers (messages/start_device.hpp). */
module StartDeviceCodec {
  import opened Bytes
  import opened SpanCodec

  const START_DEVICE_SIZE: nat := 34
  const HEADER: Bytes := [101, 115, 112, 110, 111, 119, 111, 110, 108, 105, 110, 117, 120]

  datatype FirmwareVersion = FirmwareVersion(major: byte, minor: byte, patch: byte)

  datatype StartDevice = StartDevice(id: byte, header: Bytes, name: Bytes, version: byte,
                                     firmware: FirmwareVersion, mac: Bytes)
  {
    predicate WellSized() {
      |header| == 13 && |name| == 10 && |mac| == 6
    }
  }

  /** The wire layout, field by field. */
  function Image(m: StartDevice): (b: Bytes)
    requires m.WellSized()
    ensures |b| == START_DEVICE_SIZE
  {
    [m.id] + m.header + m.name + [m.version]
    + [m.firmware.major, m.firmware.minor, m.firmware.patch] + m.mac
  }

  /** The message whose layout begins `b`. */
  function FromImage(b: Bytes): (m: StartDevice)
    requires |b| >= START_DEVICE_SIZE
    ensures m.WellSized()
  {
    StartDevice(b[0], b[1..14], b[14..24], b[24], FirmwareVersion(b[25], b[26], b[27]), b[28..34])
  }

  /** Where each field lies. */
  lemma FieldPositions(m: StartDevice)
    requires m.WellSized()
    ensures var b := Image(m);
      && |b| == 34 && b[0] == m.id && b[1..14] == m.header && b[14..24] == m.name && b[24] == m.version
      && b[25] == m.firmware.major && b[26] == m.firmware.minor && b[27] == m.firmware.patch && b[28..34] == m.mac
  {
    LayoutRoundTrip(m, Image(m), []);
    assert Image(m) + [] == Image(m);
    assert FromImage(Image(m)).id == m.id;
  }

  /** The layout is a bijection between messages and 34-byte strings; what follows is not looked at. */
  lemma LayoutRoundTrip(m: StartDevice, b: Bytes, tail: Bytes)
    requires m.WellSized() && |b| == START_DEVICE_SIZE
    ensures FromImage(Image(m) + tail) == m
    ensures Image(FromImage(b)) == b
  {
    var i := Image(m) + tail;
    assert i[1..14] == m.header && i[14..24] == m.name && i[28..34] == m.mac;
  }

  lemma FromImageOfPrefix(b: Bytes)
    requires |b| >= START_DEVICE_SIZE
    ensures FromImage(b[0..START_DEVICE_SIZE]) == FromImage(b)
  {
    assert b[0..START_DEVICE_SIZE] == b[..START_DEVICE_SIZE];
    SliceOfTake(b, START_DEVICE_SIZE, 1, 14);
    SliceOfTake(b, START_DEVICE_SIZE, 14, 24);
    SliceOfTake(b, START_DEVICE_SIZE, 28, 34);
  }

  method WriteByte(o: ByteOrder, buffer: array<byte>, start: nat, value: byte) returns (next: nat)
    requires start < buffer.Length
    modifies buffer
    ensures next == start + 1
    ensures buffer[..] == old(buffer[..start]) + [value] + old(buffer[next..])
  {
    ByteImage(o, value);
    next := WriteScalar(o, buffer, start, 1, value);
  }

  method WriteBytes(o: ByteOrder, buffer: array<byte>, start: nat, values: Bytes) returns (next: nat)
    requires start + |values| <= buffer.Length
    modifies buffer
    ensures next == start + |values|
    ensures buffer[..] == old(buffer[..start]) + values + old(buffer[next..])
  {
    ByteArrayImage(o, values);
    ExtentIsProduct(|values|, 1);
    next := WriteArray(o, buffer, start, 1, values);
  }

  method ReadByte(o: ByteOrder, buffer: Bytes, start: nat, prior: byte) returns (value: byte, next: nat)
    requires start < |buffer|
    ensures value == buffer[start] && next == start + 1
  {
    hide Pow256, BigEndian, FromBig, Reverse, HostToNetwork, SpanValue, SpanImage;
    ByteImage(o, prior);
    ByteImage(o, buffer[start]);
    var word;
    word, next := ReadScalar(o, buffer, start, 1, prior);
    assert buffer[start..start + 1] == [buffer[start]];
    value := word;
  }

  method ReadBytes(o: ByteOrder, buffer: Bytes, start: nat, prior: Bytes) returns (values: Bytes, next: nat)
    requires start + |prior| <= |buffer|
    ensures next == start + |prior|
    ensures values == buffer[start..next]
  {
    hide Pow256, BigEndian, FromBig, Reverse, HostToNetwork, SpanValue, SpanImage, ArrayImage;
    ByteArrayImage(o, prior);
    ExtentIsProduct(|prior|, 1);
    var words;
    words, next := ReadArray(o, buffer, start, 1, prior);
    ByteArrayImage(o, buffer[start..next]);
    ArrayImageInjective(o, 1, words, buffer[start..next]);
    values := words;
  }

  method WriteFirmwareVersion(o: ByteOrder, buffer: array<byte>, start: nat, v: FirmwareVersion) returns (next: nat)
    requires start + 3 <= buffer.Length
    modifies buffer
    ensures next == start + 3
    ensures buffer[..] == old(buffer[..start]) + [v.major, v.minor, v.patch] + old(buffer[next..])
  {
    ghost var was := buffer[..];
    next := WriteByte(o, buffer, start, v.major);
    ghost var b1 := buffer[..];
    next := WriteByte(o, buffer, next, v.minor);
    Splice(was, b1, buffer[..], start, start + 1, next, [v.major], [v.minor]);
    ghost var b2 := buffer[..];
    next := WriteByte(o, buffer, next, v.patch);
    Splice(was, b2, buffer[..], start, start + 2, next, [v.major] + [v.minor], [v.patch]);
    assert ([v.major] + [v.minor]) + [v.patch] == [v.major, v.minor, v.patch];
  }

  /** Writes the layout at the start of the span, touches nothing else and uses exactly 34 bytes. */
  method Write(o: ByteOrder, buffer: array<byte>, start: nat, m: StartDevice) returns (next: nat)
    requires start + START_DEVICE_SIZE <= buffer.Length
    requires m.WellSized()
    modifies buffer
    ensures next == start + START_DEVICE_SIZE
    ensures buffer[..] == old(buffer[..start]) + Image(m) + old(buffer[next..])
  {
    ghost var was := buffer[..];
    ghost var b0 := was;
    next := WriteByte(o, buffer, start, m.id);
    ghost var b1, image := buffer[..], [m.id];
    next := WriteBytes(o, buffer, next, m.header);
    Splice(was, b1, buffer[..], start, start + 1, next, image, m.header);
    ghost var b2 := buffer[..];
    image := image + m.header;
    next := WriteBytes(o, buffer, next, m.name);
    Splice(was, b2, buffer[..], start, start + 14, next, image, m.name);
    ghost var b3 := buffer[..];
    image := image + m.name;
    next := WriteByte(o, buffer, next, m.version);
    Splice(was, b3, buffer[..], start, start + 24, next, image, [m.version]);
    ghost var b4 := buffer[..];
    image := image + [m.version];
    next := WriteFirmwareVersion(o, buffer, next, m.firmware);
    ghost var fw: Bytes := [m.firmware.major, m.firmware.minor, m.firmware.patch];
    Splice(was, b4, buffer[..], start, start + 25, next, image, fw);
    ghost var b5 := buffer[..];
    image := image + fw;
    next := WriteBytes(o, buffer, next, m.mac);
    Splice(was, b5, buffer[..], start, start + 28, next, image, m.mac);
  }

  lemma SubSlice(b: Bytes, from: nat, to: nat, i: nat, j: nat)
    requires i <= j && from + j <= to <= |b|
    ensures b[from..to][i..j] == b[from + i..from + j]
  {
    assert forall k :: 0 <= k < j - i ==> b[from..to][i..j][k] == b[from + i..from + j][k];
  }

  /** Reads the message at the start of the span, whatever `prior` held. */
  method Read(o: ByteOrder, buffer: Bytes, start: nat, prior: StartDevice) returns (m: StartDevice, next: nat)
    requires start + START_DEVICE_SIZE <= |buffer|
    requires prior.WellSized()
    ensures next == start + START_DEVICE_SIZE
    ensures m == FromImage(buffer[start..next])
    ensures m.id == buffer[start] && m.header == buffer[start + 1..start + 14]
    ensures m.name == buffer[start + 14..start + 24]
    ensures m.version == buffer[start + 24] && m.mac == buffer[start + 28..start + 34]
    ensures m.firmware == FirmwareVersion(buffer[start + 25], buffer[start + 26], buffer[start + 27])
  {
    var id, header, name, version, major, minor, patch, mac;
    id, next := ReadByte(o, buffer, start, prior.id);
    header, next := ReadBytes(o, buffer, next, prior.header);
    name, next := ReadBytes(o, buffer, next, prior.name);
    version, next := ReadByte(o, buffer, next, prior.version);
    major, next := ReadByte(o, buffer, next, prior.firmware.major);
    minor, next := ReadByte(o, buffer, next, prior.firmware.minor);
    patch, next := ReadByte(o, buffer, next, prior.firmware.patch);
    mac, next := ReadBytes(o, buffer, next, prior.mac);
    m := StartDevice(id, header, name, version, FirmwareVersion(major, minor, patch), mac);
    SubSlice(buffer, start, next, 1, 14);
    SubSlice(buffer, start, next, 14, 24);
    SubSlice(buffer, start, next, 28, 34);
    ghost var b := buffer[start..next];
    assert b[0] == id && b[24] == version && b[25] == major && b[26] == minor && b[27] == patch;
  }

  /** A message written and read back is unchanged, even between machines of different byte order. */
  method WriteThenRead(writer: ByteOrder, reader: ByteOrder, buffer: array<byte>, start: nat,
                       m: StartDevice, prior: StartDevice) returns (got: StartDevice, next: nat)
    requires start + START_DEVICE_SIZE <= buffer.Length
    requires m.WellSized() && prior.WellSized()
    modifies buffer
    ensures got == m && next == start + START_DEVICE_SIZE
  {
    next := Write(writer, buffer, start, m);
    ghost var tail := buffer[next..];
    assert buffer[..][start..next] == Image(m) + [];
    LayoutRoundTrip(m, Image(m), []);
    got, next := Read(reader, buffer[..], start, prior);
  }
}
