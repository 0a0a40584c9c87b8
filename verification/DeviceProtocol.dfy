/** The firmware's receiving side: packets from the host, handed to the radio. */
module DeviceProtocol {
  import opened Bytes
  import opened Framing
  import opened Messages
  import opened ReceivingBuffers

  const JTAG_BUFFER: nat := 512

  function DeviceFramer(d: Bytes): Outcome {
    if d == [] then Need
    else if d[0] == PACKET_TO_SEND then
      if |d| < PACKET_HEADER then Need
      else if DeclaredLength(d) + PACKET_HEADER > |d| then Need
      else Take(PACKET_HEADER + DeclaredLength(d))
    else Junk
  }

  lemma DeviceDelimits()
    ensures Delimits(DeviceFramer)
  {
    forall d, e ensures DelimitsAt(DeviceFramer, d, e) {
      if d != [] && DeviceFramer(d).Take? {
        SliceOfAppend(d, e, 7, 11);
        SliceOfTake(d, DeviceFramer(d).n, 7, 11);
      }
    }
  }

  /** The firmware compares in 32-bit arithmetic. */
  predicate GuardWaits(d: Bytes)
    requires |d| >= PACKET_HEADER
  {
    (DeclaredLength(d) + PACKET_HEADER) % TWO_32 > |d|
  }

  /** Up to this length adding the header size does not wrap. */
  predicate GuardIsExact(d: Bytes) {
    d != [] && d[0] == PACKET_TO_SEND && |d| >= PACKET_HEADER ==> DeclaredLength(d) <= TWO_32 - 12
  }

  /** The guard waits exactly for incomplete packets if and only if the declared length is at most 2^32 - 12. */
  lemma GuardExactness(d: Bytes)
    requires |d| >= PACKET_HEADER && d[0] == PACKET_TO_SEND && |d| < TWO_32
    ensures (GuardWaits(d) <==> DeviceFramer(d).Need?) <==> GuardIsExact(d)
  {
    var n := DeclaredLength(d);
    if n > TWO_32 - 12 {
      assert (n + PACKET_HEADER) % TWO_32 == n + PACKET_HEADER - TWO_32;
    }
  }

  /** A header that declares 2^32 - 1 bytes is taken for a complete packet. */
  lemma GuardWraps(mac: Bytes)
    requires |mac| == 6
    ensures var d := [PACKET_TO_SEND] + mac + [255, 255, 255, 255];
      DeclaredLength(d) == TWO_32 - 1 && !GuardIsExact(d) && !GuardWaits(d) && DeviceFramer(d).Need?
  {
    var length: Bytes := [255, 255, 255, 255];
    var d := [PACKET_TO_SEND] + mac + length;
    assert d[7..11] == length;
    assert length[..3] == [255, 255, 255] && length[..3][..2] == [255, 255] && length[..3][..2][..1] == [255];
    assert length[..3][..2][..1][..0] == [];
    assert FromBig([255]) == FromBig([]) * 256 + 255;
    assert FromBig([255, 255]) == FromBig([255]) * 256 + 255;
    assert FromBig([255, 255, 255]) == FromBig([255, 255]) * 256 + 255;
  }

  lemma GuardIsExactShrinks(x: Bytes, y: Bytes)
    requires x != [] && GuardIsExact(x + y)
    ensures GuardIsExact(x)
  {
    if |x| >= PACKET_HEADER {
      SliceOfAppend(x, y, 7, 11);
    }
  }

  /** Every beginning of a stream of packets within that length meets the guard's hypothesis. */
  lemma DeviceStreamsAreExact(ps: seq<Packet>, stream: Bytes)
    requires forall i :: 0 <= i < |ps| ==> ps[i].Valid() && |ps[i].data| <= TWO_32 - 12
    requires stream <= Flatten(ToDevice(ps))
    ensures AtBoundaries(DeviceFramer, GuardIsExact, stream)
  {
    hide DeviceFramer;
    DeviceDelimits();
    var xs := ToDevice(ps);
    forall i | 0 <= i < |xs| ensures IsFrame(DeviceFramer, xs[i]) {
      ImageIsDeviceFrame(ps[i]);
    }
    forall i, e | 0 <= i < |xs| ensures GuardIsExact(xs[i] + e) {
      LengthOfImage(PACKET_TO_SEND, ps[i], e);
    }
    BoundariesOfFrames(DeviceFramer, GuardIsExact, xs);
    forall x, y | x != [] && GuardIsExact(x + y) ensures GuardIsExact(x) {
      GuardIsExactShrinks(x, y);
    }
    assert Flatten(xs) == stream + Flatten(xs)[|stream|..];
    BoundariesAppend(DeviceFramer, GuardIsExact, stream, Flatten(xs)[|stream|..]);
  }

  /** The packet a frame carries, as handed to `esp_now_send`. */
  function PacketOf(x: Bytes): (p: Packet)
    requires IsFrame(DeviceFramer, x)
    ensures p.Valid()
  {
    assert DeviceFramer(x).Take?;
    PacketAt(x)
  }

  predicate AllPackets(xs: seq<Bytes>) {
    forall i :: 0 <= i < |xs| ==> IsFrame(DeviceFramer, xs[i])
  }

  function Deliveries(xs: seq<Bytes>): (ps: seq<Packet>)
    requires AllPackets(xs)
    ensures |ps| == |xs| && forall i :: 0 <= i < |xs| ==> ps[i] == PacketOf(xs[i])
  {
    if xs == [] then [] else Deliveries(xs[..|xs| - 1]) + [PacketOf(xs[|xs| - 1])]
  }

  /** `io<packet_to_send>::serialize`. */
  function DeviceFrame(p: Packet): (x: Bytes)
    requires p.Valid()
    ensures |x| == PACKET_HEADER + |p.data|
  {
    PacketImage(PACKET_TO_SEND, p)
  }

  function ToDevice(ps: seq<Packet>): (xs: seq<Bytes>)
    requires forall i :: 0 <= i < |ps| ==> ps[i].Valid()
    ensures |xs| == |ps| && forall i :: 0 <= i < |ps| ==> xs[i] == DeviceFrame(ps[i])
  {
    seq(|ps|, i requires 0 <= i < |ps| => DeviceFrame(ps[i]))
  }

  lemma ImageIsDeviceFrame(p: Packet)
    requires p.Valid()
    ensures IsFrame(DeviceFramer, DeviceFrame(p)) && !DeviceFramer([DeviceFrame(p)[0]]).Junk?
    ensures PacketOf(DeviceFrame(p)) == p
  {
    var x := DeviceFrame(p);
    assert x + [] == x;
    LengthOfImage(PACKET_TO_SEND, p, []);
    PacketRoundTrip(PACKET_TO_SEND, p, x, []);
  }

  lemma {:induction false} DeviceFramesOf(d: Bytes)
    ensures AllPackets(Parse(DeviceFramer, d).frames)
    decreases |d|
  {
    DeviceDelimits();
    assert DelimitsAt(DeviceFramer, d, []);
    if d != [] && DeviceFramer(d).Take? {
      DeviceFramesOf(d[DeviceFramer(d).n..]);
    }
  }

  /** The packets the firmware finds in a buffer. */
  function Delivered(d: Bytes): seq<Packet> {
    DeviceFramesOf(d);
    Deliveries(Parse(DeviceFramer, d).frames)
  }

  /**
   * Serialized packets, followed by the beginning of one more and cut anyhow by reads, are
   * delivered exactly and in order, and that beginning stays buffered.
   */
  lemma DeviceChunkIndependence(ps: seq<Packet>, next: Packet, k: nat, chunks: seq<Bytes>)
    requires (forall i :: 0 <= i < |ps| ==> ps[i].Valid()) && next.Valid() && k < |DeviceFrame(next)|
    requires Flatten(chunks) == Flatten(ToDevice(ps)) + DeviceFrame(next)[..k]
    ensures Feed(DeviceFramer, [], chunks) == Parsed(ToDevice(ps), DeviceFrame(next)[..k])
    ensures Delivered(Flatten(chunks)) == ps
  {
    hide DeviceFramer, DeviceFrame, PacketOf, Clean, Feed;
    DeviceDelimits();
    ImageIsDeviceFrame(next);
    BeginningWaits(DeviceFramer, DeviceFrame(next), k);
    forall i | 0 <= i < |ps| ensures IsFrame(DeviceFramer, ToDevice(ps)[i]) && PacketOf(ToDevice(ps)[i]) == ps[i] {
      ImageIsDeviceFrame(ps[i]);
    }
    ParseFrames(DeviceFramer, ToDevice(ps), DeviceFrame(next)[..k]);
    ChunkIndependence(DeviceFramer, Flatten(chunks));
    assert Delivered(Flatten(chunks)) == ps;
  }

  // ---------- the receiver ----------

  class JtagReceiver {
    const order: ByteOrder
    const buffer: ReceivingBuffer
    /** Every packet handed to `esp_now_send`, whether or not the radio took it. */
    ghost var toRadio: seq<Packet>
    ghost var stream: Bytes

    /** All bytes read are those that left the buffer, in order, followed by those still in it. */
    ghost predicate Valid()
      reads this, buffer, buffer.data
    {
      && buffer.Valid() && buffer.data.Length == JTAG_BUFFER
      && buffer.Conserved() && buffer.committed == stream
    }

    /** What was handed to the radio and what is buffered are the reference parser's results. */
    ghost predicate Refines()
      reads this, buffer, buffer.data
      requires Valid()
    {
      AllJunk(DeviceFramer, AfterJunk(DeviceFramer, stream)) ==>
        && toRadio == Delivered(stream)
        && buffer.Contents() == Parse(DeviceFramer, stream).rest
    }

    constructor (order: ByteOrder)
      ensures Valid() && Refines() && toRadio == [] && stream == []
      ensures buffer.writeIndex == 0 && buffer.Writable() == 512
    {
      this.order := order;
      var b := new ReceivingBuffer(JTAG_BUFFER);
      buffer := b;
      toRadio, stream := [], [];
    }

    /** Handles the packet at the beginning of `data`: -1 to wait, 0 for an unknown message. */
    method HandlePacketFromJtag(data: Bytes) returns (processed: int)
      requires 0 < |data| <= JTAG_BUFFER && GuardIsExact(data)
      modifies this`toRadio
      ensures match DeviceFramer(data)
        case Need => processed == -1 && toRadio == old(toRadio)
        case Junk => processed == 0 && toRadio == old(toRadio)
        case Take(n) => processed == n && toRadio == old(toRadio) + [PacketAt(data)]
    {
      if data[0] == PACKET_TO_SEND {
        if |data| < PACKET_HEADER {
          return -1;
        }
        WordWidths();
        NetworkLoad(order, data[7..11]);
        var payloadSize := HostToNetwork(order, 4, Load(order, data[7..11]));
        GuardExactness(data);
        if (payloadSize + PACKET_HEADER) % TWO_32 > |data| {
          return -1;
        }
        var packet := DeserializePacketToSend(order, data);
        toRadio := toRadio + [packet];
        return PACKET_HEADER + |packet.data|;
      }
      return 0;
    }

    /** The inner loop. The data moves to the front only when the loop stops for more bytes. */
    method HandlePackets()
      requires Valid() && AtBoundaries(DeviceFramer, GuardIsExact, buffer.Contents())
      modifies this`toRadio, buffer, buffer.data
      ensures Valid()
      ensures buffer.Contents() == Parse(DeviceFramer, old(buffer.Contents())).rest
      ensures toRadio == old(toRadio) + Delivered(old(buffer.Contents()))
      ensures buffer.writeIndex == if !Clean(DeviceFramer, old(buffer.Contents())) then 0
                                   else if buffer.Contents() == [] then old(buffer.writeIndex)
                                   else |buffer.Contents()|
    {
      hide Parse, DeviceFramer, AtBoundaries, Delivered, Remaining, GuardIsExact, Clean;
      ghost var sent, total := toRadio, buffer.Contents();
      DeviceBegin(sent, total);
      while buffer.readIndex < buffer.writeIndex
        invariant Valid() && buffer.writeIndex == old(buffer.writeIndex)
        invariant Remaining(sent, total, toRadio, buffer.Contents())
        decreases buffer.writeIndex - buffer.readIndex
      {
        ghost var d := buffer.Contents();
        DeviceAdvance(sent, total, toRadio, d);
        var processed := HandlePacketFromJtag(buffer.data[buffer.readIndex..buffer.writeIndex]);
        if processed == -1 {
          buffer.MoveDataToFront();
          return;
        }
        if processed == 0 {
          buffer.Reset();
          return;
        }
        buffer.Consume(processed);
      }
      assert buffer.Contents() == [];
      DeviceFinish(sent, total, toRadio);
    }

    /**
     * One turn of `jtag_receive_task`: a read of `chunk`, possibly empty, and the inner loop. An
     * unknown identifier at a packet boundary empties the buffer from its beginning, whole packets
     * leave it drained where the read ended, and an incomplete packet is moved to the front.
     */
    method Receive(chunk: Bytes)
      requires Valid() && |chunk| <= buffer.Writable()
      requires AtBoundaries(DeviceFramer, GuardIsExact, buffer.Contents() + chunk)
      modifies this, buffer, buffer.data
      ensures Valid() && stream == old(stream) + chunk
      ensures buffer.Contents() == Parse(DeviceFramer, old(buffer.Contents()) + chunk).rest
      ensures toRadio == old(toRadio) + Delivered(old(buffer.Contents()) + chunk)
      ensures buffer.writeIndex == WriteIndexAfter(old(buffer.writeIndex), old(buffer.Contents()), chunk)
      ensures MeetsUnknown(old(buffer.Contents()) + chunk) ==>
        buffer.readIndex == buffer.writeIndex == 0 && buffer.Writable() == 512
      ensures WholePackets(old(buffer.Contents()) + chunk) ==>
        buffer.readIndex == buffer.writeIndex == old(buffer.writeIndex) + |chunk|
      ensures !MeetsUnknown(old(buffer.Contents()) + chunk) && !WholePackets(old(buffer.Contents()) + chunk) ==>
        buffer.readIndex == 0 && buffer.writeIndex == |buffer.Contents()| > 0
      ensures buffer.Writable() == 0 <==> LeavesNoRoom(old(buffer.writeIndex), old(buffer.Contents()), chunk)
      ensures old(Refines()) ==> Refines()
    {
      hide Parse, DeviceFramer, AtBoundaries, AllJunk, AfterJunk, Delivered, GuardIsExact, MeetsUnknown, WholePackets;
      ghost var sent, contents, at, was := toRadio, buffer.Contents(), buffer.writeIndex, stream;
      buffer.Fill(chunk);
      buffer.Commit(|chunk|);
      stream := stream + chunk;
      HandlePackets();
      StreamGrows(sent, contents, chunk, was);
      UnknownIffNotClean(contents + chunk);
      WholeIffDrained(contents + chunk);
      DeviceRoom(at, contents, chunk);
    }
  }

  /** Where the write index ends up: drained, discarded, or moved to the front. */
  function WriteIndexAfter(writeIndex: nat, contents: Bytes, chunk: Bytes): nat {
    var d := contents + chunk;
    if !Clean(DeviceFramer, d) then 0
    else if Parse(DeviceFramer, d).rest == [] then writeIndex + |chunk|
    else |Parse(DeviceFramer, d).rest|
  }

  predicate AllPacketsValid(ps: seq<Packet>) {
    forall i :: 0 <= i < |ps| ==> ps[i].Valid()
  }

  /** The bytes are whole packets, one after another. */
  ghost predicate WholePackets(d: Bytes) {
    exists ps :: AllPacketsValid(ps) && d == Flatten(ToDevice(ps))
  }

  /** After some whole packets comes a byte that is not the packet identifier. */
  ghost predicate MeetsUnknown(d: Bytes) {
    exists ps, tail: Bytes {:trigger Flatten(ToDevice(ps)) + tail} ::
      AllPacketsValid(ps) && d == Flatten(ToDevice(ps)) + tail && tail != [] && tail[0] != 83
  }

  /**
   * A turn leaves no room to read: the read filled the buffer to its end and the buffer held
   * whole packets, or the whole buffer begins with a packet that declares more than it can hold.
   */
  ghost predicate LeavesNoRoom(writeIndex: nat, contents: Bytes, chunk: Bytes) {
    var d := contents + chunk;
    || (writeIndex + |chunk| == 512 && WholePackets(d))
    || (|d| == 512 && d[0] == 83 && DeclaredLength(d) > 501)
  }

  lemma FrameOfPacket(x: Bytes)
    requires IsFrame(DeviceFramer, x)
    ensures DeviceFrame(PacketOf(x)) == x
  {
    assert DeviceFramer(x).Take?;
    PacketRoundTrip(PACKET_TO_SEND, PacketOf(x), x, []);
  }

  lemma FramesOfPackets(xs: seq<Bytes>)
    requires AllPackets(xs)
    ensures ToDevice(Deliveries(xs)) == xs
  {
    forall i | 0 <= i < |xs| ensures DeviceFrame(Deliveries(xs)[i]) == xs[i] {
      FrameOfPacket(xs[i]);
    }
  }

  lemma WholeIffDrained(d: Bytes)
    ensures WholePackets(d) <==> Clean(DeviceFramer, d) && Parse(DeviceFramer, d).rest == []
  {
    DeviceDelimits();
    if Clean(DeviceFramer, d) && Parse(DeviceFramer, d).rest == [] {
      ParseIsLossless(DeviceFramer, d);
      DeviceFramesOf(d);
      var xs := Parse(DeviceFramer, d).frames;
      FramesOfPackets(xs);
      assert Flatten(xs) + [] == Flatten(xs);
      assert AllPacketsValid(Deliveries(xs)) && d == Flatten(ToDevice(Deliveries(xs)));
    }
    if ps :| AllPacketsValid(ps) && d == Flatten(ToDevice(ps)) {
      forall i | 0 <= i < |ps| ensures IsFrame(DeviceFramer, ToDevice(ps)[i]) {
        ImageIsDeviceFrame(ps[i]);
      }
      assert d + [] == d;
      ParseFrames(DeviceFramer, ToDevice(ps), []);
    }
  }

  lemma {:induction false} UnknownIffNotClean(d: Bytes)
    ensures MeetsUnknown(d) <==> !Clean(DeviceFramer, d)
  {
    if !Clean(DeviceFramer, d) {
      var ps, tail := FindUnknown(d);
      assert d == Flatten(ToDevice(ps)) + tail;
    }
    if ps, tail: Bytes :|
      AllPacketsValid(ps) && d == Flatten(ToDevice(ps)) + tail && tail != [] && tail[0] != 83
    {
      UnknownIsNotClean(ps, tail);
    }
  }

  lemma {:induction false} FindUnknown(d: Bytes) returns (ps: seq<Packet>, tail: Bytes)
    requires !Clean(DeviceFramer, d)
    ensures AllPacketsValid(ps) && d == Flatten(ToDevice(ps)) + tail && tail != [] && tail[0] != 83
    decreases |d|
  {
    if DeviceFramer(d).Junk? {
      ps, tail := [], d;
    } else {
      DeviceDelimits();
      assert DelimitsAt(DeviceFramer, d, []);
      var n := DeviceFramer(d).n;
      var more;
      more, tail := FindUnknown(d[n..]);
      hide DeviceFramer, Clean;
      ps := OnePacketMore(d, n, more, tail);
    }
  }

  lemma OnePacketMore(d: Bytes, n: nat, more: seq<Packet>, tail: Bytes) returns (ps: seq<Packet>)
    requires n <= |d| && IsFrame(DeviceFramer, d[..n])
    requires AllPacketsValid(more) && d[n..] == Flatten(ToDevice(more)) + tail
    ensures AllPacketsValid(ps) && d == Flatten(ToDevice(ps)) + tail
  {
    hide DeviceFrame, DeviceFramer, PacketOf;
    var x := d[..n];
    FrameOfPacket(x);
    ps := [PacketOf(x)] + more;
    assert ToDevice(ps) == [x] + ToDevice(more);
    Associative(x, Flatten(ToDevice(more)), tail);
    assert d == x + d[n..];
  }

  lemma {:induction false} UnknownIsNotClean(ps: seq<Packet>, tail: Bytes)
    requires AllPacketsValid(ps) && tail != [] && tail[0] != 83
    ensures !Clean(DeviceFramer, Flatten(ToDevice(ps)) + tail)
  {
    if ps == [] {
      assert Flatten(ToDevice(ps)) + tail == tail;
    } else {
      DeviceDelimits();
      ImageIsDeviceFrame(ps[0]);
      UnknownIsNotClean(ps[1..], tail);
      hide DeviceFrame, DeviceFramer;
      var x, more := DeviceFrame(ps[0]), Flatten(ToDevice(ps[1..])) + tail;
      assert ToDevice(ps) == [x] + ToDevice(ps[1..]);
      Associative(x, Flatten(ToDevice(ps[1..])), tail);
      assert DelimitsAt(DeviceFramer, x, more);
      assert (x + more)[|x|..] == more;
    }
  }

  lemma DeviceRoom(writeIndex: nat, contents: Bytes, chunk: Bytes)
    requires |contents| <= writeIndex && writeIndex + |chunk| <= JTAG_BUFFER
    ensures WriteIndexAfter(writeIndex, contents, chunk) == JTAG_BUFFER <==> LeavesNoRoom(writeIndex, contents, chunk)
  {
    var d := contents + chunk;
    WholeIffDrained(d);
    hide WholePackets;
    DeviceDelimits();
    assert DelimitsAt(DeviceFramer, d, []);
    if d != [] && DeviceFramer(d).Take? {
      assert |Parse(DeviceFramer, d).rest| <= |d[DeviceFramer(d).n..]|;
    }
  }

  /** Having handed out `now` in place of `sent`, the loop has `d` left of the buffer `total`. */
  ghost predicate Remaining(sent: seq<Packet>, total: Bytes, now: seq<Packet>, d: Bytes) {
    && AtBoundaries(DeviceFramer, GuardIsExact, d)
    && sent + Delivered(total) == now + Delivered(d)
    && Parse(DeviceFramer, total).rest == Parse(DeviceFramer, d).rest
    && (Clean(DeviceFramer, total) <==> Clean(DeviceFramer, d))
  }

  lemma DeviceBegin(sent: seq<Packet>, total: Bytes)
    requires AtBoundaries(DeviceFramer, GuardIsExact, total)
    ensures Remaining(sent, total, sent, total)
  {
  }

  lemma DeviceFinish(sent: seq<Packet>, total: Bytes, now: seq<Packet>)
    requires Remaining(sent, total, now, [])
    ensures sent + Delivered(total) == now && Parse(DeviceFramer, total).rest == [] && Clean(DeviceFramer, total)
  {
    assert Delivered([]) == [];
  }

  lemma DeviceAdvance(sent: seq<Packet>, total: Bytes, now: seq<Packet>, d: Bytes)
    requires Remaining(sent, total, now, d) && d != []
    ensures GuardIsExact(d)
    ensures match DeviceFramer(d)
      case Need => sent + Delivered(total) == now && Parse(DeviceFramer, total).rest == d && Clean(DeviceFramer, total)
      case Junk =>
        sent + Delivered(total) == now && Parse(DeviceFramer, total).rest == [] && !Clean(DeviceFramer, total)
      case Take(n) => 1 <= n <= |d| && Remaining(sent, total, now + [PacketAt(d)], d[n..])
  {
    DeviceDelimits();
    assert DelimitsAt(DeviceFramer, d, []);
    if DeviceFramer(d).Take? {
      var n := DeviceFramer(d).n;
      DeliveredStep(d);
      assert now + ([PacketAt(d)] + Delivered(d[n..])) == (now + [PacketAt(d)]) + Delivered(d[n..]);
    } else {
      assert Delivered(d) == [];
    }
  }

  lemma DeliveredStep(d: Bytes)
    requires DeviceFramer(d).Take?
    ensures Delivered(d) == [PacketAt(d)] + Delivered(d[DeviceFramer(d).n..])
  {
    var n := DeviceFramer(d).n;
    var x, rest := d[..n], d[n..];
    DeviceFramesOf(d);
    DeviceFramesOf(rest);
    var xs := Parse(DeviceFramer, rest).frames;
    assert Parse(DeviceFramer, d).frames == [x] + xs;
    DeviceDelimits();
    assert DelimitsAt(DeviceFramer, d, []);
    SliceOfTake(d, n, 7, 11);
    SliceOfTake(d, n, 1, 7);
    SliceOfTake(d, n, 11, 11 + DeclaredLength(d));
    assert PacketOf(x) == PacketAt(d);
    DeliveriesAppend([x], xs);
    assert Deliveries([x]) == [PacketOf(x)];
  }

  lemma DeliveriesAppend(a: seq<Bytes>, b: seq<Bytes>)
    requires AllPackets(a) && AllPackets(b)
    ensures AllPackets(a + b)
    ensures Deliveries(a + b) == Deliveries(a) + Deliveries(b)
  {
    assert forall i :: 0 <= i < |a + b| ==> (a + b)[i] == if i < |a| then a[i] else b[i - |a|];
  }

  /** A further read keeps the agreement with the reference parser on the whole stream. */
  lemma StreamGrows(sent: seq<Packet>, contents: Bytes, chunk: Bytes, stream: Bytes)
    ensures AllJunk(DeviceFramer, AfterJunk(DeviceFramer, stream + chunk))
      ==> AllJunk(DeviceFramer, AfterJunk(DeviceFramer, stream))
    ensures AllJunk(DeviceFramer, AfterJunk(DeviceFramer, stream + chunk))
      && sent == Delivered(stream) && contents == Parse(DeviceFramer, stream).rest
      ==> && sent + Delivered(contents + chunk) == Delivered(stream + chunk)
          && Parse(DeviceFramer, contents + chunk).rest == Parse(DeviceFramer, stream + chunk).rest
  {
    DeviceDelimits();
    var after := AfterJunk(DeviceFramer, stream + chunk);
    var p := Parse(DeviceFramer, stream);
    DeviceFramesOf(stream);
    DeviceFramesOf(p.rest + chunk);
    if Clean(DeviceFramer, stream) {
      ParseAppend(DeviceFramer, stream, chunk);
      CleanHasNoJunk(DeviceFramer, stream);
      DeliveriesAppend(p.frames, Parse(DeviceFramer, p.rest + chunk).frames);
    } else {
      JunkAbsorbs(DeviceFramer, stream, chunk);
      var early := AfterJunk(DeviceFramer, stream);
      assert after == early + chunk;
      assert forall i :: 0 <= i < |early| ==> early[i] == after[i];
      assert forall i :: 0 <= i < |chunk| ==> chunk[i] == after[|early| + i];
      if AllJunk(DeviceFramer, after) {
        assert [] + chunk == chunk;
        AllJunkParses(DeviceFramer, chunk);
        assert Delivered(chunk) == [];
      }
    }
  }

  // ---------- progress ----------

  /** Streams of packets whose images are at most 512 bytes keep the rest below the buffer size. */
  lemma DeviceRestIsShort(ps: seq<Packet>, stream: Bytes)
    requires forall i :: 0 <= i < |ps| ==> ps[i].Valid() && |DeviceFrame(ps[i])| <= JTAG_BUFFER
    requires stream <= Flatten(ToDevice(ps))
    ensures |Parse(DeviceFramer, stream).rest| < JTAG_BUFFER && Clean(DeviceFramer, stream)
  {
    DeviceDelimits();
    forall i | 0 <= i < |ps|
      ensures IsFrame(DeviceFramer, ToDevice(ps)[i]) && !DeviceFramer([ToDevice(ps)[i][0]]).Junk?
    {
      ImageIsDeviceFrame(ps[i]);
    }
    RestIsShort(DeviceFramer, ToDevice(ps), stream, JTAG_BUFFER);
  }

  /**
   * On a stream of packets of at most 512 bytes a turn leaves no room to read exactly when the
   * read filled the buffer and ended on a packet boundary: a drained buffer is not moved.
   */
  lemma DeviceProgress(ps: seq<Packet>, before: Bytes, chunk: Bytes, writeIndex: nat)
    requires forall i :: 0 <= i < |ps| ==> ps[i].Valid() && |DeviceFrame(ps[i])| <= JTAG_BUFFER
    requires before + chunk <= Flatten(ToDevice(ps))
    ensures WriteIndexAfter(writeIndex, Parse(DeviceFramer, before).rest, chunk) == JTAG_BUFFER
        <==> writeIndex + |chunk| == JTAG_BUFFER && Parse(DeviceFramer, before + chunk).rest == []
  {
    DeviceDelimits();
    assert before <= before + chunk;
    DeviceRestIsShort(ps, before);
    DeviceRestIsShort(ps, before + chunk);
    ParseAppend(DeviceFramer, before, chunk);
  }

  /** Every turn's read fits the room the previous turns left. */
  predicate Fits(writeIndex: nat, contents: Bytes, chunks: seq<Bytes>)
    decreases |chunks|
  {
    chunks == [] ||
    (writeIndex + |chunks[0]| <= JTAG_BUFFER &&
     Fits(WriteIndexAfter(writeIndex, contents, chunks[0]),
          Parse(DeviceFramer, contents + chunks[0]).rest, chunks[1..]))
  }

  function WriteIndexAfterAll(writeIndex: nat, contents: Bytes, chunks: seq<Bytes>): nat
    decreases |chunks|
  {
    if chunks == [] then writeIndex
    else WriteIndexAfterAll(WriteIndexAfter(writeIndex, contents, chunks[0]),
                            Parse(DeviceFramer, contents + chunks[0]).rest, chunks[1..])
  }

  lemma WholePacketDrains(p: Packet, writeIndex: nat)
    requires p.Valid()
    ensures Parse(DeviceFramer, [] + DeviceFrame(p)).rest == []
    ensures WriteIndexAfter(writeIndex, [], DeviceFrame(p)) == writeIndex + |DeviceFrame(p)|
  {
    hide DeviceFramer, DeviceFrame;
    var x := DeviceFrame(p);
    DeviceDelimits();
    ImageIsDeviceFrame(p);
    FlattenSnoc([], x);
    assert [] + [x] == [x] && [] + x == x && x + [] == x;
    ParseFrames(DeviceFramer, [x], []);
  }

  /** Packets that each arrive in a read of their own stall the receiver once they amount to 512 bytes. */
  lemma {:induction false} AlignedPacketsStall(ps: seq<Packet>, writeIndex: nat)
    requires forall i :: 0 <= i < |ps| ==> ps[i].Valid()
    requires writeIndex + |Flatten(ToDevice(ps))| == JTAG_BUFFER
    ensures Fits(writeIndex, [], ToDevice(ps))
    ensures WriteIndexAfterAll(writeIndex, [], ToDevice(ps)) == JTAG_BUFFER
  {
    if ps != [] {
      hide DeviceFrame, WriteIndexAfter, Parse, DeviceFramer;
      var xs := ToDevice(ps);
      assert xs[1..] == ToDevice(ps[1..]);
      WholePacketDrains(ps[0], writeIndex);
      AlignedPacketsStall(ps[1..], writeIndex + |xs[0]|);
    }
  }

  /** Two packets with 245 bytes of payload each suffice. */
  lemma TwoPacketsStall(p: Packet, q: Packet)
    requires |p.mac| == |q.mac| == 6 && |p.data| == |q.data| == 245
    ensures var chunks := [DeviceFrame(p), DeviceFrame(q)];
      Fits(0, [], chunks) && WriteIndexAfterAll(0, [], chunks) == JTAG_BUFFER
  {
    hide DeviceFrame, WriteIndexAfter, Parse, DeviceFramer;
    var ps := [p, q];
    var xs := ToDevice(ps);
    assert xs == [DeviceFrame(p), DeviceFrame(q)];
    FlattenSnoc([xs[0]], xs[1]);
    FlattenSnoc([], xs[0]);
    assert [xs[0]] + [xs[1]] == xs && [] + [xs[0]] == [xs[0]];
    AlignedPacketsStall(ps, 0);
  }

  /** A receiver left in that state never reads another byte. */
  lemma {:induction false} StalledForever(chunks: seq<Bytes>)
    requires Fits(JTAG_BUFFER, [], chunks)
    ensures Flatten(chunks) == []
  {
    if chunks != [] {
      assert [] + chunks[0] == [];
      StalledForever(chunks[1..]);
    }
  }
}
