/** The daemon's serial side: the frame dispatcher and the reassembly loop that drives it. */
module HostDevice {
  import opened Bytes
  import opened Framing
  import opened Messages
  import opened StartDeviceCodec
  import opened HostProtocol
  import opened ReceivingBuffers
  import opened WriteQueues

  const SERIAL_BUFFER: nat := 4096
  const MAX_TAP_PAYLOAD: nat := 498

  /** What the dispatcher takes for granted about a received packet: it fits the 512-byte Ethernet buffer. */
  predicate PayloadFits(d: Bytes) {
    HostFramer(d).Take? && d[0] == RECEIVED_PACKET ==> DeclaredLength(d) <= MAX_TAP_PAYLOAD
  }

  /**
   * What it takes for granted about an announcement: the one it stores, the first accepted one
   * before the start was requested, names its device with a terminated string. No other name is read.
   */
  predicate NameReadable(requested: bool, ms: seq<Message>) {
    !requested && FirstAccepted(ms).Some? ==> 0 in FirstAccepted(ms).value.name
  }

  /** Every frame of the buffer can be handed to the dispatcher in turn. */
  predicate WellFormed(requested: bool, d: Bytes) {
    AtBoundaries(HostFramer, PayloadFits, d) && NameReadable(requested, Decode(d))
  }

  lemma PayloadFitsShrinks(x: Bytes, y: Bytes)
    requires x != [] && PayloadFits(x + y)
    ensures PayloadFits(x)
  {
    HostDelimitsAt(x, y);
    if HostFramer(x).Take? {
      assert (x + y)[0] == x[0];
      if x[0] == RECEIVED_PACKET { SliceOfAppend(x, y, 7, 11); }
    }
  }

  lemma NameReadableAppend(s: HostState, a: seq<Message>, b: seq<Message>)
    requires NameReadable(s.requestedStart, a + b)
    ensures NameReadable(s.requestedStart, a) && NameReadable(HandleAll(s, a).requestedStart, b)
  {
    TapFramesAppend(a, b);
    RequestedAfter(s, a);
  }

  /** A hypothesis about a whole stream covers its beginning and, once that is handled, the remainder. */
  lemma WellFormedAppend(s: HostState, a: Bytes, b: Bytes)
    requires WellFormed(s.requestedStart, a + b)
    ensures WellFormed(s.requestedStart, a)
    ensures Clean(HostFramer, a) ==>
      WellFormed(HandleAll(s, Decode(a)).requestedStart, Parse(HostFramer, a).rest + b)
  {
    hide HostFramer, Decode, HandleAll, NameReadable;
    HostDelimits();
    forall x, y | x != [] && PayloadFits(x + y) ensures PayloadFits(x) {
      PayloadFitsShrinks(x, y);
    }
    BoundariesAppend(HostFramer, PayloadFits, a, b);
    if Clean(HostFramer, a) {
      DecodeAppend(a, b);
      NameReadableAppend(s, Decode(a), Decode(Parse(HostFramer, a).rest + b));
    } else {
      JunkAbsorbs(HostFramer, a, b);
      DecodeSame(a + b, a);
    }
  }

  /**
   * Every beginning of a stream of messages with payloads of at most 498 bytes, the first accepted
   * announcement naming its device with a terminated string, can be handed to the dispatcher.
   */
  lemma ProperStreamsAreWellFormed(s: HostState, ms: seq<Message>, stream: Bytes)
    requires AllValid(ms) && NameReadable(s.requestedStart, ms)
    requires forall i :: 0 <= i < |ms| && ms[i].Received? ==> |ms[i].packet.data| <= 498
    requires stream <= Flatten(Encodings(ms))
    ensures WellFormed(s.requestedStart, stream)
  {
    hide Decode, Encode, HostFramer, PayloadFits, NameReadable;
    HostDelimits();
    var xs := Encodings(ms);
    forall i | 0 <= i < |xs| ensures IsFrame(HostFramer, xs[i]) {
      EncodeIsFrame(ms[i]);
    }
    forall i, e | 0 <= i < |xs| ensures PayloadFits(xs[i] + e) {
      ProperFrame(ms[i], e);
    }
    BoundariesOfFrames(HostFramer, PayloadFits, xs);
    var more := Flatten(xs)[|stream|..];
    assert Flatten(xs) == stream + more;
    forall x, y | x != [] && PayloadFits(x + y) ensures PayloadFits(x) {
      PayloadFitsShrinks(x, y);
    }
    BoundariesAppend(HostFramer, PayloadFits, stream, more);
    var j := DecodeBeginning(ms, stream);
    assert ms == ms[..j] + ms[j..];
    NameReadableAppend(s, ms[..j], ms[j..]);
  }

  lemma ProperFrame(m: Message, e: Bytes)
    requires m.Valid() && (m.Received? ==> |m.packet.data| <= MAX_TAP_PAYLOAD)
    ensures PayloadFits(Encode(m) + e)
  {
    EncodeIsFrame(m);
    HostDelimitsAt(Encode(m), e);
    if m.Received? {
      LengthOfImage(RECEIVED_PACKET, m.packet, e);
    }
  }

  class EspnowUartDevice {
    const order: ByteOrder
    const buffer: ReceivingBuffer
    const port: SerialWriter
    var requestedStart: bool
    var details: DeviceDetails
    var broadcastReceived: nat
    var broadcastSent: nat
    ghost var events: nat
    ghost var tapFrames: seq<Bytes>
    /** Every byte the serial port delivered. */
    ghost var stream: Bytes

    ghost function State(): HostState
      reads `requestedStart, `details, `events, `tapFrames, `broadcastReceived
    {
      HostState(requestedStart, details, events, tapFrames, broadcastReceived)
    }

    ghost predicate Valid()
      reads this, buffer, port
    {
      buffer.Valid() && port.Valid() && buffer.data.Length == SERIAL_BUFFER
    }

    /**
     * The state is the one the reference parser reaches on the whole stream, and what is
     * buffered is what that parser leaves.
     */
    ghost predicate Refines()
      reads `requestedStart, `details, `events, `tapFrames, `broadcastReceived, `stream, buffer, buffer.data
      requires buffer.Valid()
    {
      AllJunk(HostFramer, AfterJunk(HostFramer, stream)) ==>
        && State() == HandleAll(INITIAL, Decode(stream))
        && buffer.Contents() == Parse(HostFramer, stream).rest
    }

    constructor (order: ByteOrder)
      ensures Valid() && Refines()
      ensures stream == [] && State() == INITIAL && port.Abs() == EMPTY && broadcastSent == 0
      ensures RequestedOnce() && buffer.Writable() == 4096
      ensures fresh(buffer) && fresh(buffer.data) && fresh(port)
    {
      this.order := order;
      var b := new ReceivingBuffer(SERIAL_BUFFER);
      var p := new SerialWriter();
      buffer, port := b, p;
      requestedStart, details, broadcastReceived, broadcastSent := false, NO_DETAILS, 0, 0;
      events, tapFrames, stream := 0, [], [];
    }

    /** As many start requests were written as the host asked for: one, or none yet. */
    ghost predicate RequestedOnce()
      reads `requestedStart, port
    {
      multiset(port.enqueued)[[1]] == if requestedStart then 1 else 0
    }

    /** The write queue after a change of `requestedStart`: the start request is sent on that change only. */
    static ghost function Replied(before: WriteQueue, was: bool, now: bool): WriteQueue
      requires Inv(before)
    {
      if now && !was then WriteFrame(before, [START_HOST]) else before
    }

    /** `std::find` over the span. */
    method Find(a: array<byte>, lo: nat, hi: nat, b: byte) returns (length: nat)
      requires lo <= hi <= a.Length
      ensures length == IndexOf(a[lo..hi], b)
    {
      length := 0;
      while lo + length < hi && a[lo + length] != b
        invariant lo + length <= hi
        invariant forall k :: 0 <= k < length ==> a[lo..hi][k] != b
        decreases hi - lo - length
      {
        length := length + 1;
      }
      IndexOfUnique(a[lo..hi], b, length);
    }

    /** Builds the Ethernet frame in a 512-byte buffer and queues it for the TAP interface. */
    method QueueTapFrame(p: Packet)
      requires |p.mac| == 6 && |p.data| <= MAX_TAP_PAYLOAD
      modifies this`tapFrames
      ensures tapFrames == old(tapFrames) + [TapFrame(p)]
      ensures var x := tapFrames[|old(tapFrames)|];
        && |x| == 14 + |p.data| && (forall i :: 0 <= i < 6 ==> x[i] == 0xff) && x[6..12] == p.mac
        && x[12] == 0x88 && x[13] == 0xb5 && x[14..] == p.data
    {
      TapFrameBytes(p);
      var frame := new byte[TAP_BUFFER];
      CopyTo(frame, 0, BROADCAST);
      CopyTo(frame, 6, p.mac);
      assert frame[..12] == BROADCAST + p.mac;
      CopyTo(frame, 12, ETHERTYPE);
      assert frame[..14] == BROADCAST + p.mac + ETHERTYPE;
      CopyTo(frame, 14, p.data);
      var size := 14 + |p.data|;
      assert frame[..size] == TapFrame(p);
      tapFrames := tapFrames + [frame[..size]];
    }

    /** Only the first announcement with the right header counts: ask the device to start, store what it said. */
    method HandleAnnouncement(data: Bytes)
      requires port.Valid() && |data| >= START_DEVICE_SIZE && data[0] == START_DEVICE
      requires !requestedStart && data[1..14] == HEADER ==> 0 in data[14..24]
      modifies this`requestedStart, this`details, this`events, port
      ensures port.Valid() && port.Abs() == Replied(old(port.Abs()), old(requestedStart), requestedStart)
      ensures State() == Handle(old(State()), Announce(FromImage(data)))
      ensures requestedStart <==> old(requestedStart) || Spells(data[1..14], "espnowonlinux")
      ensures requestedStart && !old(requestedStart) ==>
        && port.enqueued == old(port.enqueued) + [[1]] && port.writeQueue == old(port.writeQueue) + [[1]]
        && events == old(events) + 1
      ensures !(requestedStart && !old(requestedStart)) ==> port.Abs() == old(port.Abs()) && events == old(events)
    {
      HeaderOf(data);
      AcceptsIntroductions(Announce(FromImage(data)));
      hide Inv, WriteFrame, FromImage, CString;
      if data[1..14] == HEADER {
        if !requestedStart {
          requestedStart := true;
          port.Write([START_HOST]);
          var got, _ := Read(order, data, 0, StartDevice(START_DEVICE, HEADER, seq(10, _ => 0), 1,
                                                         FirmwareVersion(0, 0, 0), seq(6, _ => 0)));
          FromImageOfPrefix(data);
          details := DeviceDetails(CString(got.name), got.mac, got.version, got.firmware);
          events := events + 1;
        }
      }
    }

    /** A complete received packet, its identifier already dropped from the span. */
    method HandleReceived(sub: Bytes) returns (size: nat)
      requires |sub| >= PACKET_HEADER - 1 && |ReceivedBody(sub).data| <= MAX_TAP_PAYLOAD
      modifies this`tapFrames, this`broadcastReceived
      ensures size == |ReceivedBody(sub).data|
      ensures State() == Handle(old(State()), Received(ReceivedBody(sub)))
    {
      var message := DeserializeReceivedPacket(order, sub);
      QueueTapFrame(message);
      broadcastReceived := (broadcastReceived + 1) % TWO_64;
      size := |message.data|;
    }

    /** The big-endian length field as this machine loads it. */
    method LoadLength(b: Bytes) returns (n: nat)
      requires |b| == 4
      ensures n == FromBig(b)
    {
      WordWidths();
      NetworkLoad(order, b);
      n := HostToNetwork(order, 4, Load(order, b));
    }

    /** A console line, which the daemon terminates in place before printing it. */
    method HandleLine(a: array<byte>, lo: nat, hi: nat) returns (processed: int)
      requires lo < hi <= a.Length && a[lo] == LOG_INFO
      modifies a
      ensures processed == -1 || 1 <= processed <= hi - lo
      ensures HostFramer(old(a[lo..hi])) == if processed == -1 then Need else Take(processed)
      ensures processed != -1 ==> old(a[lo + processed - 1]) == 10 && a[lo + processed - 1] == 0
      ensures forall k :: 0 <= k < a.Length && (processed == -1 || k != lo + processed - 1) ==> a[k] == old(a[k])
    {
      var length := Find(a, lo, hi, NEWLINE);
      if length < hi - lo {
        a[lo + length] := 0;
        return length + 1;
      }
      return -1;
    }

    /** A log record, once it is complete. */
    method HandleRecord(data: Bytes) returns (processed: int)
      requires data != [] && data[0] == LOG_INFO_UART
      ensures processed == -1 || 1 <= processed <= |data|
      ensures HostFramer(data) == if processed == -1 then Need else Take(processed)
    {
      if |data| < 5 {
        return -1;
      }
      var expected := LoadLength(data[1..5]);
      if |data| >= 5 + expected {
        return 5 + expected;
      }
      return -1;
    }

    /** A received packet, once it is complete. */
    method HandlePacket(data: Bytes) returns (processed: int)
      requires data != [] && data[0] == RECEIVED_PACKET && PayloadFits(data)
      modifies this`tapFrames, this`broadcastReceived
      ensures processed == -1 || 1 <= processed <= |data|
      ensures HostFramer(data) == if processed == -1 then Need else Take(processed)
      ensures State() == if HostFramer(data).Take? then Handle(old(State()), MeaningAt(data)) else old(State())
    {
      hide FromBig, Meaning, MeaningAt, TapFrame, Handle, ReceivedBody, PacketAt;
      if |data| < PACKET_HEADER {
        return -1;
      }
      var sub := data[1..];
      assert sub[6..10] == data[7..11];
      var expected := LoadLength(sub[6..10]);
      if expected > |sub| - 10 {
        return -1;
      }
      FrameOf(data);
      ReceivedBodyIsPacket(data);
      var size := HandleReceived(sub);
      return PACKET_HEADER + size;
    }

    /**
     * Handles the frame at the beginning of the span `a[lo..hi]`. The result is -1 when more
     * bytes are needed and otherwise the number of bytes handled, never zero.
     */
    method HandleSerialPacket(a: array<byte>, lo: nat, hi: nat) returns (processed: int)
      requires port.Valid() && lo < hi <= a.Length
      requires PayloadFits(a[lo..hi]) && NextReadable(requestedStart, a[lo..hi])
      modifies this`requestedStart, this`details, this`events, this`tapFrames, this`broadcastReceived, port, a
      ensures port.Valid()
      ensures processed == -1 || 1 <= processed <= hi - lo
      ensures match HostFramer(old(a[lo..hi]))
        case Need => processed == -1
        case Junk => processed == hi - lo
        case Take(n) => processed == n
      ensures State() == if HostFramer(old(a[lo..hi])).Take?
                         then Handle(old(State()), MeaningAt(old(a[lo..hi])))
                         else old(State())
      ensures port.Abs() == Replied(old(port.Abs()), old(requestedStart), requestedStart)
      ensures old(requestedStart) ==> requestedStart
      ensures var line := old(a[lo]) == 'I' as int && processed != -1;
        && (line ==> a[lo + processed - 1] == 0)
        && forall k :: 0 <= k < a.Length && !(line && k == lo + processed - 1) ==> a[k] == old(a[k])
    {
      hide FromBig, FromImage, Meaning, MeaningAt, TapFrame, CString, Inv, WriteFrame, Handle, ReceivedBody, PacketAt;
      hide NextReadable, NameReadable, FirstAccepted, Refines;
      hide HostFramer;
      ghost var d := a[lo..hi];
      HostDelimitsAt(d, []);
      FixedSizes(d);
      if HostFramer(d).Take? {
        FrameOf(d);
        if d[0] != START_DEVICE && d[0] != RECEIVED_PACKET {
          IgnoresOthers(State(), MeaningAt(d));
        }
      }
      var id := a[lo];
      if id == START_DEVICE {
        if hi - lo >= START_DEVICE_SIZE {
          AnnouncementReadable(requestedStart, d);
          HandleAnnouncement(a[lo..hi]);
          return START_DEVICE_SIZE;
        }
      } else if id == LOG_INFO {
        processed := HandleLine(a, lo, hi);
        return processed;
      } else if id == LOG_INFO_UART {
        processed := HandleRecord(a[lo..hi]);
        return processed;
      } else if id == PING {
        if hi - lo >= 4 {
          return 4;
        }
        return -1;
      } else if id == RECEIVED_PACKET {
        processed := HandlePacket(a[lo..hi]);
        return processed;
      } else {
        return hi - lo;
      }
      return -1;
    }

    /** One turn of the loop: whether it goes on. */
    method HandleNext() returns (more: bool)
      requires Valid() && buffer.readIndex < buffer.writeIndex
      requires PayloadFits(buffer.Contents()) && NextReadable(requestedStart, buffer.Contents())
      modifies this`requestedStart, this`details, this`events, this`tapFrames, this`broadcastReceived
      modifies buffer, buffer.data, port
      ensures Valid() && more == !HostFramer(old(buffer.Contents())).Need?
      ensures match HostFramer(old(buffer.Contents()))
        case Need => buffer.Contents() == old(buffer.Contents())
        case Junk => buffer.Contents() == []
        case Take(n) => 1 <= n <= |old(buffer.Contents())| && buffer.Contents() == old(buffer.Contents())[n..]
      ensures State() == if HostFramer(old(buffer.Contents())).Take?
                         then Handle(old(State()), MeaningAt(old(buffer.Contents())))
                         else old(State())
      ensures port.Abs() == Replied(old(port.Abs()), old(requestedStart), requestedStart)
      ensures old(requestedStart) ==> requestedStart
    {
      hide HostFramer, Handle, MeaningAt, Inv, WriteFrame, PayloadFits, NextReadable, Refines;
      ghost var d := buffer.Contents();
      var processed := HandleSerialPacket(buffer.data, buffer.readIndex, buffer.writeIndex);
      if processed == -1 {
        assert buffer.Contents() == d;
        buffer.MoveDataToFront();
        return false;
      }
      if processed == 0 {
        return false;
      }
      assert buffer.Contents()[processed..] == d[processed..];
      buffer.Consume(processed);
      return true;
    }

    /**
     * The loop: hands every complete frame to the dispatcher, until more bytes are needed or
     * none are left.
     */
    method HandleFrames()
      requires Valid() && WellFormed(requestedStart, buffer.Contents())
      modifies this`requestedStart, this`details, this`events, this`tapFrames, this`broadcastReceived
      modifies buffer, buffer.data, port
      ensures Valid()
      ensures buffer.Contents() == Parse(HostFramer, old(buffer.Contents())).rest
      ensures State() == HandleAll(old(State()), Decode(old(buffer.Contents())))
      ensures port.Abs() == Replied(old(port.Abs()), old(requestedStart), requestedStart)
    {
      hide HostFramer, Parse, Decode, Handle, HandleAll, MeaningAt, Inv, WriteFrame, InProgress;
      hide WellFormed, PayloadFits, NextReadable, Refines;
      ghost var total, before, queue := buffer.Contents(), State(), port.Abs();
      Begin(before, total);
      while buffer.readIndex < buffer.writeIndex
        invariant Valid()
        invariant InProgress(before, total, State(), buffer.Contents())
        invariant port.Abs() == Replied(queue, old(requestedStart), requestedStart)
        invariant old(requestedStart) ==> requestedStart
        decreases |buffer.Contents()|
      {
        Advance(before, total, State(), buffer.Contents());
        var more := HandleNext();
        if !more {
          return;
        }
      }
      assert buffer.Contents() == [];
      Finish(before, total, State());
    }

    /**
     * A read of `chunk` into the writable span completed, or failed. Complete frames are
     * handled and the rest is moved to the front of the buffer.
     */
    method ReadHandle(failed: bool, chunk: Bytes)
      requires Valid() && |chunk| <= buffer.Writable()
      requires WellFormed(requestedStart, buffer.Contents() + chunk)
      modifies this`requestedStart, this`details, this`events, this`tapFrames, this`broadcastReceived
      modifies this`stream, buffer, buffer.data, port
      ensures Valid()
      ensures failed ==> State() == old(State()) && port.Abs() == old(port.Abs()) && stream == old(stream)
      ensures failed ==> buffer.Contents() == old(buffer.Contents())
      ensures !failed ==> stream == old(stream) + chunk && buffer.readIndex == 0
      ensures !failed ==> buffer.Contents() == Parse(HostFramer, old(buffer.Contents()) + chunk).rest
      ensures !failed ==> buffer.Writable() == SERIAL_BUFFER - |buffer.Contents()|
      ensures !failed ==> State() == HandleAll(old(State()), Decode(old(buffer.Contents()) + chunk))
      ensures port.Abs() == Replied(old(port.Abs()), old(requestedStart), requestedStart)
      ensures old(requestedStart) ==> requestedStart
      ensures requestedStart && !old(requestedStart) ==>
        && port.enqueued == old(port.enqueued) + [[1]] && port.writeQueue == old(port.writeQueue) + [[1]]
      ensures requestedStart == old(requestedStart) ==>
        && port.enqueued == old(port.enqueued) && port.writeQueue == old(port.writeQueue)
        && port.issued == old(port.issued) && port.outstanding == old(port.outstanding)
      ensures old(RequestedOnce()) ==> RequestedOnce()
      ensures old(Refines()) ==> Refines()
    {
      if failed {
        return;
      }
      hide HostFramer, Parse, Decode, HandleAll, Inv, WriteFrame, WellFormed, AfterJunk, AllJunk, State, Replied;
      ghost var contents, before := buffer.Contents(), State();
      buffer.Fill(chunk);
      buffer.Commit(|chunk|);
      stream := stream + chunk;
      HandleFrames();
      buffer.MoveDataToFront();
      StreamStep(before, contents, chunk, old(stream));
      RequestedAfter(before, Decode(contents + chunk));
      ReplyIsOneByte(old(port.Abs()), old(requestedStart), requestedStart);
    }

    method LoadEthertype(frame: Bytes) returns (ethertype: nat)
      requires |frame| >= TAP_HEADER
      ensures ethertype == 0x88b5 <==> frame[12..14] == ETHERTYPE
    {
      WordWidths();
      NetworkLoad(order, frame[12..14]);
      EthertypeValue(frame[12..14]);
      ethertype := HostToNetwork(order, 2, Load(order, frame[12..14]));
    }

    /** The TAP interface delivered an Ethernet frame, or failed. */
    method TunReadHandle(failed: bool, frame: Bytes)
      requires Valid() && 14 <= |frame| <= 512
      modifies this`broadcastSent, port
      ensures Valid() && (old(Refines()) ==> Refines())
      ensures var out := if failed then None else Forwarded(frame);
        && port.Abs() == (if out.Some? then WriteFrame(old(port.Abs()), out.value) else old(port.Abs()))
        && broadcastSent == (if out.Some? then (old(broadcastSent) + 1) % 0x1_0000_0000_0000_0000
                            else old(broadcastSent))
      ensures !failed && frame[12] == 0x88 && frame[13] == 0xb5 ==>
        && |port.enqueued| == |old(port.enqueued)| + 1
        && var x := port.enqueued[|old(port.enqueued)|];
           && |x| == |frame| - 3 && x[0] == 'S' as int && x[1..7] == frame[..6]
           && Word(x[7], x[8], x[9], x[10]) == |frame| - 14 && x[11..] == frame[14..]
           && port.enqueued == old(port.enqueued) + [x] && port.writeQueue == old(port.writeQueue) + [x]
      ensures failed || frame[12] != 0x88 || frame[13] != 0xb5 ==>
        port.Abs() == old(port.Abs()) && broadcastSent == old(broadcastSent)
      ensures old(RequestedOnce()) ==> RequestedOnce()
    {
      hide Inv, WriteFrame, PacketImage, Refines, State;
      if failed {
        return;
      }
      var ethertype := LoadEthertype(frame);
      if ethertype == 0x88b5 {
        ForwardedFits(frame);
        PacketFields(PACKET_TO_SEND, Packet(frame[..6], frame[14..]));
        var serialized := Serialize(order, PACKET_TO_SEND, Packet(frame[..6], frame[14..]));
        assert serialized == Forwarded(frame).value;
        hide Forwarded;
        port.Write(serialized);
        broadcastSent := (broadcastSent + 1) % TWO_64;
      }
    }
  }

  /** What a change of `requestedStart` does to the queue. */
  lemma ReplyIsOneByte(q: WriteQueue, was: bool, now: bool)
    requires Inv(q) && (was ==> now)
    ensures var n := EspnowUartDevice.Replied(q, was, now);
      && (now && !was ==> n.enqueued == q.enqueued + [[1]] && n.queue == q.queue + [[1]])
      && (now == was ==> n == q)
      && (multiset(q.enqueued)[[1]] == (if was then 1 else 0) ==>
           multiset(n.enqueued)[[1]] == if now then 1 else 0)
  {
  }

  /** The serial frame for an Ethernet frame of the right type; other types are not forwarded. */
  function Forwarded(frame: Bytes): Option<Bytes>
    requires |frame| >= TAP_HEADER
  {
    if frame[12..14] == ETHERTYPE
    then Some(PacketImage(PACKET_TO_SEND, Packet(frame[..6], frame[14..])))
    else None
  }

  lemma EthertypeValue(b: Bytes)
    requires |b| == 2
    ensures FromBig(b) == 0x88b5 <==> b == ETHERTYPE
  {
    assert b[..1] == [b[0]] && [b[0]][..0] == [];
    assert FromBig(b) == FromBig([b[0]]) * 256 + b[1];
    assert FromBig([b[0]]) == FromBig([]) * 256 + b[0];
  }

  /** Every Ethernet frame the TAP interface can deliver fits the 512-byte write buffer. */
  lemma ForwardedFits(frame: Bytes)
    requires TAP_HEADER <= |frame| <= TAP_BUFFER
    ensures Forwarded(frame).Some? ==> |Forwarded(frame).value| == |frame| - 3 <= 509
  {
  }

  /** With frames of at most 4096 bytes a pass of the loop always leaves room to read into. */
  lemma HostProgress(ms: seq<Message>, stream: Bytes)
    requires AllValid(ms) && forall i :: 0 <= i < |ms| ==> |Encode(ms[i])| <= 4096
    requires stream <= Flatten(Encodings(ms))
    ensures |Parse(HostFramer, stream).rest| < 4096
  {
    HostDelimits();
    forall i | 0 <= i < |ms| ensures IsFrame(HostFramer, Encodings(ms)[i]) && !HostFramer([Encodings(ms)[i][0]]).Junk? {
      EncodeIsFrame(ms[i]);
    }
    RestIsShort(HostFramer, Encodings(ms), stream, SERIAL_BUFFER);
  }

  /** The full buffer begins with a frame longer than itself. */
  predicate TooLong(d: Bytes)
    requires |d| == SERIAL_BUFFER
  {
    || (d[0] == LOG_INFO && NEWLINE !in d)
    || (d[0] == LOG_INFO_UART && FromBig(d[1..5]) > SERIAL_BUFFER - 5)
    || (d[0] == RECEIVED_PACKET && DeclaredLength(d) > SERIAL_BUFFER - PACKET_HEADER)
  }

  /**
   * A pass leaves no room exactly when the buffer it began with was full and begins with a console
   * line without an end, or with a record or packet that declares more than the buffer holds; then
   * no later pass, which can only be of an empty read, frees any.
   */
  lemma HostStall(d: Bytes)
    requires |d| <= SERIAL_BUFFER
    ensures |Parse(HostFramer, d).rest| == SERIAL_BUFFER <==> |d| == SERIAL_BUFFER && TooLong(d)
    ensures Parse(HostFramer, Parse(HostFramer, d).rest + []).rest == Parse(HostFramer, d).rest
  {
    HostDelimitsAt(d, []);
    RestIsSettled(HostFramer, d);
    var rest := Parse(HostFramer, d).rest;
    assert rest + [] == rest;
    if d != [] && HostFramer(d).Take? {
      assert |Parse(HostFramer, d).rest| <= |d[HostFramer(d).n..]|;
    }
  }

  /** A console line of 4095 characters without its end stalls the host for good. */
  lemma EndlessLineStalls(line: Bytes)
    requires |line| == 4095 && 10 !in line
    ensures Parse(HostFramer, [LOG_INFO] + line).rest == [LOG_INFO] + line
    ensures |[LOG_INFO] + line| == SERIAL_BUFFER
  {
    IndexOfUnique([LOG_INFO] + line, NEWLINE, SERIAL_BUFFER);
  }

  /** Having turned `before` into `now`, the loop has `d` left to do of the buffer `total`. */
  ghost predicate InProgress(before: HostState, total: Bytes, now: HostState, d: Bytes) {
    && WellFormed(now.requestedStart, d)
    && HandleAll(before, Decode(total)) == HandleAll(now, Decode(d))
    && Parse(HostFramer, total).rest == Parse(HostFramer, d).rest
  }

  lemma Begin(before: HostState, total: Bytes)
    requires WellFormed(before.requestedStart, total)
    ensures InProgress(before, total, before, total)
  {
  }

  lemma Finish(before: HostState, total: Bytes, now: HostState)
    requires InProgress(before, total, now, [])
    ensures HandleAll(before, Decode(total)) == now && Parse(HostFramer, total).rest == []
  {
  }

  /** What the dispatcher's three answers mean for the remainder of the loop. */
  lemma Advance(before: HostState, total: Bytes, now: HostState, d: Bytes)
    requires InProgress(before, total, now, d) && d != []
    ensures PayloadFits(d) && NextReadable(now.requestedStart, d)
    ensures match HostFramer(d)
      case Need => HandleAll(before, Decode(total)) == now && Parse(HostFramer, total).rest == d
      case Junk => InProgress(before, total, now, [])
      case Take(n) => 1 <= n <= |d| && InProgress(before, total, Handle(now, MeaningAt(d)), d[n..])
  {
    hide HostFramer, MeaningAt, Handle, Meaning, Meanings;
    DecodeStep(d);
    assert HandleAll(now, []) == now;
    if HostFramer(d).Take? {
      var m, more := MeaningAt(d), Decode(d[HostFramer(d).n..]);
      HandleAllAppend(now, [m], more);
      HandleAllSnoc(now, [], m);
      assert [] + [m] == [m];
      NameReadableAppend(now, [m], more);
    } else {
      Settled();
    }
  }

  lemma Settled()
    ensures (forall requested :: WellFormed(requested, [])) && Decode([]) == [] && Parse(HostFramer, []).rest == []
  {
  }

  /** The frames whose size does not depend on their contents, and what is no frame. */
  lemma FixedSizes(d: Bytes)
    requires d != []
    ensures d[0] == START_DEVICE ==> HostFramer(d) == if |d| >= START_DEVICE_SIZE then Take(START_DEVICE_SIZE) else Need
    ensures d[0] == PING ==> HostFramer(d) == if |d| >= 4 then Take(4) else Need
    ensures !IsHostId(d[0]) ==> HostFramer(d) == Junk
  {
  }

  /** Messages other than announcements and received packets leave the state alone. */
  lemma IgnoresOthers(s: HostState, m: Message)
    requires !m.Announce? && !m.Received?
    ensures Handle(s, m) == s
  {
  }

  /** One turn of the loop, seen by the reference parser. */
  lemma DecodeStep(d: Bytes)
    requires d != [] && AtBoundaries(HostFramer, PayloadFits, d)
    ensures PayloadFits(d)
    ensures !HostFramer(d).Take? ==> Decode(d) == []
    ensures HostFramer(d).Need? ==> Parse(HostFramer, d).rest == d
    ensures HostFramer(d).Junk? ==> Parse(HostFramer, d).rest == []
    ensures HostFramer(d).Take? ==> var n := HostFramer(d).n;
      && 1 <= n <= |d| && AtBoundaries(HostFramer, PayloadFits, d[n..])
      && Decode(d) == [MeaningAt(d)] + Decode(d[n..])
      && Parse(HostFramer, d).rest == Parse(HostFramer, d[n..]).rest
  {
    hide HostFramer, Meaning, Meanings, Encode, HostFramer, FromImage, PacketAt;
    HostDelimitsAt(d, []);
    if HostFramer(d).Take? {
      var n := HostFramer(d).n;
      var x, p := d[..n], Parse(HostFramer, d[n..]);
      assert Parse(HostFramer, d) == Parsed([x] + p.frames, p.rest);
      ParsedAreFrames(d[n..]);
      MeaningsAppend([x], p.frames);
      MeaningsOne(x);
    } else {
      MeaningsNone();
    }
  }

  /** A further read keeps the agreement with the reference parser on the whole stream. */
  lemma StreamStep(s: HostState, contents: Bytes, chunk: Bytes, stream: Bytes)
    ensures AllJunk(HostFramer, AfterJunk(HostFramer, stream + chunk))
      ==> AllJunk(HostFramer, AfterJunk(HostFramer, stream))
    ensures AllJunk(HostFramer, AfterJunk(HostFramer, stream + chunk))
      && s == HandleAll(INITIAL, Decode(stream)) && contents == Parse(HostFramer, stream).rest
      ==> && HandleAll(s, Decode(contents + chunk)) == HandleAll(INITIAL, Decode(stream + chunk))
          && Parse(HostFramer, contents + chunk).rest == Parse(HostFramer, stream + chunk).rest
  {
    hide Decode, Meaning, Meanings, HandleAll, HostFramer;
    HostDelimits();
    var after := AfterJunk(HostFramer, stream + chunk);
    var p := Parse(HostFramer, stream);
    if Clean(HostFramer, stream) {
      ParseAppend(HostFramer, stream, chunk);
      CleanHasNoJunk(HostFramer, stream);
      DecodeAppend(stream, chunk);
      HandleAllAppend(INITIAL, Decode(stream), Decode(p.rest + chunk));
    } else {
      JunkAbsorbs(HostFramer, stream, chunk);
      var early := AfterJunk(HostFramer, stream);
      assert after == early + chunk;
      assert forall i :: 0 <= i < |early| ==> early[i] == after[i];
      assert forall i :: 0 <= i < |chunk| ==> chunk[i] == after[|early| + i];
      if AllJunk(HostFramer, after) {
        assert [] + chunk == chunk;
        AllJunkParses(HostFramer, chunk);
        DecodeNothing(chunk);
        DecodeSame(stream, stream + chunk);
        assert HandleAll(s, []) == s by { HandleNone(s); }
      }
    }
  }

  /** The message of the frame that begins `d`. */
  function MeaningAt(d: Bytes): (m: Message)
    requires HostFramer(d).Take?
  {
    HostDelimitsAt(d, []);
    Meaning(d[..HostFramer(d).n])
  }

  /** The dispatcher can handle the frame that begins `d`. */
  predicate NextReadable(requested: bool, d: Bytes) {
    HostFramer(d).Take? ==> NameReadable(requested, [MeaningAt(d)])
  }

  lemma HeaderOf(data: Bytes)
    requires |data| >= START_DEVICE_SIZE
    ensures FromImage(data).header == data[1..14]
  {
  }

  lemma AnnouncementReadable(requested: bool, d: Bytes)
    requires HostFramer(d).Take? && d[0] == START_DEVICE && NextReadable(requested, d)
    ensures !requested && d[1..14] == HEADER ==> 0 in d[14..24]
  {
    FrameOf(d);
    assert FirstAccepted([MeaningAt(d)]) == if Accepts(MeaningAt(d)) then Some(MeaningAt(d).start) else None;
  }

  /** That message, field by field, read from the whole buffer. */
  lemma FrameOf(d: Bytes)
    requires HostFramer(d).Take?
    ensures d[0] == START_DEVICE ==> MeaningAt(d) == Announce(FromImage(d))
    ensures d[0] == RECEIVED_PACKET ==> MeaningAt(d) == Received(PacketAt(d))
    ensures d[0] != START_DEVICE && d[0] != RECEIVED_PACKET ==> !MeaningAt(d).Announce? && !MeaningAt(d).Received?
  {
    HostDelimitsAt(d, []);
    var x := d[..HostFramer(d).n];
    if d[0] == START_DEVICE {
      SliceOfTake(d, START_DEVICE_SIZE, 1, 14);
      SliceOfTake(d, START_DEVICE_SIZE, 14, 24);
      SliceOfTake(d, START_DEVICE_SIZE, 28, 34);
    } else if d[0] == RECEIVED_PACKET {
      SliceOfTake(d, |x|, 7, 11);
      SliceOfTake(d, |x|, 1, 7);
      SliceOfTake(d, |x|, 11, 11 + DeclaredLength(d));
    }
  }
}
