/**
 * What the host understands of the device's byte stream: how frames are delimited
 * (`HostFramer`), what a frame means, and what handling it does to the daemon's state.
 */
module HostProtocol {
  import opened Bytes
  import opened Framing
  import opened Messages
  import opened StartDeviceCodec

  /** The position of the first `b` in `d`, or its length. */
  function IndexOf(d: Bytes, b: byte): (i: nat)
    ensures i <= |d|
    ensures forall k :: 0 <= k < i ==> d[k] != b
    ensures i < |d| ==> d[i] == b
  {
    if d == [] then 0 else if d[0] == b then 0 else 1 + IndexOf(d[1..], b)
  }

  lemma IndexOfUnique(d: Bytes, b: byte, i: nat)
    requires i <= |d| && (forall k :: 0 <= k < i ==> d[k] != b) && (i < |d| ==> d[i] == b)
    ensures IndexOf(d, b) == i
  {
  }

  function HostFramer(d: Bytes): Outcome {
    if d == [] then Need
    else if d[0] == START_DEVICE then
      if |d| >= START_DEVICE_SIZE then Take(START_DEVICE_SIZE) else Need
    else if d[0] == LOG_INFO then
      var i := IndexOf(d, NEWLINE);
      if i < |d| then Take(i + 1) else Need
    else if d[0] == LOG_INFO_UART then
      if |d| < 5 then Need
      else var n := FromBig(d[1..5]);
           if |d| >= 5 + n then Take(5 + n) else Need
    else if d[0] == PING then
      if |d| >= 4 then Take(4) else Need
    else if d[0] == RECEIVED_PACKET then
      if |d| < PACKET_HEADER then Need
      else if DeclaredLength(d) > |d| - PACKET_HEADER then Need
      else Take(PACKET_HEADER + DeclaredLength(d))
    else Junk
  }

  lemma HostDelimitsAt(d: Bytes, e: Bytes)
    ensures DelimitsAt(HostFramer, d, e)
  {
    if d != [] && HostFramer(d).Take? {
      var n := HostFramer(d).n;
      var x := d[..n];
      assert (d + e)[0] == d[0] == x[0];
      if d[0] == LOG_INFO {
        IndexOfUnique(d + e, NEWLINE, n - 1);
        IndexOfUnique(x, NEWLINE, n - 1);
      } else if d[0] == LOG_INFO_UART {
        SliceOfAppend(d, e, 1, 5);
        SliceOfTake(d, n, 1, 5);
      } else if d[0] == RECEIVED_PACKET {
        SliceOfAppend(d, e, 7, 11);
        SliceOfTake(d, n, 7, 11);
      }
    }
  }

  lemma HostDelimits()
    ensures Delimits(HostFramer)
  {
    forall d, e ensures DelimitsAt(HostFramer, d, e) {
      HostDelimitsAt(d, e);
    }
  }

  /** The identifiers the host knows. */
  predicate IsHostId(b: byte) {
    b == START_DEVICE || b == LOG_INFO || b == LOG_INFO_UART || b == PING || b == RECEIVED_PACKET
  }

  /**
   * For the host: decoding does not depend on how reads cut the stream exactly when no byte after
   * the first unknown identifier at a frame boundary is a known identifier.
   */
  lemma HostChunkIndependence(d: Bytes)
    ensures (forall chunks | Flatten(chunks) == d :: Feed(HostFramer, [], chunks) == Parse(HostFramer, d))
        <==> forall i :: 0 <= i < |AfterJunk(HostFramer, d)| ==> !IsHostId(AfterJunk(HostFramer, d)[i])
  {
    HostDelimits();
    ChunkIndependence(HostFramer, d);
    var after := AfterJunk(HostFramer, d);
    assert forall i :: 0 <= i < |after| ==> (HostFramer([after[i]]).Junk? <==> !IsHostId(after[i]));
  }

  /** It does depend on it in general: a ping after garbage is lost or kept. */
  lemma GarbageHidesPing()
    ensures var ping: Bytes := [PING, 105, 110, 103];
      && Parse(HostFramer, [255] + ping) == Parsed([], [])
      && Feed(HostFramer, [], [[255], ping]) == Parsed([ping], [])
  {
    var ping: Bytes := [PING, 105, 110, 103];
    assert [] + [255] == [255] && [] + ping == ping;
    var c: seq<Bytes> := [[255], ping];
    assert c[1..] == [ping] && c[1..][1..] == [];
    assert HostFramer(ping) == Take(4) && ping[..4] == ping && ping[4..] == [];
    assert Parse(HostFramer, ping) == Parsed([ping], []);
    assert Feed(HostFramer, [], c[1..]) == Parsed([ping] + [], []);
  }

  // ---------- messages ----------

  datatype Message =
    | Announce(start: StartDevice)
    | ConsoleLog(line: Bytes)
    | UartLog(text: Bytes)
    | Ping(filler: Bytes)
    | Received(packet: Packet)
  {
    predicate Valid() {
      match this
      case Announce(s) => s.WellSized() && s.id == START_DEVICE
      case ConsoleLog(line) => NEWLINE !in line
      case UartLog(text) => |text| < TWO_32
      case Ping(filler) => |filler| == 3
      case Received(p) => p.Valid()
    }
  }

  /** The frame that carries a message. */
  function Encode(m: Message): (b: Bytes)
    requires m.Valid()
    ensures b != []
  {
    match m
    case Announce(s) => Image(s)
    case ConsoleLog(line) => [LOG_INFO] + line + [NEWLINE]
    case UartLog(text) => [LOG_INFO_UART] + BigEndian(4, |text|) + text
    case Ping(filler) => [PING] + filler
    case Received(p) => PacketImage(RECEIVED_PACKET, p)
  }

  /** The message a frame carries. */
  function Meaning(x: Bytes): (m: Message)
    requires IsFrame(HostFramer, x)
    ensures m.Valid()
  {
    if x[0] == START_DEVICE then Announce(FromImage(x))
    else if x[0] == LOG_INFO then ConsoleLog(x[1..|x| - 1])
    else if x[0] == LOG_INFO_UART then WordWidths(); UartLog(x[5..])
    else if x[0] == PING then Ping(x[1..])
    else Received(PacketAt(x))
  }

  /** Frames and messages correspond one to one. */
  lemma EncodeIsFrame(m: Message)
    requires m.Valid()
    ensures IsFrame(HostFramer, Encode(m)) && !HostFramer([Encode(m)[0]]).Junk?
    ensures Meaning(Encode(m)) == m
  {
    var x := Encode(m);
    match m
    case Announce(s) =>
      LayoutRoundTrip(s, x, []);
      assert x + [] == x;
    case ConsoleLog(line) =>
      IndexOfUnique(x, NEWLINE, |x| - 1);
    case UartLog(text) =>
      WordWidths();
      BigRoundTrip(4, |text|);
      Middle([LOG_INFO_UART], BigEndian(4, |text|), text);
    case Ping(filler) =>
    case Received(p) =>
      LengthOfImage(RECEIVED_PACKET, p, []);
      assert x + [] == x;
      PacketRoundTrip(RECEIVED_PACKET, p, x, []);
  }

  /** What a frame looks like on the wire, byte by byte. */
  lemma FrameBytes(m: Message)
    requires m.Valid()
    ensures var x := Encode(m);
      match m
      case Announce(s) => |x| == 34 && x[0] == 0 && x[1..14] == s.header && x[14..24] == s.name && x[28..34] == s.mac
      case ConsoleLog(line) => x[0] == 'I' as int && x[1..|x| - 1] == line && x[|x| - 1] == 10
      case UartLog(text) =>
        |x| >= 5 && x[0] == 'i' as int && Word(x[1], x[2], x[3], x[4]) == |text| && x[5..] == text
      case Ping(filler) => |x| == 4 && x[0] == 'P' as int && x[1..] == filler
      case Received(p) =>
        |x| >= 11 && x[0] == 'R' as int && x[1..7] == p.mac
        && Word(x[7], x[8], x[9], x[10]) == |p.data| && x[11..] == p.data
  {
    hide BigEndian;
    match m
    case Announce(s) => FieldPositions(s);
    case UartLog(text) => BytesOfWord(|text|);
    case Received(p) => PacketFields(RECEIVED_PACKET, p);
    case _ =>
  }

  lemma Split(x: Bytes, i: nat, j: nat)
    requires i <= j <= |x|
    ensures x == x[..i] + x[i..j] + x[j..]
    ensures i == 1 ==> x[..i] == [x[0]]
    ensures j + 1 == |x| ==> x[j..] == [x[j]]
  {
  }

  lemma MeaningIsExact(x: Bytes)
    requires IsFrame(HostFramer, x)
    ensures Encode(Meaning(x)) == x
  {
    if x[0] == START_DEVICE {
      LayoutRoundTrip(FromImage(x), x, []);
    } else if x[0] == LOG_INFO {
      Split(x, 1, |x| - 1);
    } else if x[0] == LOG_INFO_UART {
      BigOfBytes(x[1..5]);
      Split(x, 1, 5);
    } else if x[0] == RECEIVED_PACKET {
      PacketRoundTrip(RECEIVED_PACKET, PacketAt(x), x, []);
    }
  }

  predicate AllFrames(xs: seq<Bytes>) {
    forall i :: 0 <= i < |xs| ==> IsFrame(HostFramer, xs[i])
  }

  predicate AllValid(ms: seq<Message>) {
    forall i :: 0 <= i < |ms| ==> ms[i].Valid()
  }

  function Meanings(xs: seq<Bytes>): (ms: seq<Message>)
    requires AllFrames(xs)
    ensures |ms| == |xs| && AllValid(ms)
    ensures forall i :: 0 <= i < |xs| ==> ms[i] == Meaning(xs[i])
  {
    if xs == [] then [] else Meanings(xs[..|xs| - 1]) + [Meaning(xs[|xs| - 1])]
  }

  function Encodings(ms: seq<Message>): (xs: seq<Bytes>)
    requires AllValid(ms)
    ensures |xs| == |ms|
    ensures forall i :: 0 <= i < |ms| ==> xs[i] == Encode(ms[i])
  {
    seq(|ms|, i requires 0 <= i < |ms| => Encode(ms[i]))
  }

  lemma EncodingsCons(ms: seq<Message>)
    requires AllValid(ms) && ms != []
    ensures Encodings(ms) == [Encode(ms[0])] + Encodings(ms[1..])
    ensures Flatten(Encodings(ms)) == Encode(ms[0]) + Flatten(Encodings(ms[1..]))
  {
    hide Encode;
    assert Encodings(ms)[1..] == Encodings(ms[1..]);
  }

  lemma EncodingsSnoc(ms: seq<Message>, m: Message)
    requires AllValid(ms) && m.Valid()
    ensures AllValid(ms + [m]) && Flatten(Encodings(ms + [m])) == Flatten(Encodings(ms)) + Encode(m)
  {
    assert Encodings(ms + [m]) == Encodings(ms) + [Encode(m)];
    FlattenSnoc(Encodings(ms), Encode(m));
  }

  lemma {:induction false} ParsedAreFrames(d: Bytes)
    ensures AllFrames(Parse(HostFramer, d).frames)
    decreases |d|
  {
    if d != [] && HostFramer(d).Take? {
      HostDelimitsAt(d, []);
      ParsedAreFrames(d[HostFramer(d).n..]);
    }
  }

  /** The messages the host finds in a buffer, in order. */
  function Decode(d: Bytes): (ms: seq<Message>)
    ensures AllValid(ms)
  {
    ParsedAreFrames(d);
    Meanings(Parse(HostFramer, d).frames)
  }

  lemma MeaningsNone()
    ensures Meanings([]) == []
  {
  }

  lemma MeaningsOne(x: Bytes)
    requires IsFrame(HostFramer, x)
    ensures AllFrames([x]) && Meanings([x]) == [Meaning(x)]
  {
  }

  lemma MeaningsAppend(a: seq<Bytes>, b: seq<Bytes>)
    requires AllFrames(a) && AllFrames(b)
    ensures AllFrames(a + b) && Meanings(a + b) == Meanings(a) + Meanings(b)
  {
    hide HostFramer, Meaning;
    assert forall i :: 0 <= i < |a + b| ==> (a + b)[i] == if i < |a| then a[i] else b[i - |a|];
  }

  lemma DecodeNothing(d: Bytes)
    requires Parse(HostFramer, d).frames == []
    ensures Decode(d) == []
  {
  }

  lemma DecodeSame(a: Bytes, b: Bytes)
    requires Parse(HostFramer, a) == Parse(HostFramer, b)
    ensures Decode(a) == Decode(b)
  {
  }

  /** A clean beginning can be decoded first and its rest joined to what follows. */
  lemma DecodeAppend(a: Bytes, b: Bytes)
    requires Clean(HostFramer, a)
    ensures Decode(a + b) == Decode(a) + Decode(Parse(HostFramer, a).rest + b)
    ensures Parse(HostFramer, a + b).rest == Parse(HostFramer, Parse(HostFramer, a).rest + b).rest
  {
    hide HostFramer, Meanings, Meaning, Clean;
    HostDelimits();
    ParseAppend(HostFramer, a, b);
    var p := Parse(HostFramer, a);
    ParsedAreFrames(a);
    ParsedAreFrames(p.rest + b);
    MeaningsAppend(p.frames, Parse(HostFramer, p.rest + b).frames);
  }

  /**
   * Whatever sequence of messages is written, with the beginning of one more, and however the
   * bytes are cut by reads, the host finds exactly those messages and keeps that beginning.
   */
  lemma DecodeEncoded(ms: seq<Message>, next: Message, k: nat, chunks: seq<Bytes>)
    requires AllValid(ms) && next.Valid() && k < |Encode(next)|
    requires Flatten(chunks) == Flatten(Encodings(ms)) + Encode(next)[..k]
    ensures Feed(HostFramer, [], chunks) == Parsed(Encodings(ms), Encode(next)[..k])
    ensures Decode(Flatten(chunks)) == ms
    ensures Clean(HostFramer, Flatten(chunks))
  {
    hide HostFramer, Encode, Meaning, Feed, Clean;
    HostDelimits();
    EncodeIsFrame(next);
    BeginningWaits(HostFramer, Encode(next), k);
    forall i | 0 <= i < |ms| ensures IsFrame(HostFramer, Encodings(ms)[i]) && Meaning(Encodings(ms)[i]) == ms[i] {
      EncodeIsFrame(ms[i]);
    }
    ParseFrames(HostFramer, Encodings(ms), Encode(next)[..k]);
    ChunkIndependence(HostFramer, Flatten(chunks));
    assert Decode(Flatten(chunks)) == ms;
  }

  // ---------- any beginning of a stream of messages ----------

  lemma OneMore(ms: seq<Message>, i: nat, tail: Bytes)
    requires AllValid(ms) && i < |ms|
    ensures Encode(ms[0]) + (Flatten(Encodings(ms[1..][..i])) + tail) == Flatten(Encodings(ms[..i + 1])) + tail
  {
    hide Encode, Encodings, Flatten;
    assert ms[..i + 1][1..] == ms[1..][..i] && ms[..i + 1][0] == ms[0];
    EncodingsCons(ms[..i + 1]);
    Associative(Encode(ms[0]), Flatten(Encodings(ms[1..][..i])), tail);
  }

  lemma NoEncodings()
    ensures Encodings([]) == [] && Flatten([]) == []
  {
  }

  /** A beginning of a stream is some whole messages and a proper beginning of the next. */
  lemma {:induction false} CutStream(ms: seq<Message>, d: Bytes) returns (j: nat, next: Message, k: nat)
    requires AllValid(ms) && d <= Flatten(Encodings(ms))
    ensures j <= |ms| && next.Valid() && k < |Encode(next)|
    ensures d == Flatten(Encodings(ms[..j])) + Encode(next)[..k]
  {
    hide Encode, Encodings, Flatten;
    NoEncodings();
    assert ms[..0] == [];
    if ms == [] {
      j, next, k := 0, Ping([0, 0, 0]), 0;
    } else {
      var x := Encode(ms[0]);
      EncodingsCons(ms);
      if |d| < |x| {
        j, next, k := 0, ms[0], |d|;
      } else {
        var more := d[|x|..];
        assert d == x + more;
        var i;
        i, next, k := CutStream(ms[1..], more);
        j := i + 1;
        OneMore(ms, i, Encode(next)[..k]);
      }
    }
  }

  /** The host decodes from a beginning of a stream a beginning of its messages. */
  lemma DecodeBeginning(ms: seq<Message>, d: Bytes) returns (j: nat)
    requires AllValid(ms) && d <= Flatten(Encodings(ms))
    ensures j <= |ms| && Decode(d) == ms[..j] && Clean(HostFramer, d)
    ensures ms != [] ==> (j > 0 <==> |d| >= |Encode(ms[0])|)
  {
    hide HostFramer, Encode, Encodings, Parse, Decode, Feed, Clean;
    var next, k;
    j, next, k := CutStream(ms, d);
    FlattenSnoc([], d);
    assert [] + [d] == [d];
    DecodeEncoded(ms[..j], next, k, [d]);
    if ms != [] {
      FirstFrame(ms, d);
      if j == 0 {
        assert Parse(HostFramer, d).frames == Encodings(ms[..j]) by { FeedOne(d); }
      } else {
        StartsWithFirst(ms, j);
      }
    }
  }

  lemma FeedOne(d: Bytes)
    ensures Feed(HostFramer, [], [d]) == Parse(HostFramer, d)
  {
    assert [] + d == d && [d][1..] == [];
  }

  lemma StartsWithFirst(ms: seq<Message>, j: nat)
    requires AllValid(ms) && 0 < j <= |ms|
    ensures |Flatten(Encodings(ms[..j]))| >= |Encode(ms[0])|
  {
    assert Encodings(ms[..j])[0] == Encode(ms[0]);
  }

  lemma FirstFrame(ms: seq<Message>, d: Bytes)
    requires AllValid(ms) && ms != [] && d <= Flatten(Encodings(ms))
    ensures |d| >= |Encode(ms[0])| ==> Parse(HostFramer, d).frames != []
  {
    hide HostFramer, Encode;
    var x := Encode(ms[0]);
    if |d| >= |x| {
      HostDelimits();
      EncodeIsFrame(ms[0]);
      assert Encodings(ms)[0] == x;
      assert d == x + d[|x|..];
      assert DelimitsAt(HostFramer, x, d[|x|..]);
    }
  }

  // ---------- the daemon's state ----------

  datatype DeviceDetails = DeviceDetails(name: Bytes, mac: Bytes, version: byte, firmware: FirmwareVersion)

  /** A C string: the bytes before the first zero. */
  function CString(b: Bytes): Bytes {
    b[..IndexOf(b, 0)]
  }

  function DetailsOf(s: StartDevice): DeviceDetails {
    DeviceDetails(CString(s.name), s.mac, s.version, s.firmware)
  }

  const NO_DETAILS: DeviceDetails := DeviceDetails([], [0, 0, 0, 0, 0, 0], 0, FirmwareVersion(0, 0, 0))

  /** The state frames act on; `tapFrames` and `events` record everything queued and published. */
  datatype HostState = HostState(requestedStart: bool, details: DeviceDetails, events: nat,
                                 tapFrames: seq<Bytes>, broadcastReceived: nat)

  const INITIAL: HostState := HostState(false, NO_DETAILS, 0, [], 0)

  const BROADCAST: Bytes := [0xff, 0xff, 0xff, 0xff, 0xff, 0xff]
  const ETHERTYPE: Bytes := [0x88, 0xb5]
  const TAP_HEADER: nat := 14
  const TAP_BUFFER: nat := 512

  /** The Ethernet frame the host builds for a received packet. */
  function TapFrame(p: Packet): Bytes {
    BROADCAST + p.mac + ETHERTYPE + p.data
  }

  predicate Accepts(m: Message) {
    m.Announce? && m.start.header == HEADER
  }

  function Handle(s: HostState, m: Message): HostState {
    if Accepts(m) && !s.requestedStart then
      s.(requestedStart := true, details := DetailsOf(m.start), events := s.events + 1)
    else if m.Received? then
      s.(tapFrames := s.tapFrames + [TapFrame(m.packet)], broadcastReceived := (s.broadcastReceived + 1) % TWO_64)
    else s
  }

  function HandleAll(s: HostState, ms: seq<Message>): HostState {
    if ms == [] then s else Handle(HandleAll(s, ms[..|ms| - 1]), ms[|ms| - 1])
  }

  lemma {:induction false} HandleAllAppend(s: HostState, a: seq<Message>, b: seq<Message>)
    ensures HandleAll(s, a + b) == HandleAll(HandleAll(s, a), b)
  {
    if b == [] {
      assert a + b == a;
    } else {
      HandleAllAppend(s, a, b[..|b| - 1]);
      assert (a + b)[..|a + b| - 1] == a + b[..|b| - 1];
    }
  }

  lemma HandleNone(s: HostState)
    ensures HandleAll(s, []) == s
  {
  }

  lemma HandleAllSnoc(s: HostState, ms: seq<Message>, m: Message)
    ensures HandleAll(s, ms + [m]) == Handle(HandleAll(s, ms), m)
  {
    assert (ms + [m])[..|ms + [m]| - 1] == ms;
  }

  /** The frame is broadcast, from the packet's sender, with EtherType 0x88b5 and the packet's payload. */
  lemma TapFrameBytes(p: Packet)
    requires |p.mac| == 6
    ensures var x := TapFrame(p);
      && |x| == 14 + |p.data| && (forall i :: 0 <= i < 6 ==> x[i] == 0xff) && x[6..12] == p.mac
      && x[12] == 0x88 && x[13] == 0xb5 && x[14..] == p.data
  {
    assert TapFrame(p) == BROADCAST + p.mac + (ETHERTYPE + p.data);
  }

  /** The received packets among `ms`, as Ethernet frames. */
  function TapFrames(ms: seq<Message>): seq<Bytes> {
    if ms == [] then []
    else if ms[0].Received? then [TapFrame(ms[0].packet)] + TapFrames(ms[1..])
    else TapFrames(ms[1..])
  }

  /** The first announcement the host accepts. */
  function FirstAccepted(ms: seq<Message>): Option<StartDevice> {
    if ms == [] then None
    else if Accepts(ms[0]) then Some(ms[0].start)
    else FirstAccepted(ms[1..])
  }

  lemma {:induction false} TapFramesAppend(a: seq<Message>, b: seq<Message>)
    ensures TapFrames(a + b) == TapFrames(a) + TapFrames(b)
    ensures FirstAccepted(a + b) == if FirstAccepted(a).Some? then FirstAccepted(a) else FirstAccepted(b)
  {
    if a == [] {
      assert a + b == b;
    } else {
      TapFramesAppend(a[1..], b);
      assert (a + b)[1..] == a[1..] + b;
    }
  }

  lemma TapFramesSnoc(ms: seq<Message>, m: Message)
    ensures TapFrames(ms + [m]) == if m.Received? then TapFrames(ms) + [TapFrame(m.packet)] else TapFrames(ms)
    ensures FirstAccepted(ms + [m]) ==
      if FirstAccepted(ms).None? && Accepts(m) then Some(m.start) else FirstAccepted(ms)
  {
    hide TapFrame;
    TapFramesAppend(ms, [m]);
    assert TapFrames([m]) == if m.Received? then [TapFrame(m.packet)] else [];
    assert FirstAccepted([m]) == if Accepts(m) then Some(m.start) else None;
  }

  lemma {:induction false} RequestedAfter(s: HostState, ms: seq<Message>)
    ensures HandleAll(s, ms).requestedStart <==> s.requestedStart || FirstAccepted(ms).Some?
  {
    if ms != [] {
      var n := |ms| - 1;
      RequestedAfter(s, ms[..n]);
      TapFramesSnoc(ms[..n], ms[n]);
      assert ms[..n] + [ms[n]] == ms;
    }
  }

  lemma CounterWraps(n: nat)
    ensures (n % TWO_64 + 1) % TWO_64 == (n + 1) % TWO_64
  {
  }

  /**
   * What a whole history does: every received packet becomes one Ethernet frame in order, the
   * counter counts them modulo 2^64, only the first accepted announcement sets the details, and
   * the new-device event is published for it and never again.
   */
  lemma {:induction false} HistoryEffect(ms: seq<Message>)
    ensures HandleAll(INITIAL, ms) ==
      HostState(FirstAccepted(ms).Some?,
                if FirstAccepted(ms).Some? then DetailsOf(FirstAccepted(ms).value) else NO_DETAILS,
                if FirstAccepted(ms).Some? then 1 else 0,
                TapFrames(ms), |TapFrames(ms)| % 0x1_0000_0000_0000_0000)
  {
    if ms == [] {
      HandleNone(INITIAL);
    } else {
      hide TapFrame, TapFrames, FirstAccepted, DetailsOf, HandleAll;
      var init, last := ms[..|ms| - 1], ms[|ms| - 1];
      HistoryEffect(init);
      assert ms == init + [last];
      HandleAllSnoc(INITIAL, init, last);
      TapFramesSnoc(init, last);
      CounterWraps(|TapFrames(init)|);
    }
  }

  // ---------- what is stored about a device ----------

  predicate Spells(b: Bytes, s: string) {
    |b| == |s| && forall i :: 0 <= i < |s| ==> b[i] == s[i] as int
  }

  /** An announcement with the header the host looks for. */
  predicate Introduces(m: Message) {
    m.Announce? && Spells(m.start.header, "espnowonlinux")
  }

  lemma AcceptsIntroductions(m: Message)
    ensures Accepts(m) <==> Introduces(m)
  {
    assert Spells(HEADER, "espnowonlinux");
    if Introduces(m) {
      assert m.start.header == HEADER;
    }
  }

  lemma {:induction false} FirstAcceptedAt(ms: seq<Message>, i: nat)
    requires i <= |ms| && (forall k :: 0 <= k < i ==> !Introduces(ms[k])) && (i < |ms| ==> Introduces(ms[i]))
    ensures FirstAccepted(ms) == if i < |ms| then Some(ms[i].start) else None
  {
    if ms != [] {
      AcceptsIntroductions(ms[0]);
      if i > 0 {
        FirstAcceptedAt(ms[1..], i - 1);
      }
    }
  }

  /**
   * After any history the host has stored what the first introduction in it says: the name up to
   * its terminator, whatever is behind it, and address, version and all of the firmware's version.
   */
  lemma StoredDetails(ms: seq<Message>, i: nat, text: Bytes, tail: Bytes)
    requires i < |ms| && (forall k :: 0 <= k < i ==> !Introduces(ms[k])) && Introduces(ms[i])
    requires 0 !in text && ms[i].start.name == text + [0] + tail
    ensures var s, a := HandleAll(INITIAL, ms), ms[i].start;
      && s.requestedStart && s.events == 1
      && s.details.name == text && s.details.mac == a.mac && s.details.version == a.version
      && s.details.firmware.major == a.firmware.major && s.details.firmware.minor == a.firmware.minor
      && s.details.firmware.patch == a.firmware.patch
  {
    hide HandleAll, FirstAccepted;
    HistoryEffect(ms);
    FirstAcceptedAt(ms, i);
    IndexOfUnique(ms[i].start.name, 0, |text|);
  }

  /** Without an introduction nothing is stored, published or requested. */
  lemma NothingStored(ms: seq<Message>)
    requires forall k :: 0 <= k < |ms| ==> !Introduces(ms[k])
    ensures var s := HandleAll(INITIAL, ms); !s.requestedStart && s.events == 0 && s.details == INITIAL.details
  {
    hide HandleAll, FirstAccepted;
    HistoryEffect(ms);
    FirstAcceptedAt(ms, |ms|);
  }
}
