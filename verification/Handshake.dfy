/**
 * Starting a device: it announces itself until it reads the host's answer. The two byte channels
 * are lossless queues; the host's answer passes through its write queue.
 */
module Handshake {
  import opened Bytes
  import opened Framing
  import opened Messages
  import opened StartDeviceCodec
  import opened HostProtocol
  import DP = DeviceProtocol
  import HD = HostDevice
  import WQ = WriteQueues

  const POLL_BUFFER: nat := 256

  /**
   * `up` is every byte the device wrote and `sent` the messages they carry; the host has read
   * `upRead` of them and keeps `rest`. The device has read `downRead` bytes of what the host's
   * operations carried. History: whether a TAP frame was written before the device started, how
   * many were written, and whether the first of them found the host's queue non-empty.
   */
  datatype Link = Link(sent: seq<Message>, up: Bytes, upRead: nat, rest: Bytes, host: HostState,
                       port: WQ.WriteQueue, downRead: nat, started: bool,
                       early: bool, taps: nat, hasty: bool)

  function Down(s: Link): Bytes {
    WQ.IssuedBytes(s.port.enqueued, s.port.issued)
  }

  datatype Event =
    | AnnounceAgain(ok: bool)
    | Poll(n: nat)
    | Traffic(m: Message)
    | HostRead(n: nat)
    | TapWrite(p: Packet)
    | PortCompletes

  /** The daemon forwards TAP frames from the beginning; a name it might store is terminated. */
  predicate Enabled(s: Link, e: Event) {
    match e
    case AnnounceAgain(ok) => !s.started
    case Poll(n) => !s.started && n <= POLL_BUFFER && s.downRead + n <= |Down(s)|
    case Traffic(m) => s.started && m.Valid() && (m.Announce? ==> 0 in m.start.name)
    case HostRead(n) => s.upRead + n <= |s.up| && |s.port.queue| <= |s.port.enqueued|
    case TapWrite(p) => p.Valid() && |p.data| <= TAP_BUFFER - TAP_HEADER && |s.port.queue| <= |s.port.enqueued|
    case PortCompletes => WQ.Enabled(s.port, WQ.Completed)
  }

  /** The device's announcement is `a`. */
  function Next(a: StartDevice, s: Link, e: Event): Link
    requires a.WellSized() && a.id == START_DEVICE && Enabled(s, e)
  {
    match e
    case AnnounceAgain(ok) =>
      if ok then s.(sent := s.sent + [Announce(a)], up := s.up + Image(a)) else s
    case Poll(n) =>
      s.(downRead := s.downRead + n, started := BeginsAtStart(s, n))
    case Traffic(m) =>
      s.(sent := s.sent + [m], up := s.up + Encode(m))
    case HostRead(n) =>
      var d := s.rest + s.up[s.upRead..s.upRead + n];
      var host := HandleAll(s.host, Decode(d));
      s.(upRead := s.upRead + n, rest := Parse(HostFramer, d).rest, host := host,
         port := if host.requestedStart && !s.host.requestedStart then WQ.WriteFrame(s.port, [START_HOST]) else s.port)
    case TapWrite(p) =>
      s.(port := WQ.WriteFrame(s.port, PacketImage(PACKET_TO_SEND, p)),
         early := s.early || !s.started, taps := s.taps + 1,
         hasty := if s.taps == 0 then s.port.queue != [] else s.hasty)
    case PortCompletes => s.(port := WQ.Complete(s.port))
  }

  /** The device looks only at the first byte a poll returns, whatever frame it belongs to. */
  predicate BeginsAtStart(s: Link, n: nat)
    requires s.downRead + n <= |Down(s)|
  {
    n > 0 && Down(s)[s.downRead] == START_HOST
  }

  const NEW_LINK: Link := Link([], [], 0, [], INITIAL, WQ.EMPTY, 0, false, false, 0, false)

  predicate EnabledRun(a: StartDevice, s: Link, es: seq<Event>)
    requires a.WellSized() && a.id == START_DEVICE
    decreases |es|
  {
    es == [] || (Enabled(s, es[0]) && EnabledRun(a, Next(a, s, es[0]), es[1..]))
  }

  function Run(a: StartDevice, s: Link, es: seq<Event>): Link
    requires a.WellSized() && a.id == START_DEVICE && EnabledRun(a, s, es)
    decreases |es|
  {
    if es == [] then s else Run(a, Next(a, s, es[0]), es[1..])
  }

  // ---------- invariant ----------

  ghost predicate HostSide(s: Link) {
    && s.upRead <= |s.up|
    && s.host == HandleAll(INITIAL, Decode(s.up[..s.upRead]))
    && s.rest == Parse(HostFramer, s.up[..s.upRead]).rest
  }

  ghost predicate DeviceSide(a: StartDevice, s: Link) {
    && AllValid(s.sent) && s.up == Flatten(Encodings(s.sent))
    && (!s.early && s.sent != [] ==> s.sent[0] == Announce(a))
    && (!s.early && s.started ==> s.host.requestedStart)
  }

  /** How many start requests were written. */
  function Starts(frames: seq<Bytes>): nat {
    if frames == [] then 0
    else Starts(frames[..|frames| - 1]) + if frames[|frames| - 1] == [START_HOST] then 1 else 0
  }

  lemma StartsSnoc(frames: seq<Bytes>, x: Bytes)
    ensures Starts(frames + [x]) == Starts(frames) + if x == [START_HOST] then 1 else 0
  {
    assert (frames + [x])[..|frames|] == frames;
  }

  ghost predicate PortSide(s: Link) {
    && WQ.Inv(s.port)
    && Starts(s.port.enqueued) == (if s.host.requestedStart then 1 else 0)
    && (!s.early ==> Orderly(s))
  }

  /** Without TAP traffic before the device starts the start request is frame 0. */
  predicate Orderly(s: Link) {
    && (if s.started then s.downRead == 1 else s.taps == 0 && s.downRead == 0)
    && (s.taps == 0 ==>
         && s.port.enqueued == (if s.host.requestedStart then [[START_HOST]] else [])
         && s.port.issued == (if s.host.requestedStart then [0] else []))
    && (s.taps > 0 ==>
         && s.host.requestedStart && s.port.enqueued != [] && s.port.enqueued[0] == [START_HOST]
         && (if s.hasty then WQ.Times(s.port.issued, 0) >= 2
             else WQ.Times(s.port.issued, 0) == 1 && s.port.Popped() >= 1))
  }

  ghost predicate Inv(a: StartDevice, s: Link) {
    HostSide(s) && DeviceSide(a, s) && PortSide(s) && PollSide(s)
  }

  /** From `w` on every byte a poll can return at once equals the start request's. */
  predicate OnesAt(d: Bytes, w: nat) {
    w + 256 <= |d| && forall i :: w <= i < w + 256 ==> d[i] == 1
  }

  ghost predicate LongOnes(d: Bytes) {
    exists w: nat :: OnesAt(d, w)
  }

  /** Some TAP frame among these holds a byte that a poll takes for a start request. */
  predicate CarriesOne(frames: seq<Bytes>) {
    exists j :: 0 <= j < |frames| && frames[j] != [START_HOST] && START_HOST in frames[j]
  }

  /** What the device has read so far justifies where it is. */
  ghost predicate PollSide(s: Link) {
    && s.downRead <= |Down(s)|
    && (s.started ==> s.host.requestedStart || CarriesOne(s.port.enqueued))
    && (!s.started ==> !LongOnes(Down(s)[..s.downRead]))
  }

  lemma PollStep(a: StartDevice, s: Link, n: nat)
    requires a.WellSized() && a.id == START_DEVICE
    requires PortSide(s) && PollSide(s) && Enabled(s, Poll(n))
    ensures PollSide(Next(a, s, Poll(n)))
  {
    hide WQ.Inv, WQ.IssuedBytes, Starts, HandleAll, Decode, Encode;
    var d, r := Down(s), s.downRead;
    if BeginsAtStart(s, n) {
      var k := WQ.ByteOrigin(s.port.enqueued, s.port.issued, r);
      if s.port.enqueued[k] == [START_HOST] {
        StartsCounts(s.port.enqueued, k);
      }
    } else {
      OnesAreOld(d, r, n);
    }
  }

  /** A poll that begins elsewhere leaves no stretch of such bytes as long as itself behind. */
  lemma OnesAreOld(d: Bytes, r: nat, n: nat)
    requires n <= POLL_BUFFER && r + n <= |d| && (n > 0 ==> d[r] != START_HOST)
    ensures LongOnes(d[..r + n]) ==> LongOnes(d[..r])
  {
    if LongOnes(d[..r + n]) {
      var x := d[..r + n];
      var w: nat :| OnesAt(x, w);
      assert n > 0 ==> x[r] == d[r];
      assert w + POLL_BUFFER <= r;
      assert OnesAt(d[..r], w);
    }
  }

  lemma {:induction false} StartsCounts(frames: seq<Bytes>, k: nat)
    requires k < |frames| && frames[k] == [START_HOST]
    ensures Starts(frames) > 0
  {
    if k < |frames| - 1 {
      StartsCounts(frames[..|frames| - 1], k);
    }
  }

  /** The other steps only append to what the device can read. */
  lemma PollSideKept(s: Link, t: Link)
    requires PollSide(s) && t.downRead == s.downRead && t.started == s.started
    requires s.host.requestedStart ==> t.host.requestedStart
    requires Down(s) <= Down(t) && s.port.enqueued <= t.port.enqueued
    ensures PollSide(t)
  {
    hide Down;
    assert Down(t)[..t.downRead] == Down(s)[..s.downRead];
    if CarriesOne(s.port.enqueued) {
      var j :| 0 <= j < |s.port.enqueued| && s.port.enqueued[j] != [START_HOST] && START_HOST in s.port.enqueued[j];
      assert t.port.enqueued[j] == s.port.enqueued[j];
    }
  }

  lemma OtherStepsKeepPollSide(a: StartDevice, s: Link, e: Event)
    requires a.WellSized() && a.id == START_DEVICE
    requires PortSide(s) && PollSide(s) && Enabled(s, e) && !e.Poll?
    ensures PollSide(Next(a, s, e))
  {
    hide WQ.Inv, WQ.IssuedBytes, WQ.WriteFrame, WQ.Complete, Starts, HandleAll, Decode, Encode, PollSide, PacketImage;
    var t := Next(a, s, e);
    match e {
      case HostRead(n) =>
        RequestedAfter(s.host, Decode(s.rest + s.up[s.upRead..s.upRead + n]));
        PortGrows(s.port, WQ.Wrote([START_HOST]));
      case TapWrite(p) =>
        PortGrows(s.port, WQ.Wrote(PacketImage(PACKET_TO_SEND, p)));
      case PortCompletes =>
        PortGrows(s.port, WQ.Completed);
      case _ =>
    }
    PollSideKept(s, t);
  }

  lemma PortGrows(q: WQ.WriteQueue, e: WQ.Event)
    requires WQ.Inv(q)
    ensures WQ.Enabled(q, e) ==>
      && q.enqueued <= WQ.Next(q, e).enqueued
      && WQ.IssuedBytes(q.enqueued, q.issued) <= WQ.IssuedBytes(WQ.Next(q, e).enqueued, WQ.Next(q, e).issued)
  {
    if WQ.Enabled(q, e) {
      WQ.IssuedGrows(q, e);
    }
  }

  lemma HostReadKeepsHostSide(a: StartDevice, s: Link, n: nat)
    requires a.WellSized() && a.id == START_DEVICE
    requires HostSide(s) && DeviceSide(a, s) && Enabled(s, HostRead(n))
    ensures HostSide(Next(a, s, HostRead(n)))
    ensures s.host.requestedStart ==> Next(a, s, HostRead(n)).host.requestedStart
  {
    hide Decode, Clean, HandleAll, Parse, Encodings, Flatten;
    var seen, chunk := s.up[..s.upRead], s.up[s.upRead..s.upRead + n];
    assert s.up[..s.upRead + n] == seen + chunk;
    var j := DecodeBeginning(s.sent, seen);
    DecodeAppend(seen, chunk);
    HandleAllAppend(INITIAL, Decode(seen), Decode(s.rest + chunk));
    if s.host.requestedStart {
      RequestedAfter(s.host, Decode(s.rest + chunk));
    }
  }

  lemma ReplyKeepsPortSide(a: StartDevice, s: Link, n: nat)
    requires a.WellSized() && a.id == START_DEVICE
    requires PortSide(s) && Enabled(s, HostRead(n))
    requires s.host.requestedStart ==> Next(a, s, HostRead(n)).host.requestedStart
    ensures PortSide(Next(a, s, HostRead(n)))
  {
    hide Decode, HandleAll, WQ.Inv, WQ.WriteFrame, Starts, WQ.Times;
    var t := Next(a, s, HostRead(n));
    if t.host.requestedStart && !s.host.requestedStart {
      WQ.StepKeepsInv(s.port, WQ.Wrote([START_HOST]));
      WQ.PoppedIsOver(s.port, WQ.Wrote([START_HOST]), 0);
      StartsSnoc(s.port.enqueued, [START_HOST]);
      if !s.early {
        FirstWrite(s.port, [START_HOST]);
      }
    }
  }

  lemma TapKeepsPortSide(a: StartDevice, s: Link, p: Packet)
    requires a.WellSized() && a.id == START_DEVICE
    requires PortSide(s) && DeviceSide(a, s) && Enabled(s, TapWrite(p))
    ensures PortSide(Next(a, s, TapWrite(p)))
  {
    hide Decode, HandleAll, Encode, Parse, WQ.Inv, WQ.WriteFrame, Starts, WQ.Times, PacketImage;
    var x := PacketImage(PACKET_TO_SEND, p);
    assert |x| >= PACKET_HEADER;
    WQ.StepKeepsInv(s.port, WQ.Wrote(x));
    WQ.PoppedIsOver(s.port, WQ.Wrote(x), 0);
    StartsSnoc(s.port.enqueued, x);
    if !s.early && s.started && s.taps == 0 {
      FirstTap(s.port, x);
    }
  }

  /** The write after the start request repeats it exactly when it is still in the queue. */
  lemma FirstTap(q: WQ.WriteQueue, x: Bytes)
    requires WQ.Inv(q) && |q.enqueued| == 1 && q.issued == [0]
    ensures var n := WQ.WriteFrame(q, x);
      if q.queue == [] then n.issued == [0, 1] && n.Popped() == 1 && WQ.Times(n.issued, 0) == 1
      else n.issued == [0, 0] && WQ.Times(n.issued, 0) == 2
  {
    hide WQ.Times, WQ.Staircase;
    SmallTimes();
    if q.queue != [] {
      assert q.Popped() == 0;
    }
    var n := WQ.WriteFrame(q, x);
    assert n.issued == [0] + [n.Popped()];
  }

  lemma SmallTimes()
    ensures WQ.Times([0], 0) == 1 && WQ.Times([0, 0], 0) == 2 && WQ.Times([0, 1], 0) == 1
  {
    WQ.TimesSnoc([], 0, 0);
    WQ.TimesSnoc([0], 0, 0);
    WQ.TimesSnoc([0], 1, 0);
    assert [] + [0] == [0] && [0] + [0] == [0, 0] && [0] + [1] == [0, 1];
  }

  lemma CompletionKeepsPortSide(a: StartDevice, s: Link)
    requires a.WellSized() && a.id == START_DEVICE
    requires PortSide(s) && Enabled(s, PortCompletes)
    ensures PortSide(Next(a, s, PortCompletes))
  {
    hide Decode, HandleAll, Encode, Parse, WQ.Inv, WQ.Complete, Starts, WQ.Times;
    QueueCompletion(s.port);
    assert Next(a, s, PortCompletes) == s.(port := WQ.Complete(s.port));
  }

  lemma QueueCompletion(q: WQ.WriteQueue)
    requires WQ.Inv(q) && q.outstanding > 0
    ensures var n := WQ.Complete(q);
      && WQ.Inv(n) && n.enqueued == q.enqueued && n.Popped() >= q.Popped()
      && WQ.Times(n.issued, 0) >= WQ.Times(q.issued, 0)
      && (q.Popped() > 0 ==> WQ.Times(n.issued, 0) == WQ.Times(q.issued, 0))
      && (|q.enqueued| <= 1 ==> n.issued == q.issued)
  {
    hide WQ.Times;
    WQ.StepKeepsInv(q, WQ.Completed);
    WQ.PoppedIsOver(q, WQ.Completed, 0);
    assert q.enqueued + [] == q.enqueued;
  }

  lemma FirstWrite(q: WQ.WriteQueue, frame: Bytes)
    requires WQ.Inv(q) && q.enqueued == []
    ensures var n := WQ.WriteFrame(q, frame);
      WQ.Inv(n) && n.enqueued == [frame] && n.issued == [0]
  {
    WQ.WriteKeepsInv(q, frame);
  }

  lemma DownIsOneByte(s: Link)
    requires PortSide(s) && !s.early && s.taps == 0
    ensures Down(s) == if s.host.requestedStart then [START_HOST] else []
  {
    if s.host.requestedStart {
      assert s.port.issued[..0] == [];
      assert Down(s) == WQ.IssuedBytes(s.port.enqueued, []) + s.port.enqueued[0];
    }
  }

  lemma StepKeepsInv(a: StartDevice, s: Link, e: Event)
    requires a.WellSized() && a.id == START_DEVICE
    requires Inv(a, s) && Enabled(s, e)
    ensures Inv(a, Next(a, s, e))
  {
    hide Decode, Clean, HandleAll, Encode, Encodings, Flatten, Parse, Down, WQ.Inv, WQ.WriteFrame, WQ.Complete;
    hide WQ.Enabled, WQ.Times, Starts, PollSide;
    if e.Poll? {
      PollStep(a, s, e.n);
    } else {
      OtherStepsKeepPollSide(a, s, e);
    }
    match e
    case HostRead(k) =>
      HostReadKeepsHostSide(a, s, k);
      ReplyKeepsPortSide(a, s, k);
    case AnnounceAgain(ok) =>
      EncodeAnnounce(a);
      DeviceWrites(a, s, Announce(a));
    case Traffic(m) =>
      if !s.early { StartedMeansSent(a, s); }
      DeviceWrites(a, s, m);
    case Poll(k) =>
      if !s.early { DownIsOneByte(s); }
    case TapWrite(p) =>
      TapKeepsPortSide(a, s, p);
    case PortCompletes =>
      CompletionKeepsPortSide(a, s);
  }

  lemma DeviceWrites(a: StartDevice, s: Link, m: Message)
    requires Inv(a, s) && m.Valid() && (!s.early && s.sent == [] ==> m == Announce(a))
    ensures Inv(a, s.(sent := s.sent + [m], up := s.up + Encode(m)))
  {
    hide Decode, HandleAll, Encode, Encodings, Flatten, Parse, WQ.Inv, WQ.Times, Starts;
    EncodingsSnoc(s.sent, m);
    assert (s.up + Encode(m))[..s.upRead] == s.up[..s.upRead];
  }

  lemma EncodeAnnounce(a: StartDevice)
    requires a.WellSized() && a.id == START_DEVICE
    ensures Announce(a).Valid() && Encode(Announce(a)) == Image(a)
  {
  }

  lemma StartedMeansSent(a: StartDevice, s: Link)
    requires HostSide(s) && DeviceSide(a, s) && !s.early && s.started
    ensures s.sent != []
  {
    var j := DecodeBeginning(s.sent, s.up[..s.upRead]);
    if s.sent == [] {
      HistoryEffect([]);
    }
  }

  lemma {:induction false} RunKeepsInv(a: StartDevice, s: Link, es: seq<Event>)
    requires a.WellSized() && a.id == START_DEVICE
    requires Inv(a, s) && EnabledRun(a, s, es)
    ensures Inv(a, Run(a, s, es))
    decreases |es|
  {
    if es != [] {
      hide Inv, Next, Enabled;
      StepKeepsInv(a, s, es[0]);
      RunKeepsInv(a, Next(a, s, es[0]), es[1..]);
    }
  }

  /**
   * In every reachable state: the host stores the details of the first accepted announcement it
   * has read, publishes one new-device event for it and writes one start request, however many
   * announcements arrive. If no TAP frame was written before the device started: the host accepts
   * exactly when it has read one whole announcement; the device has left its loop only if the host
   * accepted it; until then the wire carries the start request and nothing else; and operations
   * carry it exactly once if and only if the first TAP frame, if any, found the queue empty.
   */
  lemma HandshakeSafety(a: StartDevice, es: seq<Event>)
    requires a.WellSized() && a.id == START_DEVICE && a.header == HEADER && 0 in a.name
    requires EnabledRun(a, NEW_LINK, es)
    ensures var s := Run(a, NEW_LINK, es);
      && s.upRead <= |s.up|
      && var first := FirstAccepted(Decode(s.up[..s.upRead]));
      && (s.host.requestedStart <==> first.Some?)
      && s.host.events == (if first.Some? then 1 else 0)
      && s.host.details == (if first.Some? then DetailsOf(first.value) else NO_DETAILS)
      && Starts(s.port.enqueued) == (if first.Some? then 1 else 0)
      && (!s.early ==>
           && (first.Some? <==> s.upRead >= START_DEVICE_SIZE) && (first.Some? ==> first.value == a)
           && (s.started ==>
                && first.Some? && s.port.issued != [] && s.downRead == 1
                && Down(s) == [START_HOST] + WQ.IssuedBytes(s.port.enqueued, s.port.issued[1..]))
           && (!s.started ==> s.downRead == 0 && Down(s) == (if first.Some? then [START_HOST] else []))
           && (first.Some? ==>
                && s.port.enqueued != [] && s.port.enqueued[0] == [START_HOST]
                && (WQ.Times(s.port.issued, 0) == 1 <==> s.taps == 0 || !s.hasty)))
  {
    hide HandleAll, Run, EnabledRun, Down, Starts, WQ.Inv, Decode;
    NewLinkInv(a);
    RunKeepsInv(a, NEW_LINK, es);
    var s := Run(a, NEW_LINK, es);
    HistoryEffect(Decode(s.up[..s.upRead]));
    if !s.early {
      var j := DecodeBeginning(s.sent, s.up[..s.upRead]);
      FirstIsAnnounced(a, s.sent, j);
      if s.started {
        StartComesFirst(s);
      }
      if s.sent == [] {
        assert s.up == [];
      }
      if s.taps == 0 {
        DownIsOneByte(s);
        SmallTimes();
      }
    }
  }

  /** The receiver of packets begins right after the start request. */
  lemma StartComesFirst(s: Link)
    requires WQ.Inv(s.port) && s.port.enqueued != [] && s.port.enqueued[0] == [START_HOST]
    ensures s.port.issued != []
    ensures Down(s) == [START_HOST] + WQ.IssuedBytes(s.port.enqueued, s.port.issued[1..])
  {
    assert s.port.issued == [0] + s.port.issued[1..];
    WQ.IssuedCons(s.port.enqueued, 0, s.port.issued[1..]);
  }

  lemma FirstIsAnnounced(a: StartDevice, ms: seq<Message>, j: nat)
    requires j <= |ms| && (ms != [] ==> ms[0] == Announce(a)) && a.header == HEADER
    ensures FirstAccepted(ms[..j]) == if j > 0 then Some(a) else None
  {
    if j > 0 {
      assert ms[..j][0] == Announce(a);
    }
  }

  lemma NewLinkInv(a: StartDevice)
    requires a.WellSized() && a.id == START_DEVICE
    ensures Inv(a, NEW_LINK)
  {
    var s := NEW_LINK;
    assert Encodings([]) == [];
    assert s.up[..s.upRead] == [];
    assert Decode([]) == [];
  }

  /** Without early TAP traffic the first poll that returns anything starts the device. */
  lemma FirstPollStarts(a: StartDevice, es: seq<Event>, n: nat)
    requires a.WellSized() && a.id == START_DEVICE
    requires EnabledRun(a, NEW_LINK, es) && !Run(a, NEW_LINK, es).early
    requires n > 0 && Enabled(Run(a, NEW_LINK, es), Poll(n))
    ensures Next(a, Run(a, NEW_LINK, es), Poll(n)).started
  {
    hide Run, EnabledRun, Down, HostSide, DeviceSide, WQ.Inv;
    NewLinkInv(a);
    RunKeepsInv(a, NEW_LINK, es);
    DownIsOneByte(Run(a, NEW_LINK, es));
  }

  /**
   * From every reachable state the host can catch up: having read all that was sent it is in the
   * state all messages lead to and keeps nothing back. A started device can always send one more.
   */
  lemma HostCatchesUp(a: StartDevice, es: seq<Event>, m: Message)
    requires a.WellSized() && a.id == START_DEVICE && EnabledRun(a, NEW_LINK, es)
    ensures var s := Run(a, NEW_LINK, es);
      && s.upRead <= |s.up| && Enabled(s, HostRead(|s.up| - s.upRead))
      && var t := Next(a, s, HostRead(|s.up| - s.upRead));
         t.host == HandleAll(INITIAL, s.sent) && t.rest == [] && t.upRead == |s.up|
    ensures var s := Run(a, NEW_LINK, es);
      s.started && m.Valid() && (m.Announce? ==> 0 in m.start.name) ==>
        Enabled(s, Traffic(m)) && Next(a, s, Traffic(m)).sent == s.sent + [m]
  {
    hide Run, EnabledRun, Decode, HandleAll, Parse, Encode, Encodings, Feed, Clean;
    NewLinkInv(a);
    RunKeepsInv(a, NEW_LINK, es);
    var s := Run(a, NEW_LINK, es);
    var n := |s.up| - s.upRead;
    assert |s.port.queue| <= |s.port.enqueued|;
    HostReadKeepsHostSide(a, s, n);
    assert s.up[..s.upRead + n] == s.up;
    DecodeAll(s.sent);
  }

  lemma DecodeAll(ms: seq<Message>)
    requires AllValid(ms)
    ensures Decode(Flatten(Encodings(ms))) == ms && Parse(HostFramer, Flatten(Encodings(ms))).rest == []
  {
    hide HostFramer, Decode, Parse, Encode, Encodings, Feed, Clean;
    var d, filler := Flatten(Encodings(ms)), Ping([0, 0, 0]);
    EncodeIsFrame(filler);
    assert d + Encode(filler)[..0] == d;
    FlattenSnoc([], d);
    assert [] + [d] == [d];
    DecodeEncoded(ms, filler, 0, [d]);
    FeedOne(d);
  }

  // ---------- the daemon's code makes these steps ----------

  /** What the daemon's object holds is what the link says of the host. */
  ghost predicate Represents(device: HD.EspnowUartDevice, s: Link)
    reads device, device.buffer, device.buffer.data, device.port
  {
    && device.Valid() && device.State() == s.host && device.port.Abs() == s.port
    && device.buffer.Contents() == s.rest
  }

  method HostReads(a: StartDevice, ghost s: Link, device: HD.EspnowUartDevice, chunk: Bytes)
    requires a.WellSized() && a.id == START_DEVICE && Represents(device, s)
    requires Enabled(s, HostRead(|chunk|)) && chunk == s.up[s.upRead..s.upRead + |chunk|]
    requires |chunk| <= device.buffer.Writable()
    requires HD.WellFormed(s.host.requestedStart, s.rest + chunk)
    modifies device, device.buffer, device.buffer.data, device.port
    ensures Represents(device, Next(a, s, HostRead(|chunk|)))
  {
    hide HD.WellFormed, Decode, HandleAll, Parse, WQ.WriteFrame, WQ.Inv;
    device.ReadHandle(false, chunk);
  }

  method HostForwards(a: StartDevice, ghost s: Link, device: HD.EspnowUartDevice, frame: Bytes)
    requires a.WellSized() && a.id == START_DEVICE && Represents(device, s)
    requires TAP_HEADER <= |frame| <= TAP_BUFFER && frame[12..14] == ETHERTYPE
    requires Enabled(s, TapWrite(Packet(frame[..6], frame[14..])))
    modifies device, device.port
    ensures Represents(device, Next(a, s, TapWrite(Packet(frame[..6], frame[14..]))))
  {
    hide Decode, HandleAll, Parse, WQ.WriteFrame, WQ.Inv, PacketImage;
    device.TunReadHandle(false, frame);
  }

  // ---------- TAP traffic around the start request ----------

  /**
   * In every run, whatever TAP traffic there is: a device that left its loop was accepted, or some
   * TAP frame holds a byte equal to 1; and one that did not has not read 256 such bytes in a row.
   */
  lemma StartIsJustified(a: StartDevice, es: seq<Event>)
    requires a.WellSized() && a.id == START_DEVICE && EnabledRun(a, NEW_LINK, es)
    ensures var s := Run(a, NEW_LINK, es);
      && s.downRead <= |Down(s)|
      && (s.started ==> s.host.requestedStart || CarriesOne(s.port.enqueued))
      && (!s.started ==> !LongOnes(Down(s)[..s.downRead]))
  {
    hide Run, EnabledRun, Down, HostSide, DeviceSide, PortSide;
    NewLinkInv(a);
    RunKeepsInv(a, NEW_LINK, es);
  }

  lemma {:induction false} RunSnoc(a: StartDevice, s: Link, es: seq<Event>, e: Event)
    requires a.WellSized() && a.id == START_DEVICE
    requires EnabledRun(a, s, es) && Enabled(Run(a, s, es), e)
    ensures EnabledRun(a, s, es + [e]) && Run(a, s, es + [e]) == Next(a, Run(a, s, es), e)
    decreases |es|
  {
    hide Next, Enabled;
    if es == [] {
      assert ([] + [e])[1..] == [];
    } else {
      RunSnoc(a, Next(a, s, es[0]), es[1..], e);
      assert (es + [e])[0] == es[0] && (es + [e])[1..] == es[1..] + [e];
    }
  }

  lemma DecodeOne(m: Message)
    requires m.Valid()
    ensures Decode(Encode(m)) == [m] && Parse(HostFramer, Encode(m)).rest == []
  {
    hide HostFramer, Encode, Meaning, Meanings;
    EncodeIsFrame(m);
    var x := Encode(m);
    assert x[|x|..] == [] && x[..|x|] == x;
    assert Parse(HostFramer, x) == Parsed([x] + [], []);
    assert [x] + [] == [x];
    MeaningsOne(x);
  }

  /** The device announces itself and the host reads the announcement. */
  lemma Accepting(a: StartDevice, es: seq<Event>) returns (longer: seq<Event>)
    requires a.WellSized() && a.id == START_DEVICE && a.header == HEADER
    requires EnabledRun(a, NEW_LINK, es)
    requires var s := Run(a, NEW_LINK, es);
      && s.up == [] && s.upRead == 0 && s.rest == [] && s.host == INITIAL && !s.started
      && |s.port.queue| <= |s.port.enqueued|
    ensures longer == es + [AnnounceAgain(true)] + [HostRead(START_DEVICE_SIZE)]
    ensures EnabledRun(a, NEW_LINK, longer)
    ensures var s, t := Run(a, NEW_LINK, es), Run(a, NEW_LINK, longer);
      && t.host.requestedStart && !t.started && t.port == WQ.WriteFrame(s.port, [START_HOST])
      && t.downRead == s.downRead && t.taps == s.taps && t.early == s.early
  {
    hide Run, EnabledRun, Decode, HandleAll, WQ.WriteFrame, Image, Encode;
    var s := Run(a, NEW_LINK, es);
    RunSnoc(a, NEW_LINK, es, AnnounceAgain(true));
    var announced := Next(a, s, AnnounceAgain(true));
    RunSnoc(a, NEW_LINK, es + [AnnounceAgain(true)], HostRead(START_DEVICE_SIZE));
    var d := announced.rest + announced.up[0..START_DEVICE_SIZE];
    assert d == Image(a);
    EncodeAnnounce(a);
    DecodeOne(Announce(a));
    HandleAllSnoc(INITIAL, [], Announce(a));
    HandleNone(INITIAL);
    assert [] + [Announce(a)] == [Announce(a)];
    longer := es + [AnnounceAgain(true)] + [HostRead(START_DEVICE_SIZE)];
  }

  /**
   * A TAP frame written while the start request's operation is outstanding repeats the request;
   * the device, already started, meets an unknown message there.
   */
  lemma HastyTapRepeatsStart(a: StartDevice, p: Packet)
    requires a.WellSized() && a.id == START_DEVICE && a.header == HEADER
    requires p.Valid() && |p.data| <= TAP_BUFFER - TAP_HEADER
    ensures var es := [AnnounceAgain(true), HostRead(START_DEVICE_SIZE), Poll(1), TapWrite(p)];
      && EnabledRun(a, NEW_LINK, es)
      && var s := Run(a, NEW_LINK, es);
         && s.started && !s.early && s.hasty
         && Down(s) == [START_HOST, START_HOST] && s.downRead == 1
         && DP.DeviceFramer(Down(s)[s.downRead..]).Junk?
  {
    hide Run, EnabledRun, PacketImage;
    Nothing(a);
    var es := Accepting(a, []);
    var s := Run(a, NEW_LINK, es);
    var start: Bytes := [START_HOST];
    assert s.port == WQ.WriteQueue([start], [start], [0], 1);
    IssuedOne([start], [], 0);
    assert Down(s) == start;
    RunSnoc(a, NEW_LINK, es, Poll(1));
    var polled := Next(a, s, Poll(1));
    RunSnoc(a, NEW_LINK, es + [Poll(1)], TapWrite(p));
    RepeatedByTap(a, polled, p);
    assert es + [Poll(1)] + [TapWrite(p)] == [AnnounceAgain(true), HostRead(START_DEVICE_SIZE), Poll(1), TapWrite(p)];
  }

  lemma RepeatedByTap(a: StartDevice, s: Link, p: Packet)
    requires a.WellSized() && a.id == START_DEVICE && Enabled(s, TapWrite(p))
    requires s.port == WQ.WriteQueue([[START_HOST]], [[START_HOST]], [0], 1)
    requires s.started && !s.early && s.taps == 0 && s.downRead == 1
    ensures var t := Next(a, s, TapWrite(p));
      && t.started && !t.early && t.hasty
      && Down(t) == [START_HOST, START_HOST] && t.downRead == 1
      && DP.DeviceFramer(Down(t)[t.downRead..]).Junk?
  {
    hide PacketImage, WQ.IssuedBytes;
    var x, start: Bytes := PacketImage(PACKET_TO_SEND, p), [START_HOST];
    var t := Next(a, s, TapWrite(p));
    assert t.port.enqueued == [start, x] && t.port.issued == [0, 0];
    IssuedOne([start, x], [], 0);
    IssuedOne([start, x], [0], 0);
    assert [0] + [0] == [0, 0] && start + start == [START_HOST, START_HOST];
    assert Down(t) == start + start;
    assert Down(t)[1..] == start;
  }

  lemma Nothing(a: StartDevice)
    requires a.WellSized() && a.id == START_DEVICE
    ensures EnabledRun(a, NEW_LINK, []) && Run(a, NEW_LINK, []) == NEW_LINK
  {
  }

  lemma IssuedOne(enqueued: seq<Bytes>, issued: seq<nat>, i: nat)
    requires i < |enqueued|
    ensures WQ.IssuedBytes(enqueued, []) == []
    ensures WQ.IssuedBytes(enqueued, issued + [i]) == WQ.IssuedBytes(enqueued, issued) + enqueued[i]
    ensures [] + [i] == [i]
  {
    assert (issued + [i])[..|issued|] == issued;
  }

  /** The host has answered for good, and the device has read everything and not noticed. */
  predicate AnswerMissed(s: Link) {
    s.host.requestedStart && !s.started && s.port.queue == [] && s.downRead == |Down(s)|
  }

  lemma StillMissed(a: StartDevice, s: Link, e: Event)
    requires a.WellSized() && a.id == START_DEVICE && Enabled(s, e) && AnswerMissed(s) && !e.TapWrite?
    ensures AnswerMissed(Next(a, s, e))
  {
    hide HandleAll, Decode, Encode, Parse, Image, WQ.IssuedBytes, FirstAccepted;
    if e.HostRead? {
      RequestedAfter(s.host, Decode(s.rest + s.up[s.upRead..s.upRead + e.n]));
    }
  }

  /** Then the device stays in its loop as long as no further TAP frame is written. */
  lemma {:induction false} MissedForGood(a: StartDevice, s: Link, es: seq<Event>)
    requires a.WellSized() && a.id == START_DEVICE && EnabledRun(a, s, es) && AnswerMissed(s)
    requires forall i :: 0 <= i < |es| ==> !es[i].TapWrite?
    ensures AnswerMissed(Run(a, s, es))
    decreases |es|
  {
    if es != [] {
      hide Next, Enabled, AnswerMissed;
      StillMissed(a, s, es[0]);
      MissedForGood(a, Next(a, s, es[0]), es[1..]);
    }
  }

  predicate Tappable(p: Packet) {
    p.Valid() && |p.data| <= TAP_BUFFER - TAP_HEADER
  }

  /** The serial frame of a TAP frame. */
  function TapImage(p: Packet): Bytes
    requires p.Valid()
  {
    PacketImage(PACKET_TO_SEND, p)
  }

  /** Polls of at most 256 bytes each can read on to the end and begin at no byte equal to 1. */
  lemma {:induction false} PollToEnd(a: StartDevice, before: seq<Event>) returns (es: seq<Event>)
    requires a.WellSized() && a.id == START_DEVICE && EnabledRun(a, NEW_LINK, before)
    requires var s := Run(a, NEW_LINK, before);
      && !s.started && s.downRead <= |Down(s)| && !LongOnes(Down(s))
      && (s.downRead < |Down(s)| ==> Down(s)[s.downRead] != START_HOST)
    ensures EnabledRun(a, NEW_LINK, es)
    ensures Run(a, NEW_LINK, es) == Run(a, NEW_LINK, before).(downRead := |Down(Run(a, NEW_LINK, before))|)
    decreases |Down(Run(a, NEW_LINK, before))| - Run(a, NEW_LINK, before).downRead
  {
    hide Run, EnabledRun, WQ.IssuedBytes, LongOnes;
    var s := Run(a, NEW_LINK, before);
    var d, r := Down(s), s.downRead;
    es := before;
    if r < |d| {
      var n := NextPoll(d, r);
      RunSnoc(a, NEW_LINK, before, Poll(n));
      var t := Next(a, s, Poll(n));
      assert t == s.(downRead := r + n) && Down(t) == d;
      es := PollToEnd(a, before + [Poll(n)]);
    }
  }

  lemma NextPoll(d: Bytes, r: nat) returns (n: nat)
    requires r < |d| && !LongOnes(d)
    ensures 0 < n <= POLL_BUFFER && r + n <= |d| && (r + n < |d| ==> d[r + n] != START_HOST)
  {
    n := |d| - r;
    if n > POLL_BUFFER {
      assert !OnesAt(d, r + 1);
      var i :| r + 1 <= i < r + 1 + POLL_BUFFER && d[i] != START_HOST;
      n := i - r;
    }
  }

  /** The run misses the answer behind the TAP frame `p`. */
  ghost predicate Misses(a: StartDevice, p: Packet, es: seq<Event>)
    requires a.WellSized() && a.id == START_DEVICE && p.Valid()
  {
    && EnabledRun(a, NEW_LINK, es)
    && var s := Run(a, NEW_LINK, es);
       AnswerMissed(s) && Down(s) == TapImage(p) + [START_HOST]
  }

  /**
   * A TAP frame written before the device started can cost it the answer, which is behind the
   * frame, if and only if the two hold no 256 bytes equal to 1 in a row: only such a stretch
   * makes every way of polling begin at a 1 somewhere.
   */
  lemma EarlyTapHidesStart(a: StartDevice, p: Packet)
    requires a.WellSized() && a.id == START_DEVICE && a.header == HEADER && Tappable(p)
    ensures (exists es :: Misses(a, p, es)) <==> !LongOnes(TapImage(p) + [START_HOST])
  {
    if es :| Misses(a, p, es) {
      StartIsJustified(a, es);
      var s := Run(a, NEW_LINK, es);
      assert Down(s)[..s.downRead] == Down(s);
    }
    if !LongOnes(TapImage(p) + [START_HOST]) {
      var es := MissingRun(a, p);
      assert Misses(a, p, es);
    }
  }

  lemma MissingRun(a: StartDevice, p: Packet) returns (es: seq<Event>)
    requires a.WellSized() && a.id == START_DEVICE && a.header == HEADER && Tappable(p)
    requires !LongOnes(TapImage(p) + [START_HOST])
    ensures Misses(a, p, es)
  {
    hide Run, EnabledRun, TapImage, PacketImage, AnswerMissed, LongOnes;
    var x, start: Bytes := TapImage(p), [START_HOST];
    Nothing(a);
    RunSnoc(a, NEW_LINK, [], TapWrite(p));
    RunSnoc(a, NEW_LINK, [] + [TapWrite(p)], PortCompletes);
    assert PacketImage(PACKET_TO_SEND, p) == x by { IsTapImage(p); }
    es := Accepting(a, [] + [TapWrite(p)] + [PortCompletes]);
    var answered := Run(a, NEW_LINK, es);
    assert answered.port == WQ.WriteQueue([start], [x, start], [0, 1], 1);
    hide Next, WQ.WriteFrame, WQ.Complete;
    var more := Unnoticed(a, es, p);
    es := more;
  }

  lemma IsTapImage(p: Packet)
    requires p.Valid()
    ensures PacketImage(PACKET_TO_SEND, p) == TapImage(p) && |TapImage(p)| >= PACKET_HEADER
    ensures TapImage(p)[0] == PACKET_TO_SEND
  {
  }

  lemma Unnoticed(a: StartDevice, before: seq<Event>, p: Packet) returns (es: seq<Event>)
    requires a.WellSized() && a.id == START_DEVICE && p.Valid() && EnabledRun(a, NEW_LINK, before)
    requires !LongOnes(TapImage(p) + [START_HOST])
    requires var s := Run(a, NEW_LINK, before);
      && s.host.requestedStart && !s.started && s.downRead == 0
      && s.port == WQ.WriteQueue([[START_HOST]], [TapImage(p), [START_HOST]], [0, 1], 1)
    ensures Misses(a, p, es)
  {
    hide Run, EnabledRun, TapImage, WQ.IssuedBytes, LongOnes;
    var x, start: Bytes := TapImage(p), [START_HOST];
    RunSnoc(a, NEW_LINK, before, PortCompletes);
    var drained := Next(a, Run(a, NEW_LINK, before), PortCompletes);
    IssuedOne([x, start], [], 0);
    IssuedOne([x, start], [0], 1);
    assert [0] + [1] == [0, 1];
    assert Down(drained) == x + start;
    IsTapImage(p);
    es := PollToEnd(a, before + [PortCompletes]);
  }

  // ---------- starting without being accepted ----------

  /** With TAP frames from `ps` only, the device leaves its loop though the host did not accept it. */
  ghost predicate StartsFalsely(a: StartDevice, ps: set<Packet>, es: seq<Event>)
    requires a.WellSized() && a.id == START_DEVICE
  {
    && EnabledRun(a, NEW_LINK, es)
    && (forall i :: 0 <= i < |es| && es[i].TapWrite? ==> es[i].p in ps)
    && Run(a, NEW_LINK, es).started && !Run(a, NEW_LINK, es).host.requestedStart
  }

  /** The frame holds a byte equal to 1, in its destination, length or payload. */
  predicate HoldsOne(p: Packet) {
    Tappable(p) && START_HOST in TapImage(p)
  }

  /**
   * The device can leave its loop without having been accepted if and only if some TAP frame that
   * may be written holds a byte equal to 1.
   */
  lemma FalseStart(a: StartDevice, ps: set<Packet>)
    requires a.WellSized() && a.id == START_DEVICE
    ensures (exists es :: StartsFalsely(a, ps, es)) <==> exists p :: p in ps && HoldsOne(p)
  {
    if es :| StartsFalsely(a, ps, es) {
      StartIsJustified(a, es);
      var frames := Run(a, NEW_LINK, es).port.enqueued;
      FramesOfRun(a, NEW_LINK, es, ps);
      var j :| 0 <= j < |frames| && frames[j] != [START_HOST] && START_HOST in frames[j];
      var p :| p in ps && Tappable(p) && frames[j] == TapImage(p);
      assert HoldsOne(p);
    }
    if p :| p in ps && HoldsOne(p) {
      var es := FalseStartRun(a, p);
      assert StartsFalsely(a, ps, es);
    }
  }

  ghost predicate FromTaps(frames: seq<Bytes>, ps: set<Packet>) {
    forall j :: 0 <= j < |frames| ==>
      frames[j] == [START_HOST] || exists p :: p in ps && Tappable(p) && frames[j] == TapImage(p)
  }

  lemma {:induction false} FramesOfRun(a: StartDevice, s: Link, es: seq<Event>, ps: set<Packet>)
    requires a.WellSized() && a.id == START_DEVICE && EnabledRun(a, s, es) && FromTaps(s.port.enqueued, ps)
    requires forall i :: 0 <= i < |es| && es[i].TapWrite? ==> es[i].p in ps
    ensures FromTaps(Run(a, s, es).port.enqueued, ps)
    decreases |es|
  {
    if es != [] {
      FramesOfStep(a, s, es[0], ps);
      hide Next, Enabled, FromTaps;
      FramesOfRun(a, Next(a, s, es[0]), es[1..], ps);
    }
  }

  lemma FramesOfStep(a: StartDevice, s: Link, e: Event, ps: set<Packet>)
    requires a.WellSized() && a.id == START_DEVICE && Enabled(s, e) && FromTaps(s.port.enqueued, ps)
    requires e.TapWrite? ==> e.p in ps
    ensures FromTaps(Next(a, s, e).port.enqueued, ps)
  {
    hide HandleAll, Decode, Encode, Parse, TapImage, PacketImage;
    if e.TapWrite? {
      IsTapImage(e.p);
      assert Tappable(e.p);
    }
  }

  /** One such frame suffices: polls of one byte reach the 1 before anything was announced. */
  lemma FalseStartRun(a: StartDevice, p: Packet) returns (es: seq<Event>)
    requires a.WellSized() && a.id == START_DEVICE && HoldsOne(p)
    ensures StartsFalsely(a, {p}, es)
    ensures var s := Run(a, NEW_LINK, es); s.sent == [] && s.port.enqueued == [TapImage(p)]
  {
    hide Run, EnabledRun, TapImage, PacketImage, WQ.IssuedBytes;
    var x := TapImage(p);
    Nothing(a);
    RunSnoc(a, NEW_LINK, [], TapWrite(p));
    es := [] + [TapWrite(p)];
    var s := Run(a, NEW_LINK, es);
    IsTapImage(p);
    IssuedOne([x], [], 0);
    assert s.port == WQ.WriteQueue([x], [x], [0], 1);
    assert Down(s) == x;
    IndexOfMember(x, START_HOST);
    es := PollOneByOne(a, es, p, IndexOf(x, START_HOST));
    RunSnoc(a, NEW_LINK, es, Poll(1));
    es := es + [Poll(1)];
  }

  lemma IndexOfMember(d: Bytes, b: byte)
    requires b in d
    ensures IndexOf(d, b) < |d|
  {
  }

  lemma {:induction false} PollOneByOne(a: StartDevice, before: seq<Event>, p: Packet, k: nat) returns (es: seq<Event>)
    requires a.WellSized() && a.id == START_DEVICE && EnabledRun(a, NEW_LINK, before)
    requires forall i :: 0 <= i < |before| && before[i].TapWrite? ==> before[i].p == p
    requires var s := Run(a, NEW_LINK, before);
      && !s.started && s.downRead <= k <= |Down(s)|
      && forall i :: s.downRead <= i < k ==> Down(s)[i] != START_HOST
    ensures EnabledRun(a, NEW_LINK, es)
    ensures forall i :: 0 <= i < |es| && es[i].TapWrite? ==> es[i].p == p
    ensures Run(a, NEW_LINK, es) == Run(a, NEW_LINK, before).(downRead := k)
    decreases k - Run(a, NEW_LINK, before).downRead
  {
    hide Run, EnabledRun, WQ.IssuedBytes;
    var s := Run(a, NEW_LINK, before);
    es := before;
    if s.downRead < k {
      RunSnoc(a, NEW_LINK, before, Poll(1));
      var t := Next(a, s, Poll(1));
      assert t == s.(downRead := s.downRead + 1) && Down(t) == Down(s);
      es := PollOneByOne(a, before + [Poll(1)], p, k);
    }
  }
}
