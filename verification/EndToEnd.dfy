/** From one TAP interface to another, and from the radio to a TAP interface. */
module EndToEnd {
  import opened Bytes
  import opened Framing
  import opened Messages
  import opened HostProtocol
  import opened HostDevice
  import opened DeviceProtocol
  import opened Sequences
  import Pool = PacketPool
  import Line = Wire
  import WQ = WriteQueues

  // ---------- the two links of a bridge ----------

  predicate Sendable(tap: Bytes) {
    14 <= |tap| <= 14 + 250
  }

  predicate AllSendable(taps: seq<Bytes>) {
    forall i :: 0 <= i < |taps| ==> Sendable(taps[i])
  }

  /** What the sending host writes to its serial port for the frames its TAP interface delivers. */
  function SerialFrames(taps: seq<Bytes>): seq<Bytes>
    requires AllSendable(taps)
  {
    if taps == [] then []
    else (if Forwarded(taps[0]).Some? then [Forwarded(taps[0]).value] else []) + SerialFrames(taps[1..])
  }

  function PacketOfTap(tap: Bytes): (p: Packet)
    requires Sendable(tap)
    ensures p.Valid()
  {
    Packet(tap[..6], tap[14..])
  }

  /** The packets of the frames that are forwarded. */
  function PacketsOfTaps(taps: seq<Bytes>): (ps: seq<Packet>)
    requires AllSendable(taps)
    ensures forall i :: 0 <= i < |ps| ==> ps[i].Valid()
  {
    if taps == [] then []
    else (if taps[0][12..14] == ETHERTYPE then [PacketOfTap(taps[0])] else []) + PacketsOfTaps(taps[1..])
  }

  /**
   * A lossless radio: the remote receive callback is given the sender's address and the payload,
   * which the radio limits to 250 bytes and the callback to at least one.
   */
  function Air(mac: Bytes, ps: seq<Packet>): (rs: seq<Packet>)
  {
    if ps == [] then []
    else (if 0 < |ps[0].data| <= Pool.MAX_PAYLOAD then [Packet(mac, ps[0].data)] else []) + Air(mac, ps[1..])
  }

  lemma {:induction false} FeedsPackets(rest: Bytes, chunks: seq<Bytes>)
    ensures AllPackets(Feed(DeviceFramer, rest, chunks).frames)
    decreases |chunks|
  {
    if chunks != [] {
      var p := Parse(DeviceFramer, rest + chunks[0]);
      DeviceFramesOf(rest + chunks[0]);
      FeedsPackets(p.rest, chunks[1..]);
      DeliveriesAppend(p.frames, Feed(DeviceFramer, p.rest, chunks[1..]).frames);
    }
  }

  /** The packets the firmware hands to the radio when the host's bytes are read in `chunks`. */
  function FromHost(chunks: seq<Bytes>): seq<Packet> {
    FeedsPackets([], chunks);
    Deliveries(Feed(DeviceFramer, [], chunks).frames)
  }

  lemma {:induction false} FeedsFrames(rest: Bytes, chunks: seq<Bytes>)
    ensures AllFrames(Feed(HostFramer, rest, chunks).frames)
    decreases |chunks|
  {
    if chunks != [] {
      var p := Parse(HostFramer, rest + chunks[0]);
      ParsedAreFrames(rest + chunks[0]);
      FeedsFrames(p.rest, chunks[1..]);
      MeaningsAppend(p.frames, Feed(HostFramer, p.rest, chunks[1..]).frames);
    }
  }

  /** The messages the host handles when the device's bytes are read in `chunks`. */
  function FromDevice(chunks: seq<Bytes>): seq<Message> {
    FeedsFrames([], chunks);
    Meanings(Feed(HostFramer, [], chunks).frames)
  }

  /** The received packets among messages. */
  function PacketsIn(ms: seq<Message>): seq<Packet> {
    if ms == [] then []
    else (if ms[0].Received? then [ms[0].packet] else []) + PacketsIn(ms[1..])
  }

  /** A received packet as a slot holds it after encoding in place, whatever the slot held before. */
  function SlotFrame(o: ByteOrder, stale: Pool.Memory261, p: Packet): Bytes
    requires Pool.Carried(p)
  {
    var filled := Pool.PutPayload(Pool.PutLength(o, Pool.PutMac(stale, p.mac), |p.data|), p.data);
    Pool.SwapLength(o, Pool.PutId(filled))[..PACKET_HEADER + |p.data|]
  }

  /** What should appear at the far TAP interface. */
  function Expected(mac: Bytes, taps: seq<Bytes>): seq<Bytes>
    requires AllSendable(taps) && |mac| == 6
  {
    if taps == [] then []
    else (if taps[0][12..14] == ETHERTYPE && |taps[0]| > TAP_HEADER
          then [BROADCAST + mac + ETHERTYPE + taps[0][14..]] else [])
         + Expected(mac, taps[1..])
  }

  lemma {:induction false} SerialFramesAreToDevice(taps: seq<Bytes>)
    requires AllSendable(taps)
    ensures SerialFrames(taps) == ToDevice(PacketsOfTaps(taps))
  {
    if taps != [] {
      SerialFramesAreToDevice(taps[1..]);
      var ps, rest := PacketsOfTaps(taps), PacketsOfTaps(taps[1..]);
      if taps[0][12..14] == ETHERTYPE {
        assert ps == [PacketOfTap(taps[0])] + rest;
        assert ToDevice(ps) == [DeviceFrame(ps[0])] + ToDevice(rest);
      } else {
        assert ps == rest;
      }
    }
  }

  lemma SlotFrameIsEncoding(o: ByteOrder, stale: Pool.Memory261, p: Packet)
    requires Pool.Carried(p)
    ensures Received(p).Valid() && SlotFrame(o, stale, p) == Encode(Received(p))
  {
    hide Pool.SwapLength, Pool.PutLength, Pool.PutPayload, Pool.PutMac;
    var filled := Pool.PutPayload(Pool.PutLength(o, Pool.PutMac(stale, p.mac), |p.data|), p.data);
    Pool.FillingHolds(o, stale, p);
    Pool.SenderMemory(o, filled, p);
    Pool.SenderMemory(o, Pool.PutId(filled), p);
  }

  lemma {:induction false} TapFramesOfPackets(ms: seq<Message>)
    ensures TapFrames(ms) == Map(TapFrame, PacketsIn(ms))
  {
    if ms != [] {
      TapFramesOfPackets(ms[1..]);
      if ms[0].Received? {
        MapCons(TapFrame, ms[0].packet, PacketsIn(ms[1..]));
      } else {
        assert PacketsIn(ms) == PacketsIn(ms[1..]);
      }
    }
  }

  lemma MapCons<T, U>(f: T -> U, x: T, s: seq<T>)
    ensures Map(f, [x] + s) == [f(x)] + Map(f, s)
  {
    assert forall i :: 0 <= i < |s| + 1 ==> Map(f, [x] + s)[i] == ([f(x)] + Map(f, s))[i];
  }

  lemma {:induction false} AirIsExpected(mac: Bytes, taps: seq<Bytes>)
    requires AllSendable(taps) && |mac| == 6
    ensures Map(TapFrame, Air(mac, PacketsOfTaps(taps))) == Expected(mac, taps)
  {
    if taps != [] {
      hide TapFrame, Map;
      var tap, rest := taps[0], PacketsOfTaps(taps[1..]);
      AirIsExpected(mac, taps[1..]);
      if tap[12..14] == ETHERTYPE {
        var p := PacketOfTap(tap);
        assert PacketsOfTaps(taps) == [p] + rest;
        AirCons(mac, p, rest);
        if |tap| > TAP_HEADER {
          var r := Packet(mac, p.data);
          MapCons(TapFrame, r, Air(mac, rest));
          assert TapFrame(r) == BROADCAST + mac + ETHERTYPE + tap[14..] by { TapFrameOf(r); }
        }
      } else {
        assert PacketsOfTaps(taps) == rest;
      }
    } else {
      assert Map(TapFrame, []) == [];
    }
  }

  lemma TapFrameOf(p: Packet)
    ensures TapFrame(p) == BROADCAST + p.mac + ETHERTYPE + p.data
  {
  }

  lemma AirCons(mac: Bytes, p: Packet, ps: seq<Packet>)
    ensures Air(mac, [p] + ps)
         == (if 0 < |p.data| <= Pool.MAX_PAYLOAD then [Packet(mac, p.data)] else []) + Air(mac, ps)
  {
    assert ([p] + ps)[1..] == ps;
  }

  lemma FirstLeg(taps: seq<Bytes>, cut: seq<Bytes>)
    requires AllSendable(taps) && Flatten(cut) == Flatten(SerialFrames(taps))
    ensures FromHost(cut) == PacketsOfTaps(taps)
  {
    hide DeviceFramer, DeviceFrame, Feed, PacketOf, PacketsOfTaps, SerialFrames, Forwarded;
    var ps := PacketsOfTaps(taps);
    SerialFramesAreToDevice(taps);
    var filler := Packet([0, 0, 0, 0, 0, 0], []);
    assert Flatten(ToDevice(ps)) + DeviceFrame(filler)[..0] == Flatten(ToDevice(ps));
    DeviceChunkIndependence(ps, filler, 0, cut);
    forall i | 0 <= i < |ps| ensures IsFrame(DeviceFramer, ToDevice(ps)[i]) && PacketOf(ToDevice(ps)[i]) == ps[i] {
      ImageIsDeviceFrame(ps[i]);
    }
  }

  lemma MeaningsOfEncodings(ms: seq<Message>)
    requires AllValid(ms)
    ensures AllFrames(Encodings(ms)) && Meanings(Encodings(ms)) == ms
  {
    hide Encode, Meaning, HostFramer;
    forall i | 0 <= i < |ms| ensures IsFrame(HostFramer, Encodings(ms)[i]) && Meaning(Encodings(ms)[i]) == ms[i] {
      EncodeIsFrame(ms[i]);
    }
  }

  // ---------- from the radio to the TAP interface ----------

  /** The frames the forwarder asked to send are the first ones the slot pool offered. */
  ghost predicate Forwards(pool: Pool.Pool, line: Line.System) {
    var ps := PacketsIn(Line.Bodies(line.asked));
    && |ps| <= |pool.offered|
    && forall k :: 0 <= k < |ps| ==> ps[k].Valid() && PacketImage(RECEIVED_PACKET, ps[k]) == pool.offered[k]
  }

  /** Runs of a device's pool and of its wire that belong together; no frame lost only a part of its writes. */
  ghost predicate RemoteRun(o: ByteOrder, s0: Pool.Pool, es: seq<Pool.Event>, w0: Line.System, ws: seq<Line.Event>) {
    && Pool.IsInitial(s0) && Pool.EnabledRun(o, s0, es)
    && Line.IsInitial(w0) && |w0.tasks| > Line.FORWARDER && Line.EnabledRun(w0, ws)
    && Forwards(Pool.Run(o, s0, es), Line.Run(w0, ws))
    && !Line.Run(w0, ws).torn
  }

  /** What the host queues for its TAP interface when the device's bytes are read in `chunks`. */
  function TapOutput(chunks: seq<Bytes>): seq<Bytes> {
    HandleAll(INITIAL, FromDevice(chunks)).tapFrames
  }

  /**
   * The remote device is done: no enqueue failed, callback and main task are between packets and
   * the queue is empty, the forwarder asked to send every frame the pool offered, was always
   * served, and has nothing in hand.
   */
  ghost predicate FarSideDone(pool: Pool.Pool, line: Line.System, ws: seq<Line.Event>) {
    && pool.failed == 0 && pool.cb.Idle? && pool.queue == [] && !Pool.Pending(pool.sd)
    && |PacketsIn(Line.Bodies(line.asked))| == |pool.offered|
    && Line.ForwarderServed(ws)
    && (|line.tasks| > Line.FORWARDER ==> !Line.InFlight(line.tasks[Line.FORWARDER]))
  }

  /**
   * Whatever the interleaving of callback, main task, log writers and pings, and however reads
   * cut the wire, the Ethernet frames the host queues are those of a subsequence of the packets
   * the radio received, in order of reception and with their exact address and payload; once the
   * device is done without a failure, those of all of them.
   */
  lemma {:induction false} RadioToTap(o: ByteOrder, s0: Pool.Pool, es: seq<Pool.Event>,
                                      w0: Line.System, ws: seq<Line.Event>, cut: seq<Bytes>)
    requires RemoteRun(o, s0, es, w0, ws) && Flatten(cut) == Line.Run(w0, ws).wire
    ensures Subsequence(TapOutput(cut),
                        Map(TapFrame, Pool.Run(o, s0, es).arrived))
    ensures FarSideDone(Pool.Run(o, s0, es), Line.Run(w0, ws), ws) ==>
      TapOutput(cut) == Map(TapFrame, Pool.Run(o, s0, es).arrived)
  {
    hide Pool.Run, Pool.EnabledRun, Line.Run, Line.EnabledRun, HandleAll, Subsequence, TapFrame, Feed, Decode;
    hide Line.ForwarderServed, Pool.Safe;
    var s, w := Pool.Run(o, s0, es), Line.Run(w0, ws);
    Pool.PoolSafety(o, s0, es);
    Line.WireIsDecodable(w0, ws, cut);
    MeaningsOfEncodings(w.done);
    assert FromDevice(cut) == w.done;
    var asked := PacketsIn(Line.Bodies(w.asked));
    AskedAreAccepted(o, s, asked);
    TapFramesOfPackets(Line.Bodies(w.asked));
    AskedSubsequence(asked, s.accepted, s.arrived);
    SubsequenceTransitive(TapFrames(w.done), Map(TapFrame, asked), Map(TapFrame, s.arrived));
    if FarSideDone(s, w, ws) {
      Line.ServedForwarder(w0, ws);
      assert TapFrames(w.done) + [] == TapFrames(w.done);
      EverythingAsked(o, s, asked);
    }
  }

  lemma EverythingAsked(o: ByteOrder, s: Pool.Pool, asked: seq<Packet>)
    requires Pool.Safe(o, s) && s.failed == 0 && s.cb.Idle? && s.queue == [] && !Pool.Pending(s.sd)
    requires |asked| == |s.offered| <= |s.accepted| && asked == s.accepted[..|asked|]
    ensures asked == s.arrived
  {
  }

  lemma AskedAreAccepted(o: ByteOrder, s: Pool.Pool, ps: seq<Packet>)
    requires Pool.Safe(o, s) && |ps| <= |s.offered|
    requires forall k :: 0 <= k < |ps| ==> ps[k].Valid() && PacketImage(RECEIVED_PACKET, ps[k]) == s.offered[k]
    ensures |ps| <= |s.accepted| && ps == s.accepted[..|ps|]
    ensures |s.offered| <= |s.accepted| && Subsequence(s.accepted, s.arrived)
  {
    hide Pool.Ownership, Pool.Counts, Pool.QueueContents, Subsequence, PacketImage;
    forall k | 0 <= k < |ps| ensures ps[k] == s.accepted[k] {
      assert Pool.IsImageOf(s.offered[k], s.accepted[k]);
      SameImageSamePacket(ps[k], s.accepted[k]);
    }
  }

  lemma SameImageSamePacket(p: Packet, q: Packet)
    requires p.Valid() && q.Valid() && PacketImage(RECEIVED_PACKET, p) == PacketImage(RECEIVED_PACKET, q)
    ensures p == q
  {
    EncodeIsFrame(Received(p));
    EncodeIsFrame(Received(q));
  }

  lemma AskedSubsequence(asked: seq<Packet>, accepted: seq<Packet>, arrived: seq<Packet>)
    requires |asked| <= |accepted| && asked == accepted[..|asked|] && Subsequence(accepted, arrived)
    ensures Subsequence(Map(TapFrame, asked), Map(TapFrame, arrived))
  {
    SubsequenceOfItself(asked);
    SubsequenceOfPrefix(asked, accepted, |asked|);
    SubsequenceTransitive(asked, accepted, arrived);
    SubsequenceMap(TapFrame, asked, arrived);
  }

  lemma {:induction false} SubsequenceOfItself<T>(a: seq<T>)
    ensures Subsequence(a, a)
  {
    if a != [] {
      SubsequenceOfItself(a[..|a| - 1]);
    }
  }

  // ---------- from one TAP interface to another ----------

  /**
   * Ethernet frames with payloads of at most 250 bytes travel from one TAP interface to the other,
   * through the near device's receiver, the radio, the far device's slot pool and shared wire, and
   * the far host: however reads cut either serial stream, under every interleaving in the far
   * device, and whatever the byte orders of the machines, what arrives are frames of the right
   * type and with a non-empty payload, in order, with broadcast destination, the sender's address
   * and the identical payload; once the far device is done without a failure, all of them arrive.
   * On the way the near device hands the radio exactly the destination and payload of each frame.
   */
  lemma {:induction false} TapToTap(taps: seq<Bytes>, cut1: seq<Bytes>, mac: Bytes, o: ByteOrder,
                                    s0: Pool.Pool, es: seq<Pool.Event>,
                                    w0: Line.System, ws: seq<Line.Event>, cut2: seq<Bytes>)
    requires AllSendable(taps) && |mac| == 6
    requires Flatten(cut1) == Flatten(SerialFrames(taps))
    requires RemoteRun(o, s0, es, w0, ws)
    requires Pool.Run(o, s0, es).arrived == Air(mac, FromHost(cut1))
    requires Flatten(cut2) == Line.Run(w0, ws).wire
    ensures FromHost(cut1) == PacketsOfTaps(taps)
    ensures Subsequence(TapOutput(cut2), Expected(mac, taps))
    ensures FarSideDone(Pool.Run(o, s0, es), Line.Run(w0, ws), ws) ==>
      TapOutput(cut2) == Expected(mac, taps)
  {
    hide Pool.Run, Pool.EnabledRun, Line.Run, Line.EnabledRun, HandleAll, Subsequence, FromDevice, FromHost;
    hide Air, Expected, SerialFrames, PacketsOfTaps, TapFrame, FarSideDone, RemoteRun, TapOutput;
    FirstLeg(taps, cut1);
    AirIsExpected(mac, taps);
    RadioToTap(o, s0, es, w0, ws, cut2);
  }

  // ---------- with the host's write queue in between ----------

  predicate AllForwarded(taps: seq<Bytes>) {
    AllSendable(taps) && forall i :: 0 <= i < |taps| ==> Forwarded(taps[i]).Some?
  }

  predicate IssuedFrom(taps: seq<Bytes>, issued: seq<nat>) {
    forall i :: 0 <= i < |issued| ==> issued[i] < |taps|
  }

  /** The frames operations were issued for, repetitions included. */
  function Picked(taps: seq<Bytes>, issued: seq<nat>): (r: seq<Bytes>)
    requires IssuedFrom(taps, issued)
    ensures |r| == |issued| && forall i :: 0 <= i < |issued| ==> r[i] == taps[issued[i]]
  {
    seq(|issued|, i requires 0 <= i < |issued| => taps[issued[i]])
  }

  lemma {:induction false} SerialFramesPointwise(taps: seq<Bytes>)
    requires AllForwarded(taps)
    ensures |SerialFrames(taps)| == |taps|
    ensures forall i :: 0 <= i < |taps| ==> SerialFrames(taps)[i] == Forwarded(taps[i]).value
  {
    hide Forwarded;
    if taps != [] {
      SerialFramesPointwise(taps[1..]);
      assert SerialFrames(taps) == [Forwarded(taps[0]).value] + SerialFrames(taps[1..]);
    }
  }

  lemma {:induction false} IssuedIsPicked(taps: seq<Bytes>, issued: seq<nat>)
    requires AllForwarded(taps) && IssuedFrom(taps, issued)
    ensures AllForwarded(Picked(taps, issued))
    ensures WQ.IssuedBytes(SerialFrames(taps), issued) == Flatten(SerialFrames(Picked(taps, issued)))
  {
    hide Forwarded, SerialFrames;
    SerialFramesPointwise(taps);
    var picked := Picked(taps, issued);
    SerialFramesPointwise(picked);
    if issued != [] {
      var n := |issued| - 1;
      IssuedIsPicked(taps, issued[..n]);
      var init := Picked(taps, issued[..n]);
      SerialFramesPointwise(init);
      assert SerialFrames(picked) == SerialFrames(init) + [Forwarded(taps[issued[n]]).value];
      FlattenSnoc(SerialFrames(init), Forwarded(taps[issued[n]]).value);
    } else {
      assert SerialFrames(picked) == [];
    }
  }

  lemma IssuedAreEnqueued(es: seq<WQ.Event>)
    requires WQ.EnabledRun(WQ.EMPTY, es)
    ensures var q := WQ.Run(WQ.EMPTY, es);
      WQ.Staircase(q.issued) && forall i :: 0 <= i < |q.issued| ==> q.issued[i] < |q.enqueued|
  {
    WQ.RunKeepsInv(WQ.EMPTY, es);
    WQ.LastIsTop(WQ.Run(WQ.EMPTY, es).issued);
  }

  /**
   * The same through the sending host's write queue: for every run of writes and completions the
   * frames that arrive are those of the issued operations, repetitions included, or a subsequence
   * of them; if every write found the queue empty and the queue has drained, that is every frame
   * exactly once.
   */
  lemma {:induction false} Bridge(taps: seq<Bytes>, qs: seq<WQ.Event>, q: WQ.WriteQueue, cut1: seq<Bytes>,
                                  mac: Bytes, o: ByteOrder, s0: Pool.Pool, es: seq<Pool.Event>,
                                  w0: Line.System, ws: seq<Line.Event>, cut2: seq<Bytes>)
    requires AllForwarded(taps) && |mac| == 6
    requires WQ.EnabledRun(WQ.EMPTY, qs) && q == WQ.Run(WQ.EMPTY, qs) && q.enqueued == SerialFrames(taps)
    requires Flatten(cut1) == WQ.IssuedBytes(SerialFrames(taps), q.issued)
    requires RemoteRun(o, s0, es, w0, ws)
    requires Pool.Run(o, s0, es).arrived == Air(mac, FromHost(cut1))
    requires Flatten(cut2) == Line.Run(w0, ws).wire
    ensures WQ.Staircase(q.issued)
    ensures IssuedFrom(taps, q.issued)
    ensures Subsequence(TapOutput(cut2), Expected(mac, Picked(taps, q.issued)))
    ensures FarSideDone(Pool.Run(o, s0, es), Line.Run(w0, ws), ws) ==>
      TapOutput(cut2) == Expected(mac, Picked(taps, q.issued))
    ensures WQ.Spaced(WQ.EMPTY, qs) && q.queue == [] ==> Picked(taps, q.issued) == taps
  {
    hide HandleAll, FromDevice, Expected, FromHost, Air, SerialFrames, WQ.Run, WQ.Spaced, WQ.EnabledRun;
    hide Pool.Run, Pool.EnabledRun, Line.Run, Line.EnabledRun, Subsequence, FarSideDone, RemoteRun, TapOutput;
    SerialFramesPointwise(taps);
    IssuedAreEnqueued(qs);
    IssuedIsPicked(taps, q.issued);
    TapToTap(Picked(taps, q.issued), cut1, mac, o, s0, es, w0, ws, cut2);
    if WQ.Spaced(WQ.EMPTY, qs) && q.queue == [] {
      WQ.SpacedWire(qs);
      assert Picked(taps, q.issued) == taps;
    }
  }
}
