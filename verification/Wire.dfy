/**
 * The firmware's side of the serial wire: log writers, the ping task and the packet forwarder
 * share it under one mutex that a task may fail to obtain in time.
 */
module Wire {
  import opened Bytes
  import opened Framing
  import opened Messages
  import opened HostProtocol
  import opened Sequences

  const LOG_BUFFER: nat := 256

  /** What the firmware sends: a log record always carries its whole 256-byte buffer. */
  predicate Sendable(m: Message) {
    m.Valid() && !m.ConsoleLog?
    && (m.UartLog? ==> |m.text| == LOG_BUFFER)
    && (m.Ping? ==> m.filler == [105, 110, 103])
  }

  /** The driver writes a message is sent with: three for a log record, otherwise one. */
  function Pieces(m: Message): (ps: seq<Bytes>)
    requires Sendable(m)
    ensures ps != []
  {
    if m.UartLog? then [[LOG_INFO_UART], BigEndian(4, |m.text|), m.text] else [Encode(m)]
  }

  lemma PiecesMakeFrame(m: Message, k: nat)
    requires Sendable(m) && k <= |Pieces(m)|
    ensures Flatten(Pieces(m)) == Encode(m)
    ensures Flatten(Pieces(m)[..k]) <= Encode(m)
    ensures k < |Pieces(m)| ==> |Flatten(Pieces(m)[..k])| < |Encode(m)|
  {
    hide Flatten, BigEndian;
    var ps := Pieces(m);
    FlattenAppend(ps[..k], ps[k..]);
    assert ps == ps[..k] + ps[k..];
    FlattenUpTo3(ps);
    if m.UartLog? {
      assert ps[..0] == [] && ps[..1] == [ps[0]] && ps[..2] == [ps[0], ps[1]] && ps[..3] == ps;
    } else {
      assert ps[..0] == [] && ps[..1] == ps;
    }
  }

  lemma FlattenUpTo3(ps: seq<Bytes>)
    ensures Flatten([]) == []
    ensures |ps| >= 1 ==> Flatten([ps[0]]) == ps[0]
    ensures |ps| >= 2 ==> Flatten([ps[0], ps[1]]) == ps[0] + ps[1]
    ensures |ps| >= 3 ==> Flatten([ps[0], ps[1], ps[2]]) == ps[0] + ps[1] + ps[2]
  {
    if |ps| >= 1 {
      FlattenSnoc([], ps[0]);
      assert [] + [ps[0]] == [ps[0]];
    }
    if |ps| >= 2 {
      FlattenSnoc([ps[0]], ps[1]);
      assert [ps[0]] + [ps[1]] == [ps[0], ps[1]];
    }
    if |ps| >= 3 {
      FlattenSnoc([ps[0], ps[1]], ps[2]);
      assert [ps[0], ps[1]] + [ps[2]] == [ps[0], ps[1], ps[2]];
    }
  }

  datatype Task =
    | Idle
    | Wanting(m: Message)
    /** `next` driver writes were made, of which `dropped` did not reach the wire. */
    | Holding(m: Message, next: nat, dropped: nat)

  /** Task `t` and the message it has to send. */
  datatype Request = Request(t: nat, m: Message)

  /**
   * `holder` is the mutex. History: what tasks asked to send, for which of it they obtained the
   * mutex, the messages whose frames are complete on the wire, and whether some frame lost only
   * a part of its writes.
   */
  datatype System = System(tasks: seq<Task>, holder: Option<nat>, wire: Bytes,
                           asked: seq<Request>, taken: seq<Request>, done: seq<Message>, torn: bool)

  /** The messages of all tasks, in order. */
  function Bodies(rs: seq<Request>): seq<Message> {
    if rs == [] then [] else Bodies(rs[..|rs| - 1]) + [rs[|rs| - 1].m]
  }

  /** The messages of one task, in order. */
  function Of(rs: seq<Request>, t: nat): seq<Message> {
    if rs == [] then []
    else Of(rs[..|rs| - 1], t) + if rs[|rs| - 1].t == t then [rs[|rs| - 1].m] else []
  }

  lemma RequestSnoc(rs: seq<Request>, r: Request)
    ensures Bodies(rs + [r]) == Bodies(rs) + [r.m]
    ensures forall t :: Of(rs + [r], t) == Of(rs, t) + if r.t == t then [r.m] else []
  {
    assert (rs + [r])[..|rs|] == rs;
  }

  datatype Event =
    | Ask(t: nat, m: Message)
    | Timeout(t: nat)
    | Take(t: nat)
    | Put(t: nat, ok: bool)
    | Give(t: nat)

  /** Number of the forwarding task: it sends received packets, one at a time, and no other does. */
  const FORWARDER: nat := 0

  predicate Enabled(s: System, e: Event) {
    e.t < |s.tasks| &&
    var task := s.tasks[e.t];
    match e
    case Ask(t, m) => task.Idle? && Sendable(m) && (m.Received? ==> t == FORWARDER)
    case Timeout(t) => task.Wanting?
    case Take(t) => task.Wanting? && Sendable(task.m) && s.holder.None?
    case Put(t, ok) => task.Holding? && Sendable(task.m) && task.next < |Pieces(task.m)|
    case Give(t) => task.Holding? && Sendable(task.m) && task.next == |Pieces(task.m)|
  }

  function Next(s: System, e: Event): System
    requires Enabled(s, e)
  {
    var task := s.tasks[e.t];
    match e
    case Ask(t, m) => s.(tasks := s.tasks[t := Wanting(m)], asked := s.asked + [Request(t, m)])
    case Timeout(t) => s.(tasks := s.tasks[t := Idle])
    case Take(t) =>
      s.(tasks := s.tasks[t := Holding(task.m, 0, 0)], holder := Some(t), taken := s.taken + [Request(t, task.m)])
    case Put(t, ok) =>
      var now := Holding(task.m, task.next + 1, if ok then task.dropped else task.dropped + 1);
      s.(tasks := s.tasks[t := now],
         wire := if ok then s.wire + Pieces(task.m)[task.next] else s.wire,
         done := if now.next == |Pieces(task.m)| && now.dropped == 0 then s.done + [task.m] else s.done,
         torn := s.torn || 0 < now.dropped < now.next)
    case Give(t) => s.(tasks := s.tasks[t := Idle], holder := None)
  }

  predicate EnabledRun(s: System, es: seq<Event>)
    decreases |es|
  {
    es == [] || (Enabled(s, es[0]) && EnabledRun(Next(s, es[0]), es[1..]))
  }

  function Run(s: System, es: seq<Event>): System
    requires EnabledRun(s, es)
    decreases |es|
  {
    if es == [] then s else Run(Next(s, es[0]), es[1..])
  }

  predicate IsInitial(s: System) {
    && (forall t :: 0 <= t < |s.tasks| ==> s.tasks[t].Idle?)
    && s.holder.None? && s.wire == [] && s.asked == [] && s.taken == [] && s.done == [] && !s.torn
  }

  // ---------- invariant ----------

  ghost predicate Exclusion(s: System) {
    && (s.holder.Some? ==> s.holder.value < |s.tasks|)
    && (forall t :: 0 <= t < |s.tasks| ==>
         && (s.tasks[t].Holding? <==> s.holder == Some(t))
         && (!s.tasks[t].Idle? ==> Sendable(s.tasks[t].m) && (s.tasks[t].m.Received? ==> t == FORWARDER))
         && (s.tasks[t].Holding? ==> s.tasks[t].dropped <= s.tasks[t].next <= |Pieces(s.tasks[t].m)|))
  }

  /** What the mutex holder has put on the wire of a frame that is not complete yet. */
  function Beginning(s: System): Bytes {
    if s.holder.Some? && s.holder.value < |s.tasks| then
      var task := s.tasks[s.holder.value];
      if task.Holding? && Sendable(task.m) && task.dropped == 0 && task.next < |Pieces(task.m)|
      then Flatten(Pieces(task.m)[..task.next]) else []
    else []
  }

  /** The complete frames, then the holder's beginning. */
  function Intact(s: System): Bytes
    requires AllValid(s.done)
  {
    Flatten(Encodings(s.done)) + Beginning(s)
  }

  /**
   * The wire is the complete frames and the holder's beginning exactly while no frame lost only a
   * part of its writes; from then on it carries bytes besides them.
   */
  ghost predicate Framed(s: System) {
    && AllValid(s.done)
    && (!s.torn <==> s.wire == Intact(s))
    && (s.torn ==> |s.wire| > |Intact(s)|)
    && (forall t :: 0 <= t < |s.tasks| && s.tasks[t].Holding? && !s.torn ==>
         s.tasks[t].dropped == 0 || s.tasks[t].dropped == s.tasks[t].next)
  }

  lemma ExclusionStep(s: System, e: Event)
    requires Exclusion(s) && Enabled(s, e)
    ensures Exclusion(Next(s, e))
  {
    hide Pieces;
  }

  lemma FramedStep(s: System, e: Event)
    requires Exclusion(s) && Framed(s) && Enabled(s, e)
    ensures Framed(Next(s, e))
  {
    hide Pieces, Encode, Encodings, Flatten;
    match e
    case Put(t, ok) => PutKeepsFramed(s, t, ok);
    case Take(t) => NothingWritten(s.tasks[t].m);
    case _ =>
      if s.holder.Some? {
        assert s.tasks[s.holder.value].Holding?;
      }
  }

  /** What one driver write adds to the wire, the complete frames and the beginning. */
  lemma PutKeepsFramed(s: System, t: nat, ok: bool)
    requires Exclusion(s) && Framed(s) && Enabled(s, Put(t, ok))
    ensures Framed(Next(s, Put(t, ok)))
  {
    hide Pieces, Encode, Encodings, Flatten;
    var n := Next(s, Put(t, ok));
    var m, k := s.tasks[t].m, s.tasks[t].next;
    var ps, whole := Pieces(m), Flatten(Encodings(s.done));
    PieceGrows(m, k);
    PiecesMakeFrame(m, k);
    EncodingsSnoc(s.done, m);
    assert ps[..|ps|] == ps;
    NothingWritten(m);
    if ok && s.tasks[t].dropped == 0 {
      Associative(whole, Flatten(ps[..k]), ps[k]);
      assert Intact(n) == Intact(s) + ps[k];
      assert n.wire == s.wire + ps[k];
      if s.wire + ps[k] == Intact(s) + ps[k] {
        assert s.wire == (s.wire + ps[k])[..|s.wire|] == Intact(s);
      }
    } else {
      assert Beginning(n) == [];
    }
  }

  lemma PieceGrows(m: Message, k: nat)
    requires Sendable(m) && k < |Pieces(m)|
    ensures Pieces(m)[k] != [] && Flatten(Pieces(m)[..k + 1]) == Flatten(Pieces(m)[..k]) + Pieces(m)[k]
    ensures k > 0 ==> Flatten(Pieces(m)[..k]) != []
  {
    hide Encode, Flatten, BigEndian;
    var ps := Pieces(m);
    FlattenSnoc(ps[..k], ps[k]);
    assert ps[..k + 1] == ps[..k] + [ps[k]];
    if k > 0 {
      FlattenSnoc(ps[..k - 1], ps[k - 1]);
      assert ps[..k] == ps[..k - 1] + [ps[k - 1]];
    }
  }

  lemma NothingWritten(m: Message)
    requires Sendable(m)
    ensures |Pieces(m)| > 0 && Flatten(Pieces(m)[..0]) == []
  {
  }

  // ---------- order ----------

  /** The message of the mutex holder while some of its writes are still to come. */
  function Undecided(s: System): Option<Message> {
    if s.holder.Some? && s.holder.value < |s.tasks| && StillWriting(s.tasks[s.holder.value])
    then Some(s.tasks[s.holder.value].m) else None
  }

  predicate StillWriting(task: Task) {
    task.Holding? && Sendable(task.m) && task.next < |Pieces(task.m)|
  }

  function Waiting(task: Task): Option<Message> {
    if task.Wanting? then Some(task.m) else None
  }

  /**
   * Frames are completed in the order in which the mutex was obtained for them, and each task
   * obtains it for its messages in the order in which it asked; some may be missing.
   */
  ghost predicate Ordered(s: System) {
    && InOrder(s.done, Bodies(s.taken), Undecided(s))
    && forall t :: 0 <= t < |s.tasks| ==> InOrder(Of(s.taken, t), Of(s.asked, t), Waiting(s.tasks[t]))
  }

  lemma OrderedStep(s: System, e: Event)
    requires Exclusion(s) && Ordered(s) && Enabled(s, e)
    ensures Ordered(Next(s, e))
  {
    hide Bodies, Of, Subsequence, InOrder, Pieces, Encode;
    DoneStep(s, e);
    var n := Next(s, e);
    forall t | 0 <= t < |n.tasks| ensures InOrder(Of(n.taken, t), Of(n.asked, t), Waiting(n.tasks[t])) {
      if t == e.t {
        TaskOrderStep(s, e);
      } else {
        OtherTaskOrder(s, e, t);
      }
    }
  }

  lemma DoneStep(s: System, e: Event)
    requires Exclusion(s) && InOrder(s.done, Bodies(s.taken), Undecided(s)) && Enabled(s, e)
    ensures InOrder(Next(s, e).done, Bodies(Next(s, e).taken), Undecided(Next(s, e)))
  {
    hide Bodies, Subsequence, InOrder, Pieces, Encode;
    match e
    case Take(t) =>
      RequestSnoc(s.taken, Request(t, s.tasks[t].m));
      OneArrives(s.done, Bodies(s.taken), s.tasks[t].m);
      NothingWritten(s.tasks[t].m);
    case Put(t, ok) =>
      OneIsDecided(s.done, Bodies(s.taken), s.tasks[t].m);
    case _ =>
  }

  lemma TaskOrderStep(s: System, e: Event)
    requires Enabled(s, e) && InOrder(Of(s.taken, e.t), Of(s.asked, e.t), Waiting(s.tasks[e.t]))
    ensures var n := Next(s, e); InOrder(Of(n.taken, e.t), Of(n.asked, e.t), Waiting(n.tasks[e.t]))
  {
    hide Of, Subsequence, InOrder, Pieces, Encode;
    var taken, asked := Of(s.taken, e.t), Of(s.asked, e.t);
    match e
    case Ask(t, m) =>
      RequestSnoc(s.asked, Request(t, m));
      OneArrives(taken, asked, m);
    case Timeout(t) =>
      OneIsDecided(taken, asked, s.tasks[t].m);
    case Take(t) =>
      RequestSnoc(s.taken, Request(t, s.tasks[t].m));
      OneIsDecided(taken, asked, s.tasks[t].m);
    case _ =>
  }

  lemma OtherTaskOrder(s: System, e: Event, t: nat)
    requires Enabled(s, e) && t < |s.tasks| && t != e.t
    ensures Of(Next(s, e).taken, t) == Of(s.taken, t) && Of(Next(s, e).asked, t) == Of(s.asked, t)
  {
    hide Of, Pieces, Encode;
    match e
    case Ask(u, m) => RequestSnoc(s.asked, Request(u, m));
    case Take(u) => RequestSnoc(s.taken, Request(u, s.tasks[u].m));
    case _ =>
  }

  /** Received packets leave in the order in which the forwarder asked. */
  ghost predicate Forwarding(s: System) {
    && |s.tasks| > FORWARDER
    && InOrder(TapFrames(s.done), TapFrames(Bodies(s.asked)), Forwarded(s.tasks[FORWARDER]))
  }

  function Forwarded(task: Task): Option<Bytes> {
    if InFlight(task) then Some(TapFrame(task.m.packet)) else None
  }

  /** The forwarder's packet may still get onto the wire. */
  predicate InFlight(task: Task) {
    && !task.Idle? && task.m.Received?
    && (task.Holding? && Sendable(task.m) ==> task.next < |Pieces(task.m)|)
  }

  lemma ForwardingStep(s: System, e: Event)
    requires Exclusion(s) && Forwarding(s) && Enabled(s, e)
    ensures Forwarding(Next(s, e))
  {
    hide TapFrames, Subsequence, TapFrame, InOrder, Pieces, Encode, Bodies;
    var asked, done := TapFrames(Bodies(s.asked)), TapFrames(s.done);
    if InFlight(s.tasks[FORWARDER]) {
      OneIsDecided(done, asked, TapFrame(s.tasks[FORWARDER].m.packet));
    }
    match e
    case Ask(t, m) =>
      RequestSnoc(s.asked, Request(t, m));
      TapFramesSnoc(Bodies(s.asked), m);
      if m.Received? {
        OneArrives(done, asked, TapFrame(m.packet));
      }
    case Put(t, ok) =>
      TapFramesSnoc(s.done, s.tasks[t].m);
    case _ =>
  }

  // ---------- all runs ----------

  ghost predicate Inv(s: System) {
    Exclusion(s) && Framed(s) && Ordered(s) && Forwarding(s)
  }

  lemma {:induction false} RunKeepsInv(s: System, es: seq<Event>)
    requires Inv(s) && EnabledRun(s, es)
    ensures Inv(Run(s, es))
    decreases |es|
  {
    if es != [] {
      hide Exclusion, Framed, Ordered, Forwarding, Next;
      ExclusionStep(s, es[0]);
      FramedStep(s, es[0]);
      OrderedStep(s, es[0]);
      ForwardingStep(s, es[0]);
      RunKeepsInv(Next(s, es[0]), es[1..]);
    }
  }

  /** Every driver write of the run completed; the mutex may still have been refused. */
  predicate AllWritten(es: seq<Event>) {
    forall i :: 0 <= i < |es| && es[i].Put? ==> es[i].ok
  }

  /** Nothing was lost so far: every message for which the mutex was obtained is done, or is the holder's. */
  ghost predicate Lossless(s: System) {
    && !s.torn
    && Bodies(s.taken) == s.done + (if Undecided(s).Some? then [Undecided(s).value] else [])
    && forall t :: 0 <= t < |s.tasks| && s.tasks[t].Holding? ==> s.tasks[t].dropped == 0
  }

  lemma LosslessStep(s: System, e: Event)
    requires Exclusion(s) && Lossless(s) && Enabled(s, e) && (e.Put? ==> e.ok)
    ensures Lossless(Next(s, e))
  {
    hide Bodies, Pieces, Encode;
    match e
    case Take(t) =>
      RequestSnoc(s.taken, Request(t, s.tasks[t].m));
      NothingWritten(s.tasks[t].m);
    case _ =>
  }

  lemma {:induction false} LosslessRun(s: System, es: seq<Event>)
    requires Exclusion(s) && Lossless(s) && EnabledRun(s, es) && AllWritten(es)
    ensures Lossless(Run(s, es))
    decreases |es|
  {
    if es != [] {
      hide Exclusion, Lossless, Next;
      ExclusionStep(s, es[0]);
      LosslessStep(s, es[0]);
      assert AllWritten(es[1..]) by {
        assert forall i :: 0 <= i < |es[1..]| ==> es[1..][i] == es[i + 1];
      }
      LosslessRun(Next(s, es[0]), es[1..]);
    }
  }

  /** The forwarder always obtained the mutex in time and all its driver writes completed. */
  predicate ForwarderServed(es: seq<Event>) {
    forall i :: 0 <= i < |es| && es[i].t == FORWARDER ==> !es[i].Timeout? && (es[i].Put? ==> es[i].ok)
  }

  /** Every received packet it asked to send is complete on the wire, or still in its hands. */
  ghost predicate NoneDropped(s: System) {
    && |s.tasks| > FORWARDER
    && TapFrames(Bodies(s.asked)) == TapFrames(s.done) + InHand(s.tasks[FORWARDER])
    && (s.tasks[FORWARDER].Holding? ==> s.tasks[FORWARDER].dropped == 0)
  }

  function InHand(task: Task): seq<Bytes> {
    if Forwarded(task).Some? then [Forwarded(task).value] else []
  }

  lemma NoneDroppedStep(s: System, e: Event)
    requires Exclusion(s) && NoneDropped(s) && Enabled(s, e)
    requires e.t == FORWARDER ==> !e.Timeout? && (e.Put? ==> e.ok)
    ensures NoneDropped(Next(s, e))
  {
    hide TapFrames, TapFrame, Pieces, Encode, Bodies;
    match e
    case Ask(t, m) =>
      RequestSnoc(s.asked, Request(t, m));
      TapFramesSnoc(Bodies(s.asked), m);
    case Put(t, ok) =>
      TapFramesSnoc(s.done, s.tasks[t].m);
    case Take(t) =>
      NothingWritten(s.tasks[t].m);
    case _ =>
  }

  lemma {:induction false} NoneDroppedRun(s: System, es: seq<Event>)
    requires Exclusion(s) && NoneDropped(s) && EnabledRun(s, es) && ForwarderServed(es)
    ensures NoneDropped(Run(s, es))
    decreases |es|
  {
    if es != [] {
      hide Exclusion, NoneDropped, Next;
      ExclusionStep(s, es[0]);
      NoneDroppedStep(s, es[0]);
      assert ForwarderServed(es[1..]) by {
        assert forall i :: 0 <= i < |es[1..]| ==> es[1..][i] == es[i + 1];
      }
      NoneDroppedRun(Next(s, es[0]), es[1..]);
    }
  }

  /** A served forwarder gets every received packet onto the wire. */
  lemma ServedForwarder(s0: System, es: seq<Event>)
    requires IsInitial(s0) && |s0.tasks| > FORWARDER && EnabledRun(s0, es) && ForwarderServed(es)
    ensures var s := Run(s0, es);
      && |s.tasks| > FORWARDER
      && TapFrames(Bodies(s.asked)) == TapFrames(s.done) + InHand(s.tasks[FORWARDER])
  {
    InitialInv(s0);
    NoneDroppedRun(s0, es);
  }

  /** The beginning on the wire is a proper beginning of a valid message's frame. */
  lemma BeginningIsProper(s: System) returns (next: Message, k: nat)
    requires Exclusion(s)
    ensures next.Valid() && k < |Encode(next)| && Beginning(s) == Encode(next)[..k]
  {
    next, k := Ping([105, 110, 103]), 0;
    if Beginning(s) != [] {
      var task := s.tasks[s.holder.value];
      PiecesMakeFrame(task.m, task.next);
      next, k := task.m, |Beginning(s)|;
    }
  }

  /**
   * In every state reachable by any interleaving: frames are completed in the order in which the
   * mutex was obtained for them, and each task obtains it in the order in which it asked. The wire
   * is the complete frames and the mutex holder's beginning exactly while no frame lost only a part
   * of its writes; then, however reads cut it, the host finds exactly those messages and keeps that
   * beginning.
   */
  lemma WireIsDecodable(s0: System, es: seq<Event>, chunks: seq<Bytes>)
    requires IsInitial(s0) && |s0.tasks| > FORWARDER && EnabledRun(s0, es)
    requires Flatten(chunks) == Run(s0, es).wire
    ensures var s := Run(s0, es);
      && Ordered(s) && AllValid(s.done)
      && Subsequence(TapFrames(s.done), TapFrames(Bodies(s.asked)))
      && (!s.torn <==> s.wire == Flatten(Encodings(s.done)) + Beginning(s))
      && (!s.torn ==>
           && Feed(HostFramer, [], chunks) == Parsed(Encodings(s.done), Beginning(s))
           && Decode(s.wire) == s.done
           && HandleAll(INITIAL, s.done).tapFrames == TapFrames(s.done))
  {
    hide Decode, Feed, Encode, Encodings, Pieces, Subsequence, HandleAll, Bodies, Ordered;
    InitialInv(s0);
    RunKeepsInv(s0, es);
    var s := Run(s0, es);
    if !s.torn {
      var next, k := BeginningIsProper(s);
      DecodeEncoded(s.done, next, k, chunks);
      HistoryEffect(s.done);
    }
    if InFlight(s.tasks[FORWARDER]) {
      OneIsDecided(TapFrames(s.done), TapFrames(Bodies(s.asked)), TapFrame(s.tasks[FORWARDER].m.packet));
    }
  }

  /**
   * When every driver write completes, under every interleaving and whoever was refused the mutex,
   * the host decodes exactly the messages for which the mutex was obtained, in that order; only the
   * holder's is missing while some of its writes are still to come.
   */
  lemma HostDecodesInLockOrder(s0: System, es: seq<Event>, chunks: seq<Bytes>)
    requires IsInitial(s0) && |s0.tasks| > FORWARDER && EnabledRun(s0, es) && AllWritten(es)
    requires Flatten(chunks) == Run(s0, es).wire
    ensures var s := Run(s0, es);
      && !s.torn && AllValid(s.done)
      && Decode(s.wire) + (if Undecided(s).Some? then [Undecided(s).value] else []) == Bodies(s.taken)
      && Feed(HostFramer, [], chunks) == Parsed(Encodings(s.done), Beginning(s))
  {
    hide Decode, Feed, Encode, Encodings, Pieces, Ordered, Framed, Forwarding, Subsequence, TapFrames, HandleAll;
    InitialInv(s0);
    LosslessRun(s0, es);
    WireIsDecodable(s0, es, chunks);
  }

  lemma InitialInv(s: System)
    requires IsInitial(s) && |s.tasks| > FORWARDER
    ensures Inv(s) && Lossless(s)
  {
    assert Encodings([]) == [];
  }

  // ---------- one message ----------

  /** A ping on the wire. */
  lemma PingBytes(m: Message)
    requires Sendable(m) && m.Ping?
    ensures Spells(Encode(m), "Ping")
  {
  }

  /** A log record on the wire: its identifier, the length 256 and the whole buffer. */
  lemma RecordBytes(m: Message)
    requires Sendable(m) && m.UartLog?
    ensures Encode(m) == [105, 0, 0, 1, 0] + m.text && |m.text| == 256
  {
    assert BigEndian(1, 0) == BigEndian(0, 0) + [0] == [0];
    assert BigEndian(2, 0) == [0] + [0] == [0, 0];
    assert BigEndian(3, 1) == [0, 0] + [1] == [0, 0, 1];
    assert BigEndian(4, 256) == [0, 0, 1] + [0] == [0, 0, 1, 0];
  }

  lemma {:induction false} RunSnoc(s: System, es: seq<Event>, e: Event)
    requires EnabledRun(s, es) && Enabled(Run(s, es), e)
    ensures EnabledRun(s, es + [e]) && Run(s, es + [e]) == Next(Run(s, es), e)
    decreases |es|
  {
    hide Next, Enabled;
    if es == [] {
      assert ([] + [e])[1..] == [];
    } else {
      RunSnoc(Next(s, es[0]), es[1..], e);
      assert (es + [e])[0] == es[0] && (es + [e])[1..] == es[1..] + [e];
    }
  }

  /** The holder makes the remaining writes of its message. */
  lemma {:induction false} PutAll(s: System, before: seq<Event>, t: nat, m: Message, k: nat) returns (es: seq<Event>)
    requires Sendable(m) && k <= |Pieces(m)| && EnabledRun(s, before) && t < |Run(s, before).tasks|
    requires Run(s, before).tasks[t] == Holding(m, k, 0)
    ensures EnabledRun(s, es)
    ensures var a, b := Run(s, before), Run(s, es);
      && b.tasks == a.tasks[t := Holding(m, |Pieces(m)|, 0)] && b.holder == a.holder
      && b.wire == a.wire + Flatten(Pieces(m)[k..]) && b.taken == a.taken && b.torn == a.torn
      && b.done == a.done + if k < |Pieces(m)| then [m] else []
    decreases |Pieces(m)| - k
  {
    hide Run, EnabledRun, Pieces, Encode;
    es := before;
    var a := Run(s, before);
    if k < |Pieces(m)| {
      RunSnoc(s, before, Put(t, true));
      var b := Next(a, Put(t, true));
      es := PutAll(s, before + [Put(t, true)], t, m, k + 1);
      assert Pieces(m)[k..][0] == Pieces(m)[k] && Pieces(m)[k..][1..] == Pieces(m)[k + 1..];
      Associative(a.wire, Pieces(m)[k], Flatten(Pieces(m)[k + 1..]));
      assert b.tasks[t := Holding(m, |Pieces(m)|, 0)] == a.tasks[t := Holding(m, |Pieces(m)|, 0)];
    } else {
      assert a.tasks[t := Holding(m, k, 0)] == a.tasks;
      assert Flatten(Pieces(m)[k..]) == [];
    }
  }

  /**
   * Whenever the mutex is free, any idle task can get any message it may send onto the wire: the
   * frame follows what is there, whole, and the mutex is free again.
   */
  lemma TaskSends(s: System, t: nat, m: Message) returns (es: seq<Event>)
    requires t < |s.tasks| && s.tasks[t].Idle? && s.holder.None?
    requires Sendable(m) && (m.Received? ==> t == FORWARDER)
    ensures EnabledRun(s, es)
    ensures var n := Run(s, es);
      && n.wire == s.wire + Encode(m) && n.done == s.done + [m] && n.taken == s.taken + [Request(t, m)]
      && n.torn == s.torn && n.holder.None? && n.tasks == s.tasks
  {
    hide Run, EnabledRun, Pieces, Encode;
    assert EnabledRun(s, []) && Run(s, []) == s by { NoEvents(s); }
    RunSnoc(s, [], Ask(t, m));
    RunSnoc(s, [] + [Ask(t, m)], Event.Take(t));
    es := PutAll(s, [] + [Ask(t, m)] + [Event.Take(t)], t, m, 0);
    assert Pieces(m)[0..] == Pieces(m);
    PiecesMakeFrame(m, 0);
    RunSnoc(s, es, Give(t));
    es := es + [Give(t)];
    assert Run(s, es).tasks == s.tasks;
  }

  /** A task that is refused the mutex in time drops its message whole and is ready for the next. */
  lemma TaskGivesUp(s: System, t: nat, m: Message) returns (es: seq<Event>)
    requires t < |s.tasks| && s.tasks[t].Idle?
    requires Sendable(m) && (m.Received? ==> t == FORWARDER)
    ensures EnabledRun(s, es)
    ensures var n := Run(s, es);
      && n.asked == s.asked + [Request(t, m)] && n.taken == s.taken && n.done == s.done
      && n.wire == s.wire && n.torn == s.torn && n.holder == s.holder && n.tasks == s.tasks
  {
    hide Run, EnabledRun, Pieces, Encode;
    assert EnabledRun(s, []) && Run(s, []) == s by { NoEvents(s); }
    RunSnoc(s, [], Ask(t, m));
    RunSnoc(s, [] + [Ask(t, m)], Timeout(t));
    es := [] + [Ask(t, m)] + [Timeout(t)];
    assert Run(s, es).tasks == s.tasks;
  }

  lemma NoEvents(s: System)
    ensures EnabledRun(s, []) && Run(s, []) == s
  {
  }

  // ---------- when a frame loses a part of its writes ----------

  /** One task's log record, its three writes completing or not; the others do nothing. */
  function OneRecord(t: nat, text: Bytes, a: bool, b: bool, c: bool): seq<Event> {
    [Ask(t, UartLog(text)), Event.Take(t), Put(t, a), Put(t, b), Put(t, c)]
  }

  lemma OneRecordRun(s: System, t: nat, text: Bytes, a: bool, b: bool, c: bool)
    requires IsInitial(s) && t < |s.tasks| && |text| == LOG_BUFFER
    ensures var es := OneRecord(t, text, a, b, c);
      && EnabledRun(s, es)
      && var r := Run(s, es);
         && r.wire == (if a then [LOG_INFO_UART] else []) + (if b then BigEndian(4, LOG_BUFFER) else [])
                      + (if c then text else [])
         && r.done == (if a && b && c then [UartLog(text)] else [])
         && (r.torn <==> (a || b || c) && !(a && b && c))
  {
    hide BigEndian, Encode, Run, EnabledRun, Pieces;
    var m := UartLog(text);
    RecordPieces(m);
    assert Sendable(m);
    var s1, s2 := AskAndTake(s, t, m);
    hide Next, Enabled, Sendable, IsInitial;
    var s3 := OnePut(s2, t, m, a);
    var s4 := OnePut(s3, t, m, b);
    var s5 := OnePut(s4, t, m, c);
    FiveSteps(s, OneRecord(t, text, a, b, c), s1, s2, s3, s4);
  }

  lemma AskAndTake(s: System, t: nat, m: Message) returns (s1: System, s2: System)
    requires IsInitial(s) && t < |s.tasks| && Sendable(m) && !m.Received?
    ensures Enabled(s, Ask(t, m)) && s1 == Next(s, Ask(t, m))
    ensures Enabled(s1, Event.Take(t)) && s2 == Next(s1, Event.Take(t))
    ensures |s2.tasks| == |s.tasks| && s2.tasks[t] == Holding(m, 0, 0)
    ensures s2.wire == [] && s2.done == [] && !s2.torn
  {
    hide Pieces, Encode;
    s1 := Next(s, Ask(t, m));
    s2 := Next(s1, Event.Take(t));
  }

  lemma RecordPieces(m: Message)
    requires Sendable(m) && m.UartLog?
    ensures Pieces(m) == [[LOG_INFO_UART], BigEndian(4, LOG_BUFFER), m.text]
  {
  }

  /** One driver write of a holder. */
  lemma OnePut(s: System, t: nat, m: Message, ok: bool) returns (n: System)
    requires t < |s.tasks| && s.tasks[t].Holding? && s.tasks[t].m == m && Sendable(m) && s.tasks[t].next < |Pieces(m)|
    ensures Enabled(s, Put(t, ok)) && n == Next(s, Put(t, ok))
    ensures |n.tasks| == |s.tasks|
    ensures var k, dropped := s.tasks[t].next, s.tasks[t].dropped + if ok then 0 else 1;
      && n.tasks[t] == Holding(m, k + 1, dropped)
      && n.wire == s.wire + (if ok then Pieces(m)[k] else [])
      && n.done == s.done + (if k + 1 == |Pieces(m)| && dropped == 0 then [m] else [])
      && n.torn == (s.torn || 0 < dropped < k + 1)
  {
    hide Pieces;
    n := Next(s, Put(t, ok));
  }

  lemma FiveSteps(s: System, es: seq<Event>, s1: System, s2: System, s3: System, s4: System)
    requires |es| == 5
    requires Enabled(s, es[0]) && s1 == Next(s, es[0]) && Enabled(s1, es[1]) && s2 == Next(s1, es[1])
    requires Enabled(s2, es[2]) && s3 == Next(s2, es[2]) && Enabled(s3, es[3]) && s4 == Next(s3, es[3])
    requires Enabled(s4, es[4])
    ensures EnabledRun(s, es) && Run(s, es) == Next(s4, es[4])
  {
    hide Enabled, Next;
    assert es[1..][0] == es[1] && es[1..][1..] == es[2..] && es[2..][0] == es[2] && es[2..][1..] == es[3..];
    assert es[3..][0] == es[3] && es[3..][1..] == es[4..] && es[4..][0] == es[4] && es[4..][1..] == [];
    assert EnabledRun(s4, es[4..]) && Run(s4, es[4..]) == Next(s4, es[4]);
    assert EnabledRun(s3, es[3..]) && Run(s3, es[3..]) == Next(s4, es[4]);
    assert EnabledRun(s2, es[2..]) && Run(s2, es[2..]) == Next(s4, es[4]);
    assert EnabledRun(s1, es[1..]) && Run(s1, es[1..]) == Next(s4, es[4]);
  }

  /**
   * A record that loses only its length write: the host takes the text's first four bytes for the
   * length. It reads a record nobody sent and goes on in the middle of the text, or, when that
   * length exceeds what follows, waits and will swallow later frames.
   */
  lemma TornFrameMisleads(s: System, t: nat, text: Bytes)
    requires IsInitial(s) && t < |s.tasks| && |text| == LOG_BUFFER
    ensures EnabledRun(s, OneRecord(t, text, true, false, true))
    ensures var r := Run(s, OneRecord(t, text, true, false, true));
      var n := FromBig(text[..4]);
      && r.torn && r.done == []
      && (n <= LOG_BUFFER - 4 ==> Decode(r.wire) == [UartLog(text[4..4 + n])] + Decode(text[4 + n..]))
      && (n > LOG_BUFFER - 4 ==> Decode(r.wire) == [] && Parse(HostFramer, r.wire).rest == r.wire)
  {
    hide Run, EnabledRun, Meaning, Meanings;
    OneRecordRun(s, t, text, true, false, true);
    var d: Bytes := [LOG_INFO_UART] + text;
    assert Run(s, OneRecord(t, text, true, false, true)).wire == d;
    var n := FromBig(text[..4]);
    assert d[1..5] == text[..4];
    if n <= LOG_BUFFER - 4 {
      var x, rest := d[..5 + n], d[5 + n..];
      HostDelimitsAt(d, []);
      assert rest == text[4 + n..] && x[5..] == text[4..4 + n];
      assert Parse(HostFramer, d).frames == [x] + Parse(HostFramer, rest).frames;
      ParsedAreFrames(rest);
      MeaningsAppend([x], Parse(HostFramer, rest).frames);
      MeaningsOne(x);
      assert Meaning(x) == UartLog(text[4..4 + n]) by { UartMeaning(x); }
    } else {
      DecodeNothing(d);
    }
  }

  lemma UartMeaning(x: Bytes)
    requires IsFrame(HostFramer, x) && x[0] == LOG_INFO_UART
    ensures Meaning(x) == UartLog(x[5..])
  {
  }

  /**
   * Losing a part of the writes need not mislead: a record whose text alone reaches the wire and
   * holds no identifier the host knows is passed over, however reads cut it.
   */
  lemma TornFrameMayBeHarmless(s: System, t: nat, text: Bytes, chunks: seq<Bytes>)
    requires IsInitial(s) && t < |s.tasks| && |text| == LOG_BUFFER
    requires forall i :: 0 <= i < |text| ==> !IsHostId(text[i])
    requires Flatten(chunks) == text
    ensures EnabledRun(s, OneRecord(t, text, false, false, true))
    ensures var r := Run(s, OneRecord(t, text, false, false, true));
      r.torn && r.done == [] && r.wire == text && Feed(HostFramer, [], chunks) == Parsed([], [])
  {
    hide Run, EnabledRun, Feed;
    OneRecordRun(s, t, text, false, false, true);
    assert [] + text == text;
    HostDelimits();
    FeedJunk(HostFramer, chunks);
  }
}
