/** The outgoing queue of espnowdaemon/serial_port_socket.cpp and the operations it issues. */
module WriteQueues {
  import opened Bytes

  /**
   * `queue` is what the daemon holds; `enqueued` numbers every frame ever written, `issued` logs
   * the number of the frame each asynchronous operation was started for, and `outstanding`
   * counts operations not completed yet.
   */
  datatype WriteQueue = WriteQueue(queue: seq<Bytes>, enqueued: seq<Bytes>, issued: seq<nat>, outstanding: nat) {
    /** The number of the frame at the front. */
    function Popped(): int {
      |enqueued| - |queue|
    }
  }

  const EMPTY: WriteQueue := WriteQueue([], [], [], 0)

  function Start(q: WriteQueue): WriteQueue
    requires |q.queue| <= |q.enqueued|
  {
    if q.queue == [] then q
    else q.(issued := q.issued + [q.Popped()], outstanding := q.outstanding + 1)
  }

  function WriteFrame(q: WriteQueue, frame: Bytes): WriteQueue
    requires |q.queue| <= |q.enqueued|
  {
    Start(q.(queue := q.queue + [frame], enqueued := q.enqueued + [frame]))
  }

  function Complete(q: WriteQueue): WriteQueue
    requires |q.queue| <= |q.enqueued| && q.outstanding > 0
  {
    var c := q.(outstanding := q.outstanding - 1);
    if q.queue == [] then c else Start(c.(queue := q.queue[1..]))
  }

  // ---------- runs ----------

  datatype Event = Wrote(frame: Bytes) | Completed

  /** Operations start at frame 0, never go back and never skip a frame. */
  predicate Staircase(issued: seq<nat>) {
    && (issued != [] ==> issued[0] == 0)
    && forall i :: 0 < i < |issued| ==> issued[i - 1] <= issued[i] <= issued[i - 1] + 1
  }

  ghost predicate Inv(q: WriteQueue) {
    && |q.queue| <= |q.enqueued|
    && q.queue == q.enqueued[q.Popped()..]
    && |q.queue| <= q.outstanding
    && Staircase(q.issued)
    && (q.issued == [] <==> q.enqueued == [])
    && (q.issued != [] ==> q.issued[|q.issued| - 1] == if q.queue == [] then q.Popped() - 1 else q.Popped())
  }

  predicate Enabled(q: WriteQueue, e: Event) {
    |q.queue| <= |q.enqueued| && (e.Completed? ==> q.outstanding > 0)
  }

  function Next(q: WriteQueue, e: Event): WriteQueue
    requires Enabled(q, e)
  {
    match e
    case Wrote(frame) => WriteFrame(q, frame)
    case Completed => Complete(q)
  }

  predicate EnabledRun(q: WriteQueue, es: seq<Event>)
    decreases |es|
  {
    es == [] || (Enabled(q, es[0]) && EnabledRun(Next(q, es[0]), es[1..]))
  }

  function Run(q: WriteQueue, es: seq<Event>): WriteQueue
    requires EnabledRun(q, es)
    decreases |es|
  {
    if es == [] then q else Run(Next(q, es[0]), es[1..])
  }

  lemma WriteKeepsInv(q: WriteQueue, frame: Bytes)
    requires Inv(q)
    ensures Inv(WriteFrame(q, frame))
  {
    var n := WriteFrame(q, frame);
    assert n.Popped() == q.Popped();
    assert n.enqueued[n.Popped()..] == q.enqueued[q.Popped()..] + [frame];
    assert n.issued == q.issued + [q.Popped()];
    StaircaseSnoc(q.issued, q.Popped());
  }

  lemma StaircaseSnoc(issued: seq<nat>, i: nat)
    requires Staircase(issued)
    requires if issued == [] then i == 0 else issued[|issued| - 1] <= i <= issued[|issued| - 1] + 1
    ensures Staircase(issued + [i])
  {
  }

  lemma CompleteKeepsInv(q: WriteQueue)
    requires Inv(q) && q.outstanding > 0
    ensures Inv(Complete(q))
  {
    if q.queue != [] {
      assert q.enqueued[q.Popped() + 1..] == q.queue[1..];
    }
  }

  lemma StepKeepsInv(q: WriteQueue, e: Event)
    requires Inv(q) && Enabled(q, e)
    ensures Inv(Next(q, e))
    ensures q.issued <= Next(q, e).issued
  {
    match e
    case Wrote(frame) => WriteKeepsInv(q, frame);
    case Completed => CompleteKeepsInv(q);
  }

  lemma {:induction false} RunKeepsInv(q: WriteQueue, es: seq<Event>)
    requires Inv(q) && EnabledRun(q, es)
    ensures Inv(Run(q, es))
    ensures q.issued <= Run(q, es).issued
    decreases |es|
  {
    if es != [] {
      StepKeepsInv(q, es[0]);
      RunKeepsInv(Next(q, es[0]), es[1..]);
    }
  }

  lemma {:induction false} StaircaseReaches(issued: seq<nat>, k: nat)
    requires Staircase(issued) && issued != [] && k <= issued[|issued| - 1]
    ensures k in issued
    ensures issued[|issued| - 1] < |issued|
    decreases |issued|
  {
    var n := |issued| - 1;
    if n > 0 {
      var init := issued[..n];
      StaircaseReaches(init, if k <= init[n - 1] then k else 0);
    }
  }

  lemma FrontIsIssued(q: WriteQueue)
    requires Inv(q)
    ensures forall k :: 0 <= k < |q.enqueued| && k <= q.Popped() ==> k in q.issued
  {
    forall k | 0 <= k < |q.enqueued| && k <= q.Popped() ensures k in q.issued {
      StaircaseReaches(q.issued, k);
    }
  }

  /**
   * For every sequence of writes and completions: at least as many operations are outstanding as
   * frames are queued, operations were issued in order without a gap, and every frame that left
   * the queue, and the one at its front, had been issued.
   */
  lemma AtLeastOnceInOrder(es: seq<Event>)
    requires EnabledRun(EMPTY, es)
    ensures var q := Run(EMPTY, es);
      && |q.queue| <= q.outstanding
      && Staircase(q.issued)
      && |q.queue| <= |q.enqueued| && q.queue == q.enqueued[q.Popped()..]
      && forall k :: 0 <= k < |q.enqueued| && k <= q.Popped() ==> k in q.issued
  {
    hide Run, EnabledRun;
    assert Inv(EMPTY);
    RunKeepsInv(EMPTY, es);
    FrontIsIssued(Run(EMPTY, es));
  }

  // ---------- exactly once ----------

  /** Every write of the run found the queue empty. */
  predicate Spaced(q: WriteQueue, es: seq<Event>)
    requires EnabledRun(q, es)
    decreases |es|
  {
    es == [] || ((es[0].Wrote? ==> q.queue == []) && Spaced(Next(q, es[0]), es[1..]))
  }

  predicate Distinct(s: seq<nat>) {
    forall i, j :: 0 <= i < j < |s| ==> s[i] != s[j]
  }

  /** A write to a non-empty queue starts the front frame's operation again; nothing else repeats one. */
  lemma SpacedStep(q: WriteQueue, e: Event)
    requires Inv(q) && |q.queue| <= 1 && Distinct(q.issued) && Enabled(q, e)
    ensures e.Wrote? && q.queue != [] ==> !Distinct(Next(q, e).issued)
    ensures !(e.Wrote? && q.queue != []) ==> Distinct(Next(q, e).issued) && |Next(q, e).queue| <= 1
  {
    var n := |q.issued|;
    LastIsTop(q.issued);
    if e.Wrote? && q.queue != [] {
      assert Next(q, e).issued[n - 1] == Next(q, e).issued[n];
    }
  }

  lemma {:induction false} SpacedFrom(q: WriteQueue, es: seq<Event>)
    requires Inv(q) && |q.queue| <= 1 && Distinct(q.issued) && EnabledRun(q, es)
    ensures Distinct(Run(q, es).issued) <==> Spaced(q, es)
    decreases |es|
  {
    if es != [] {
      var next := Next(q, es[0]);
      StepKeepsInv(q, es[0]);
      SpacedStep(q, es[0]);
      if es[0].Wrote? && q.queue != [] {
        RunKeepsInv(next, es[1..]);
        if Distinct(Run(q, es).issued) {
          DistinctPrefix(next.issued, Run(q, es).issued);
        }
      } else {
        SpacedFrom(next, es[1..]);
      }
    }
  }

  lemma DistinctPrefix(a: seq<nat>, b: seq<nat>)
    requires a <= b && Distinct(b)
    ensures Distinct(a)
  {
  }

  lemma {:induction false} LastIsTop(issued: seq<nat>)
    requires Staircase(issued)
    ensures forall i :: 0 <= i < |issued| ==> issued[i] <= issued[|issued| - 1]
    decreases |issued|
  {
    if |issued| > 1 {
      var n := |issued| - 1;
      LastIsTop(issued[..n]);
      assert forall i :: 0 <= i < n ==> issued[..n][i] == issued[i];
    }
  }

  /** No frame is issued twice exactly when no write happens while a frame is queued. */
  lemma ExactlyOnce(es: seq<Event>)
    requires EnabledRun(EMPTY, es)
    ensures Distinct(Run(EMPTY, es).issued) <==> Spaced(EMPTY, es)
  {
    SpacedFrom(EMPTY, es);
  }

  /** A second write right after the first starts the first frame's operation again. */
  lemma HastyWriteRepeats(a: Bytes, b: Bytes)
    ensures var es := [Wrote(a), Wrote(b)]; EnabledRun(EMPTY, es) && Run(EMPTY, es).issued == [0, 0]
  {
    var es := [Wrote(a), Wrote(b)];
    var q1 := WriteFrame(EMPTY, a);
    assert q1 == WriteQueue([a], [a], [0], 1);
    var q2 := WriteFrame(q1, b);
    assert q2.issued == [0, 0];
    assert es[1..] == [Wrote(b)] && es[1..][1..] == [];
    assert Enabled(q1, Wrote(b)) && EnabledRun(q2, []) && EnabledRun(q1, es[1..]);
    assert Run(q1, es[1..]) == q2;
    assert Run(EMPTY, es) == Run(q1, es[1..]);
  }

  /** The bytes of all operations issued so far. */
  function IssuedBytes(enqueued: seq<Bytes>, issued: seq<nat>): Bytes {
    if issued == [] then []
    else var last := issued[|issued| - 1];
         IssuedBytes(enqueued, issued[..|issued| - 1]) + if last < |enqueued| then enqueued[last] else []
  }

  /** A staircase without repetition climbs one frame at a time. */
  lemma {:induction false} DistinctStaircase(issued: seq<nat>)
    requires Staircase(issued) && Distinct(issued)
    ensures forall i :: 0 <= i < |issued| ==> issued[i] == i
  {
    if issued != [] {
      var n := |issued| - 1;
      assert forall i :: 0 <= i < n ==> issued[..n][i] == issued[i];
      DistinctStaircase(issued[..n]);
      if n > 0 {
        assert issued[n - 1] != issued[n];
      }
    }
  }

  lemma {:induction false} IssuedInTurn(enqueued: seq<Bytes>, issued: seq<nat>)
    requires |issued| <= |enqueued| && forall i :: 0 <= i < |issued| ==> issued[i] == i
    ensures IssuedBytes(enqueued, issued) == Flatten(enqueued[..|issued|])
  {
    if issued != [] {
      var n := |issued| - 1;
      IssuedInTurn(enqueued, issued[..n]);
      assert enqueued[..n + 1] == enqueued[..n] + [enqueued[n]];
      FlattenSnoc(enqueued[..n], enqueued[n]);
    }
  }

  /** When every write found the queue empty and the queue has drained, the wire is the frames once each. */
  lemma SpacedWire(es: seq<Event>)
    requires EnabledRun(EMPTY, es) && Spaced(EMPTY, es) && Run(EMPTY, es).queue == []
    ensures var q := Run(EMPTY, es);
      && |q.issued| == |q.enqueued| && (forall i :: 0 <= i < |q.issued| ==> q.issued[i] == i)
      && IssuedBytes(q.enqueued, q.issued) == Flatten(q.enqueued)
  {
    RunKeepsInv(EMPTY, es);
    ExactlyOnce(es);
    var q := Run(EMPTY, es);
    DistinctStaircase(q.issued);
    IssuedInTurn(q.enqueued, q.issued);
    assert q.enqueued[..|q.enqueued|] == q.enqueued;
  }

  /** How often an operation was issued for frame `k`. */
  function Times(issued: seq<nat>, k: nat): nat {
    if issued == [] then 0
    else Times(issued[..|issued| - 1], k) + if issued[|issued| - 1] == k then 1 else 0
  }

  lemma TimesSnoc(issued: seq<nat>, i: nat, k: nat)
    ensures Times(issued + [i], k) == Times(issued, k) + if i == k then 1 else 0
  {
    assert (issued + [i])[..|issued|] == issued;
  }

  /** Frames leave for good: once frame `k` has left the queue no operation is issued for it any more. */
  lemma PoppedIsOver(q: WriteQueue, e: Event, k: nat)
    requires Inv(q) && Enabled(q, e)
    ensures var n := Next(q, e);
      && n.Popped() >= q.Popped() && Times(n.issued, k) >= Times(q.issued, k)
      && (q.Popped() > k ==> Times(n.issued, k) == Times(q.issued, k))
      && n.enqueued == q.enqueued + (if e.Wrote? then [e.frame] else [])
  {
    var n := Next(q, e);
    if n.issued != q.issued {
      TimesSnoc(q.issued, n.Popped(), k);
    }
  }

  /** Frame `k` is at the front of the queue or has been. */
  predicate Reached(q: WriteQueue, k: nat) {
    k < |q.enqueued| && k <= q.Popped()
  }

  /** How many writes of the run found frame `k` at the front. */
  function Hasty(q: WriteQueue, es: seq<Event>, k: nat): nat
    requires EnabledRun(q, es)
    decreases |es|
  {
    if es == [] then 0
    else (if es[0].Wrote? && q.queue != [] && q.Popped() == k then 1 else 0) + Hasty(Next(q, es[0]), es[1..], k)
  }

  lemma CountStep(q: WriteQueue, e: Event, k: nat)
    requires Inv(q) && Enabled(q, e)
    ensures Times(Next(q, e).issued, k) - (if Reached(Next(q, e), k) then 1 else 0)
         == Times(q.issued, k) - (if Reached(q, k) then 1 else 0)
            + (if e.Wrote? && q.queue != [] && q.Popped() == k then 1 else 0)
  {
    hide Times;
    var n := Next(q, e);
    if n.issued != q.issued {
      TimesSnoc(q.issued, n.Popped(), k);
    }
  }

  lemma {:induction false} CountRun(q: WriteQueue, es: seq<Event>, k: nat)
    requires Inv(q) && EnabledRun(q, es)
    ensures Times(Run(q, es).issued, k) - (if Reached(Run(q, es), k) then 1 else 0)
         == Times(q.issued, k) - (if Reached(q, k) then 1 else 0) + Hasty(q, es, k)
    decreases |es|
  {
    if es != [] {
      hide Inv, Next, Enabled, Times, Reached;
      StepKeepsInv(q, es[0]);
      CountStep(q, es[0], k);
      CountRun(Next(q, es[0]), es[1..], k);
    }
  }

  /**
   * In every run a frame is issued once for reaching the front, and once more for every write
   * that finds it there.
   */
  lemma IssueCount(es: seq<Event>, k: nat)
    requires EnabledRun(EMPTY, es)
    ensures var q := Run(EMPTY, es);
      Times(q.issued, k) == (if Reached(q, k) then 1 else 0) + Hasty(EMPTY, es, k)
  {
    CountRun(EMPTY, es, k);
  }

  // ---------- the bytes of the operations ----------

  lemma IssuedSnoc(enqueued: seq<Bytes>, issued: seq<nat>, i: nat)
    ensures IssuedBytes(enqueued, issued + [i])
         == IssuedBytes(enqueued, issued) + if i < |enqueued| then enqueued[i] else []
  {
    assert (issued + [i])[..|issued|] == issued;
  }

  /** The first operation's bytes come first. */
  lemma {:induction false} IssuedCons(enqueued: seq<Bytes>, i: nat, issued: seq<nat>)
    requires i < |enqueued|
    ensures IssuedBytes(enqueued, [i] + issued) == enqueued[i] + IssuedBytes(enqueued, issued)
  {
    if issued == [] {
      IssuedSnoc(enqueued, [], i);
      assert [i] + [] == [] + [i];
    } else {
      var n := |issued| - 1;
      IssuedCons(enqueued, i, issued[..n]);
      IssuedSnoc(enqueued, [i] + issued[..n], issued[n]);
      IssuedSnoc(enqueued, issued[..n], issued[n]);
      assert issued == issued[..n] + [issued[n]];
      assert [i] + issued == ([i] + issued[..n]) + [issued[n]];
    }
  }

  /** What was issued does not depend on frames written later. */
  lemma {:induction false} IssuedStays(enqueued: seq<Bytes>, x: Bytes, issued: seq<nat>)
    requires forall i :: 0 <= i < |issued| ==> issued[i] < |enqueued|
    ensures IssuedBytes(enqueued + [x], issued) == IssuedBytes(enqueued, issued)
  {
    if issued != [] {
      IssuedStays(enqueued, x, issued[..|issued| - 1]);
    }
  }

  /** Every byte issued belongs to some frame. */
  lemma {:induction false} ByteOrigin(enqueued: seq<Bytes>, issued: seq<nat>, at: nat) returns (k: nat)
    requires at < |IssuedBytes(enqueued, issued)|
    ensures k < |enqueued| && IssuedBytes(enqueued, issued)[at] in enqueued[k]
  {
    var n := |issued| - 1;
    var before, last := IssuedBytes(enqueued, issued[..n]), issued[n];
    if at < |before| {
      k := ByteOrigin(enqueued, issued[..n], at);
    } else {
      k := last;
      assert IssuedBytes(enqueued, issued)[at] == enqueued[last][at - |before|];
    }
  }

  lemma IssuedInRange(q: WriteQueue)
    requires Inv(q)
    ensures forall i :: 0 <= i < |q.issued| ==> q.issued[i] < |q.enqueued|
  {
    LastIsTop(q.issued);
  }

  /** The bytes issued only grow. */
  lemma IssuedGrows(q: WriteQueue, e: Event)
    requires Inv(q) && Enabled(q, e)
    ensures IssuedBytes(q.enqueued, q.issued) <= IssuedBytes(Next(q, e).enqueued, Next(q, e).issued)
  {
    hide Inv, Staircase, IssuedBytes;
    IssuedInRange(q);
    var n := Next(q, e);
    if e.Wrote? {
      IssuedStays(q.enqueued, e.frame, q.issued);
    }
    if n.issued != q.issued {
      IssuedSnoc(n.enqueued, q.issued, n.Popped());
    }
  }

  // ---------- draining ----------

  /** Without further writes every completion makes progress. */
  lemma CompletionProgress(q: WriteQueue)
    requires Inv(q) && q.outstanding > 0
    ensures Complete(q).outstanding + |Complete(q).queue| < q.outstanding + |q.queue|
    ensures q.queue != [] ==> |Complete(q).queue| == |q.queue| - 1
  {
  }

  function Completions(n: nat): seq<Event> {
    if n == 0 then [] else [Completed] + Completions(n - 1)
  }

  /** No frame is stranded: the queued frames' own operations empty the queue, all of it issued. */
  lemma {:induction false} Drains(q: WriteQueue)
    requires Inv(q)
    ensures EnabledRun(q, Completions(|q.queue|))
    ensures var d := Run(q, Completions(|q.queue|));
      d.queue == [] && d.enqueued == q.enqueued && forall k :: 0 <= k < |q.enqueued| ==> k in d.issued
    decreases |q.queue|
  {
    if q.queue == [] {
      forall k | 0 <= k < |q.enqueued| ensures k in q.issued {
        StaircaseReaches(q.issued, k);
      }
    } else {
      var next := Complete(q);
      StepKeepsInv(q, Completed);
      assert Completions(|q.queue|)[1..] == Completions(|next.queue|);
      Drains(next);
    }
  }

  // ---------- the class ----------

  const PACKET_BUFFER: nat := 512

  class SerialWriter {
    var writeQueue: seq<Bytes>
    ghost var enqueued: seq<Bytes>
    ghost var issued: seq<nat>
    ghost var outstanding: nat

    ghost function Abs(): WriteQueue
      reads this
    {
      WriteQueue(writeQueue, enqueued, issued, outstanding)
    }

    ghost predicate Valid()
      reads this
    {
      Inv(Abs())
    }

    constructor ()
      ensures Valid() && Abs() == EMPTY
    {
      writeQueue, enqueued, issued, outstanding := [], [], [], 0;
    }

    method Write(data: Bytes)
      requires Valid() && |data| <= 512
      modifies this
      ensures Valid() && Abs() == WriteFrame(old(Abs()), data)
      ensures writeQueue == old(writeQueue) + [data] && enqueued == old(enqueued) + [data]
      ensures issued == old(issued) + [|old(enqueued)| - |old(writeQueue)|] && outstanding == old(outstanding) + 1
    {
      assert |writeQueue| <= |enqueued|;
      hide Inv;
      StepKeepsInv(Abs(), Wrote(data));
      var packet := MakePacket(data);
      writeQueue := writeQueue + [packet];
      enqueued := enqueued + [data];
      StartWriting();
    }

    /** Copies the data into a fixed buffer that remembers its size. */
    static method MakePacket(data: Bytes) returns (packet: Bytes)
      requires |data| <= PACKET_BUFFER
      ensures packet == data
    {
      var buffer := new byte[PACKET_BUFFER];
      CopyTo(buffer, 0, data);
      assert buffer[..|data|] == data;
      return buffer[..|data|];
    }

    method StartWriting()
      requires |writeQueue| <= |enqueued|
      modifies this`issued, this`outstanding
      ensures Abs() == Start(old(Abs()))
    {
      if writeQueue == [] {
        return;
      }
      issued := issued + [Abs().Popped()];
      outstanding := outstanding + 1;
    }

    /** An operation completes; its own frame need not be the one that is popped. */
    method WriteHandle()
      requires Valid() && outstanding > 0
      modifies this
      ensures Valid() && Abs() == Complete(old(Abs()))
      ensures enqueued == old(enqueued)
      ensures writeQueue == if old(writeQueue) == [] then [] else old(writeQueue)[1..]
      ensures issued == if writeQueue == [] then old(issued) else old(issued) + [|enqueued| - |writeQueue|]
      ensures outstanding == old(outstanding) - if writeQueue == [] then 1 else 0
    {
      StepKeepsInv(Abs(), Completed);
      outstanding := outstanding - 1;
      if writeQueue != [] {
        writeQueue := writeQueue[1..];
        StartWriting();
      }
    }
  }
}
