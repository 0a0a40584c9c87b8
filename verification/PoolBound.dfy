/** Eight failed enqueues suffice: the bound on giving up for want of space is attained. */
module PoolBound {
  import opened Bytes
  import opened Messages
  import opened PacketPool

  /** The first `k` slots are taken, the others free; no callback is running. */
  predicate Front(s: Pool, k: nat) {
    && Sane(s) && k <= SLOTS
    && (forall i :: 0 <= i < SLOTS ==> (s.slots[i].isFree <==> i >= k))
    && (forall j :: 0 <= j < |s.queue| ==> s.queue[j] < k)
  }

  /** What the callback leaves alone while it scans. */
  predicate SameBut(s: Pool, t: Pool) {
    t.slots == s.slots && t.queue == s.queue && t.sd == s.sd && t.failed == s.failed
  }

  lemma One(o: ByteOrder, s: Pool, e: Event)
    requires Enabled(s, e)
    ensures EnabledRun(o, s, [e]) && Run(o, s, [e]) == Next(o, s, e)
  {
    hide Next, Enabled;
    RunSnoc(o, s, [], e);
    assert [] + [e] == [e];
  }

  /** The scan passes over the taken slots. */
  lemma {:induction false} ScanTaken(o: ByteOrder, s: Pool, p: Packet, k: nat, j: nat) returns (es: seq<Event>)
    requires Front(s, k) && j <= k && s.cb == Scanning(p, j)
    ensures EnabledRun(o, s, es) && SameBut(s, Run(o, s, es)) && Front(Run(o, s, es), k)
    ensures Run(o, s, es).cb == Scanning(p, k)
    decreases k - j
  {
    if j == k {
      es := [];
    } else {
      hide Run, EnabledRun;
      One(o, s, Scan);
      var t := Next(o, s, Scan);
      var more := ScanTaken(o, t, p, k, j + 1);
      RunAppend(o, s, [Scan], more);
      es := [Scan] + more;
    }
  }

  /** A callback comes and scans up to the first free slot. */
  lemma ArriveAndScan(o: ByteOrder, s: Pool, p: Packet, k: nat) returns (es: seq<Event>)
    requires Front(s, k) && s.cb.Idle? && Carried(p)
    ensures EnabledRun(o, s, es) && SameBut(s, Run(o, s, es)) && Front(Run(o, s, es), k)
    ensures Run(o, s, es).cb == Scanning(p, k)
  {
    hide Run, EnabledRun;
    One(o, s, Arrive(p));
    var t := Next(o, s, Arrive(p));
    var more := ScanTaken(o, t, p, k, 0);
    RunAppend(o, s, [Arrive(p)], more);
    es := [Arrive(p)] + more;
  }

  /** One whole callback takes the first free slot and enqueues it or fails to. */
  lemma OneCallback(o: ByteOrder, s: Pool, p: Packet, k: nat, ok: bool) returns (es: seq<Event>)
    requires Front(s, k) && k < SLOTS && s.cb.Idle? && Carried(p) && (ok <==> |s.queue| < QUEUE_SIZE)
    ensures EnabledRun(o, s, es)
    ensures var t := Run(o, s, es);
      && Front(t, k + 1) && t.cb.Idle? && t.sd == s.sd
      && |t.queue| == |s.queue| + (if ok then 1 else 0)
      && t.failed == s.failed + (if ok then 0 else 1)
  {
    es := ArriveAndScan(o, s, p, k);
    var t := Run(o, s, es);
    var tail := [Scan, CopyMac, StoreLength, CopyPayload, Enqueue(ok)];
    ClaimToEnqueue(o, t, p, k, ok);
    RunAppend(o, s, es, tail);
    es := es + tail;
  }

  lemma ClaimToEnqueue(o: ByteOrder, s: Pool, p: Packet, k: nat, ok: bool)
    requires Front(s, k) && k < SLOTS && s.cb == Scanning(p, k) && (ok <==> |s.queue| < QUEUE_SIZE)
    ensures var tail := [Scan, CopyMac, StoreLength, CopyPayload, Enqueue(ok)];
      && EnabledRun(o, s, tail)
      && var t := Run(o, s, tail);
         && Front(t, k + 1) && t.cb.Idle? && t.sd == s.sd
         && t.queue == (if ok then s.queue + [k] else s.queue)
         && t.failed == s.failed + (if ok then 0 else 1)
  {
    hide PutMac, PutLength, PutPayload, Run, EnabledRun, Next, Enabled;
    ClaimToFilled(o, s, p, k);
    var filled := Run(o, s, [Scan, CopyMac, StoreLength, CopyPayload]);
    EnqueueFilled(o, filled, p, k, ok);
    RunSnoc(o, s, [Scan, CopyMac, StoreLength, CopyPayload], Enqueue(ok));
    assert [Scan, CopyMac, StoreLength, CopyPayload] + [Enqueue(ok)]
        == [Scan, CopyMac, StoreLength, CopyPayload, Enqueue(ok)];
  }

  lemma ClaimToFilled(o: ByteOrder, s: Pool, p: Packet, k: nat)
    requires Front(s, k) && k < SLOTS && s.cb == Scanning(p, k)
    ensures var es := [Scan, CopyMac, StoreLength, CopyPayload];
      && EnabledRun(o, s, es)
      && var t := Run(o, s, es);
         Front(t, k + 1) && t.cb == Filled(p, k) && t.sd == s.sd && t.queue == s.queue && t.failed == s.failed
  {
    hide PutMac, PutLength, PutPayload, Run, EnabledRun;
    One(o, s, Scan);
    var a := Next(o, s, Scan);
    RunSnoc(o, s, [Scan], CopyMac);
    var b := Next(o, a, CopyMac);
    RunSnoc(o, s, [Scan] + [CopyMac], StoreLength);
    var c := Next(o, b, StoreLength);
    RunSnoc(o, s, [Scan] + [CopyMac] + [StoreLength], CopyPayload);
    assert [Scan] + [CopyMac] + [StoreLength] + [CopyPayload] == [Scan, CopyMac, StoreLength, CopyPayload];
  }

  lemma EnqueueFilled(o: ByteOrder, s: Pool, p: Packet, k: nat, ok: bool)
    requires Front(s, k + 1) && k < SLOTS && s.cb == Filled(p, k) && (ok <==> |s.queue| < QUEUE_SIZE)
    ensures Enabled(s, Enqueue(ok))
    ensures var t := Next(o, s, Enqueue(ok));
      && Front(t, k + 1) && t.cb.Idle? && t.sd == s.sd
      && t.queue == (if ok then s.queue + [k] else s.queue)
      && t.failed == s.failed + (if ok then 0 else 1)
  {
  }

  /** Several callbacks in a row. */
  lemma {:induction false} Callbacks(o: ByteOrder, s: Pool, p: Packet, k: nat, n: nat, ok: bool)
    returns (es: seq<Event>)
    requires Front(s, k) && k + n <= SLOTS && s.cb.Idle? && Carried(p)
    requires if ok then |s.queue| + n <= QUEUE_SIZE else |s.queue| == QUEUE_SIZE
    ensures EnabledRun(o, s, es)
    ensures var t := Run(o, s, es);
      && Front(t, k + n) && t.cb.Idle? && t.sd == s.sd
      && |t.queue| == |s.queue| + (if ok then n else 0)
      && t.failed == s.failed + (if ok then 0 else n)
    decreases n
  {
    if n == 0 {
      es := [];
    } else {
      hide Run, EnabledRun, Front;
      es := OneCallback(o, s, p, k, ok);
      var more := Callbacks(o, Run(o, s, es), p, k + 1, n - 1, ok);
      RunAppend(o, s, es, more);
      es := es + more;
    }
  }

  /**
   * From any initial state some run makes the callback give up after exactly eight failed
   * enqueues: one slot is held, six are queued, and eight are lost while the queue is full.
   */
  lemma NoSpaceBoundIsAttained(o: ByteOrder, s: Pool, p: Packet) returns (es: seq<Event>)
    requires IsInitial(s) && Carried(p)
    ensures EnabledRun(o, s, es)
    ensures Run(o, s, es).cb == Scanning(p, SLOTS) && Run(o, s, es).failed == 8
  {
    hide Run, EnabledRun;
    es := Callbacks(o, s, p, 0, 1, true);
    var one := Run(o, s, es);
    One(o, one, Dequeue);
    var held := Next(o, one, Dequeue);
    RunAppend(o, s, es, [Dequeue]);
    es := es + [Dequeue];
    var more := Callbacks(o, held, p, 1, QUEUE_SIZE, true);
    var full := Run(o, held, more);
    RunAppend(o, s, es, more);
    es := es + more;
    more := Callbacks(o, full, p, 7, 8, false);
    var lost := Run(o, full, more);
    RunAppend(o, s, es, more);
    es := es + more;
    more := ArriveAndScan(o, lost, p, SLOTS);
    RunAppend(o, s, es, more);
    es := es + more;
  }
}
