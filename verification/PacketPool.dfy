/**
 * The firmware's path from the radio to the serial port: a Wi-Fi callback fills one of 15 slots
 * and queues its index; the main task encodes the slot in place, writes it and frees it. The two
 * run concurrently, so every memory access that the other side can observe is a step of its own.
 */
module PacketPool {
  import opened Bytes
  import opened Messages
  import opened Sequences

  const SLOTS: nat := 15
  const QUEUE_SIZE: nat := 6
  const MAX_PAYLOAD: nat := 250
  const SLOT_BYTES: nat := 261

  // ---------- the packed slot ----------

  type Memory261 = m: Bytes | |m| == SLOT_BYTES witness seq(SLOT_BYTES, _ => 0)

  function PutId(m: Memory261): Memory261 {
    [RECEIVED_PACKET] + m[1..]
  }

  function PutMac(m: Memory261, mac: Bytes): Memory261
    requires |mac| == 6
  {
    m[..1] + mac + m[7..]
  }

  function PutLength(o: ByteOrder, m: Memory261, n: nat): Memory261 {
    m[..7] + Memory(o, 4, n) + m[11..]
  }

  function GetLength(o: ByteOrder, m: Memory261): (n: nat)
    ensures n < TWO_32
  {
    WordWidths();
    Load(o, m[7..11])
  }

  function PutPayload(m: Memory261, data: Bytes): Memory261
    requires |data| <= MAX_PAYLOAD
  {
    m[..11] + data + m[11 + |data|..]
  }

  function SwapLength(o: ByteOrder, m: Memory261): Memory261 {
    WordWidths();
    PutLength(o, m, HostToNetwork(o, 4, GetLength(o, m)))
  }

  predicate Carried(p: Packet) {
    |p.mac| == 6 && 0 < |p.data| <= MAX_PAYLOAD
  }

  /** The slot holds the packet with its length in the machine's own byte order. */
  predicate Holds(o: ByteOrder, m: Memory261, p: Packet) {
    && Carried(p)
    && m[1..7] == p.mac
    && m[7..11] == Memory(o, 4, |p.data|)
    && m[11..11 + |p.data|] == p.data
  }

  lemma FillingHolds(o: ByteOrder, m: Memory261, p: Packet)
    requires Carried(p)
    ensures Holds(o, PutPayload(PutLength(o, PutMac(m, p.mac), |p.data|), p.data), p)
  {
    hide Memory;
    var length := Memory(o, 4, |p.data|);
    var a := PutMac(m, p.mac);
    var b := PutLength(o, a, |p.data|);
    var c := PutPayload(b, p.data);
    Middle(m[..1], p.mac, m[7..]);
    Middle(a[..7], length, a[11..]);
    Middle(b[..11], p.data, b[11 + |p.data|..]);
    assert c[1..7] == b[1..7] == a[1..7];
    assert c[7..11] == b[7..11];
  }

  lemma LengthOfHeld(o: ByteOrder, m: Memory261, p: Packet)
    requires Holds(o, m, p)
    ensures GetLength(o, m) == |p.data|
  {
    hide Memory, Load;
    WordWidths();
    MemoryRoundTrip(o, 4, |p.data|);
  }

  /** Tagged and swapped once, the beginning of the slot is the serialized packet on any machine. */
  lemma EncodedInPlace(o: ByteOrder, m: Memory261, p: Packet)
    requires Holds(o, m, p) && m[0] == RECEIVED_PACKET
    ensures SwapLength(o, m)[..PACKET_HEADER + |p.data|] == PacketImage(RECEIVED_PACKET, p)
  {
    hide Memory, Load, BigEndian, HostToNetwork;
    WordWidths();
    LengthOfHeld(o, m, p);
    NetworkImage(o, 4, |p.data|);
    var s := SwapLength(o, m);
    var n := |p.data|;
    Middle(m[..7], BigEndian(4, n), m[11..]);
    assert s[..7] == m[..7] && m[..7] == [m[0]] + m[1..7];
    assert s[11..11 + n] == m[11..11 + n];
    assert s[..11 + n] == s[..7] + s[7..11] + s[11..11 + n];
  }

  // ---------- the state machine ----------

  datatype Slot = Slot(isFree: bool, mem: Memory261)

  /** Where the Wi-Fi callback is; `p` is the packet it was called with. */
  datatype Callback =
    | Idle
    | Scanning(p: Packet, k: nat)
    | Claimed(p: Packet, slot: nat)
    | Addressed(p: Packet, slot: nat)
    | Sized(p: Packet, slot: nat)
    | Filled(p: Packet, slot: nat)

  /** Where the main task is. */
  datatype Sender =
    | Waiting
    | Got(slot: nat)
    | Measured(slot: nat, total: nat)
    | Tagged(slot: nat, total: nat)
    | Swapped(slot: nat, total: nat)
    | Pushed(slot: nat)

  datatype Owner = Free | Filling | Queued | Held | Lost

  /**
   * `slots`, `queue`, `cb` and `sd` are the firmware's; the rest is history: who owns each slot,
   * the packets the callback was called with, those enqueued, the frames offered to the wire in
   * order and those for which the lock was obtained, the failed enqueues, and the slots that
   * were occupied when the current scan began.
   */
  datatype Pool = Pool(slots: seq<Slot>, queue: seq<nat>, cb: Callback, sd: Sender,
                       owner: seq<Owner>, arrived: seq<Packet>, accepted: seq<Packet>,
                       offered: seq<Bytes>, pushed: seq<Bytes>, failed: nat, occupied: set<nat>)

  datatype Event =
    | Arrive(p: Packet) | Scan | CopyMac | StoreLength | CopyPayload | Enqueue(ok: bool)
    | Dequeue | Measure | Tag | Swap | Push(ok: bool) | Release

  predicate Sane(s: Pool) {
    && |s.slots| == |s.owner| == SLOTS
    && (!s.cb.Idle? && !s.cb.Scanning? ==> s.cb.slot < SLOTS)
    && (!s.sd.Waiting? ==> s.sd.slot < SLOTS)
    && (!s.cb.Idle? ==> Carried(s.cb.p))
    && (forall j :: 0 <= j < |s.queue| ==> s.queue[j] < SLOTS)
  }

  /** An enqueue succeeds if and only if the queue has room: `xQueueSend` waits and gives up only while it is full. */
  predicate Enabled(s: Pool, e: Event) {
    Sane(s) &&
    match e
    case Arrive(p) => s.cb.Idle? && Carried(p)
    case Scan => s.cb.Scanning?
    case CopyMac => s.cb.Claimed?
    case StoreLength => s.cb.Addressed?
    case CopyPayload => s.cb.Sized?
    case Enqueue(ok) => s.cb.Filled? && (ok <==> |s.queue| < QUEUE_SIZE)
    case Dequeue => s.sd.Waiting? && s.queue != []
    case Measure => s.sd.Got?
    case Tag => s.sd.Measured?
    case Swap => s.sd.Tagged?
    case Push(ok) => s.sd.Swapped? && s.sd.total <= SLOT_BYTES
    case Release => s.sd.Pushed?
  }

  function Store(s: Pool, i: nat, m: Memory261): Pool
    requires Sane(s) && i < SLOTS
  {
    s.(slots := s.slots[i := s.slots[i].(mem := m)])
  }

  /** The slot changes hands; the free flag follows. */
  function Give(s: Pool, i: nat, to: Owner): Pool
    requires Sane(s) && i < SLOTS
  {
    s.(owner := s.owner[i := to], slots := s.slots[i := s.slots[i].(isFree := to.Free?)])
  }

  function Occupied(owner: seq<Owner>): set<nat> {
    set i: nat | i < |owner| && owner[i] != Free
  }

  function Next(o: ByteOrder, s: Pool, e: Event): Pool
    requires Enabled(s, e)
  {
    match e
    case Arrive(p) =>
      s.(cb := Scanning(p, 0), arrived := s.arrived + [p], occupied := Occupied(s.owner))
    case Scan =>
      if s.cb.k >= SLOTS then s.(cb := Idle)
      else if s.slots[s.cb.k].isFree then Give(s, s.cb.k, Filling).(cb := Claimed(s.cb.p, s.cb.k))
      else s.(cb := Scanning(s.cb.p, s.cb.k + 1))
    case CopyMac =>
      Store(s, s.cb.slot, PutMac(s.slots[s.cb.slot].mem, s.cb.p.mac)).(cb := Addressed(s.cb.p, s.cb.slot))
    case StoreLength =>
      Store(s, s.cb.slot, PutLength(o, s.slots[s.cb.slot].mem, |s.cb.p.data|)).(cb := Sized(s.cb.p, s.cb.slot))
    case CopyPayload =>
      Store(s, s.cb.slot, PutPayload(s.slots[s.cb.slot].mem, s.cb.p.data)).(cb := Filled(s.cb.p, s.cb.slot))
    case Enqueue(ok) =>
      if ok then
        Give(s, s.cb.slot, Queued)
          .(cb := Idle, queue := s.queue + [s.cb.slot], accepted := s.accepted + [s.cb.p])
      else Give(s, s.cb.slot, Lost).(cb := Idle, failed := s.failed + 1)
    case Dequeue =>
      Give(s, s.queue[0], Held).(sd := Got(s.queue[0]), queue := s.queue[1..])
    case Measure =>
      s.(sd := Measured(s.sd.slot, PACKET_HEADER + GetLength(o, s.slots[s.sd.slot].mem)))
    case Tag =>
      Store(s, s.sd.slot, PutId(s.slots[s.sd.slot].mem)).(sd := Tagged(s.sd.slot, s.sd.total))
    case Swap =>
      Store(s, s.sd.slot, SwapLength(o, s.slots[s.sd.slot].mem)).(sd := Swapped(s.sd.slot, s.sd.total))
    case Push(ok) =>
      var frame := s.slots[s.sd.slot].mem[..s.sd.total];
      s.(sd := Pushed(s.sd.slot), offered := s.offered + [frame],
         pushed := if ok then s.pushed + [frame] else s.pushed)
    case Release =>
      Give(s, s.sd.slot, Free).(sd := Waiting)
  }

  predicate EnabledRun(o: ByteOrder, s: Pool, es: seq<Event>)
    decreases |es|
  {
    es == [] || (Enabled(s, es[0]) && EnabledRun(o, Next(o, s, es[0]), es[1..]))
  }

  function Run(o: ByteOrder, s: Pool, es: seq<Event>): Pool
    requires EnabledRun(o, s, es)
    decreases |es|
  {
    if es == [] then s else Run(o, Next(o, s, es[0]), es[1..])
  }

  /** All slots free, whatever their memory holds. */
  predicate IsInitial(s: Pool) {
    && |s.slots| == SLOTS && (forall i :: 0 <= i < SLOTS ==> s.slots[i].isFree)
    && s.owner == seq(SLOTS, _ => Free)
    && s.queue == [] && s.cb.Idle? && s.sd.Waiting?
    && s.arrived == [] && s.accepted == [] && s.offered == [] && s.pushed == [] && s.failed == 0
  }

  // ---------- ownership ----------

  predicate InQueue(queue: seq<nat>, i: nat) {
    exists j :: 0 <= j < |queue| && queue[j] == i
  }

  /** Each slot is in exactly one state and the firmware's variables agree with it. */
  ghost predicate Ownership(s: Pool) {
    && Sane(s)
    && |s.queue| <= QUEUE_SIZE
    && (forall j, k :: 0 <= j < k < |s.queue| ==> s.queue[j] != s.queue[k])
    && (forall i {:trigger s.owner[i]} :: 0 <= i < SLOTS ==>
         && (s.slots[i].isFree <==> s.owner[i] == Free)
         && (s.owner[i] == Queued <==> InQueue(s.queue, i))
         && (s.owner[i] == Filling <==> !s.cb.Idle? && !s.cb.Scanning? && s.cb.slot == i)
         && (s.owner[i] == Held <==> !s.sd.Waiting? && s.sd.slot == i))
  }

  lemma EnqueueMembers(q: seq<nat>, x: nat)
    ensures forall i :: InQueue(q + [x], i) <==> InQueue(q, i) || i == x
    ensures forall j :: 0 <= j < |q| ==> InQueue(q, q[j])
  {
    var n := q + [x];
    assert n[|q|] == x;
    forall i | InQueue(q, i) ensures InQueue(n, i) {
      var j :| 0 <= j < |q| && q[j] == i;
      assert n[j] == i;
    }
  }

  lemma DequeueMembers(q: seq<nat>)
    requires q != [] && forall j, k :: 0 <= j < k < |q| ==> q[j] != q[k]
    ensures InQueue(q, q[0])
    ensures forall i :: InQueue(q[1..], i) <==> InQueue(q, i) && i != q[0]
  {
    var n := q[1..];
    forall i ensures InQueue(n, i) <==> InQueue(q, i) && i != q[0] {
      if InQueue(q, i) && i != q[0] {
        var j :| 0 <= j < |q| && q[j] == i;
        assert n[j - 1] == i;
      }
      if InQueue(n, i) {
        var j :| 0 <= j < |n| && n[j] == i;
        assert q[j + 1] == i;
      }
    }
  }

  lemma EnqueueKeepsOwnership(o: ByteOrder, s: Pool, ok: bool)
    requires Ownership(s) && Enabled(s, Enqueue(ok))
    ensures Ownership(Next(o, s, Enqueue(ok)))
  {
    hide InQueue;
    assert s.owner[s.cb.slot] == Filling;
    EnqueueMembers(s.queue, s.cb.slot);
  }

  lemma DequeueKeepsOwnership(o: ByteOrder, s: Pool)
    requires Ownership(s) && Enabled(s, Dequeue)
    ensures Ownership(Next(o, s, Dequeue))
  {
    hide InQueue;
    DequeueMembers(s.queue);
    assert s.owner[s.queue[0]] == Queued;
  }

  lemma OwnershipStep(o: ByteOrder, s: Pool, e: Event)
    requires Ownership(s) && Enabled(s, e)
    ensures Sane(Next(o, s, e)) && Ownership(Next(o, s, e))
  {
    match e
    case Enqueue(ok) => EnqueueKeepsOwnership(o, s, ok);
    case Dequeue => DequeueKeepsOwnership(o, s);
    case _ => OtherStepsKeepOwnership(o, s, e);
  }

  lemma OtherStepsKeepOwnership(o: ByteOrder, s: Pool, e: Event)
    requires Ownership(s) && Enabled(s, e) && !e.Enqueue? && !e.Dequeue?
    ensures Ownership(Next(o, s, e))
  {
    hide PutMac, PutLength, PutPayload, PutId, SwapLength, GetLength, InQueue;
    match e
    case Scan =>
      if s.cb.k < SLOTS {
        assert s.slots[s.cb.k].isFree <==> s.owner[s.cb.k] == Free;
      }
    case Release => assert s.owner[s.sd.slot] == Held;
    case _ => SameOwners(o, s, e);
  }

  /** Most steps give no slot away and keep the callback and the main task at their slots. */
  lemma SameOwners(o: ByteOrder, s: Pool, e: Event)
    requires Ownership(s) && Enabled(s, e)
    requires !e.Enqueue? && !e.Dequeue? && !e.Scan? && !e.Release?
    ensures Ownership(Next(o, s, e))
  {
    hide PutMac, PutLength, PutPayload, PutId, SwapLength, GetLength, InQueue;
    var n := Next(o, s, e);
    assert n.owner == s.owner && n.queue == s.queue;
  }

  // ---------- counting ----------

  function Count(owner: seq<Owner>, x: Owner): (n: nat)
    ensures n <= |owner|
  {
    if owner == [] then 0
    else Count(owner[..|owner| - 1], x) + if owner[|owner| - 1] == x then 1 else 0
  }

  lemma {:induction false} CountUpdate(owner: seq<Owner>, i: nat, to: Owner, x: Owner)
    requires i < |owner|
    ensures Count(owner[i := to], x)
         == Count(owner, x) - (if owner[i] == x then 1 else 0) + (if to == x then 1 else 0)
  {
    var n := |owner| - 1;
    if i == n {
      assert owner[i := to][..n] == owner[..n];
    } else {
      CountUpdate(owner[..n], i, to, x);
      assert owner[i := to][..n] == owner[..n][i := to];
    }
  }

  lemma {:induction false} CountsCoverAll(owner: seq<Owner>)
    ensures Count(owner, Free) + Count(owner, Filling) + Count(owner, Queued)
          + Count(owner, Held) + Count(owner, Lost) == |owner|
    ensures |Occupied(owner)| == |owner| - Count(owner, Free)
  {
    if owner == [] {
      assert Occupied(owner) == {};
    } else {
      var n := |owner| - 1;
      CountsCoverAll(owner[..n]);
      OccupiedSnoc(owner);
    }
  }

  lemma OccupiedSnoc(owner: seq<Owner>)
    requires owner != []
    ensures var n := |owner| - 1;
      Occupied(owner) == Occupied(owner[..n]) + (if owner[n] == Free then {} else {n}) && n !in Occupied(owner[..n])
  {
  }

  /** One slot at most is being filled, one held; every failed enqueue has cost one slot for good. */
  ghost predicate Counts(s: Pool) {
    && Count(s.owner, Queued) == |s.queue|
    && Count(s.owner, Filling) == (if s.cb.Idle? || s.cb.Scanning? then 0 else 1)
    && Count(s.owner, Held) == (if s.sd.Waiting? then 0 else 1)
    && Count(s.owner, Lost) == s.failed
  }

  lemma CountsStep(o: ByteOrder, s: Pool, e: Event)
    requires Ownership(s) && Counts(s) && Enabled(s, e)
    ensures Counts(Next(o, s, e))
  {
    hide PutMac, PutLength, PutPayload, PutId, SwapLength, GetLength, Count;
    var i, to := Changed(s, e);
    if i < SLOTS {
      CountUpdate(s.owner, i, to, Queued);
      CountUpdate(s.owner, i, to, Filling);
      CountUpdate(s.owner, i, to, Held);
      CountUpdate(s.owner, i, to, Lost);
      assert s.slots[i].isFree <==> s.owner[i] == Free;
    }
    if e.Dequeue? {
      assert InQueue(s.queue, s.queue[0]);
    }
  }

  /** Which slot a step gives to whom, if any. */
  lemma Changed(s: Pool, e: Event) returns (i: nat, to: Owner)
    requires Enabled(s, e)
    ensures i < SLOTS ==> forall o :: Next(o, s, e).owner == s.owner[i := to]
    ensures i >= SLOTS ==> forall o :: Next(o, s, e).owner == s.owner
    ensures i == match e
      case Scan => if s.cb.k < SLOTS && s.slots[s.cb.k].isFree then s.cb.k else SLOTS
      case Enqueue(ok) => s.cb.slot
      case Dequeue => s.queue[0]
      case Release => s.sd.slot
      case _ => SLOTS
    ensures to == match e
      case Scan => Filling
      case Enqueue(ok) => if ok then Queued else Lost
      case Dequeue => Held
      case _ => Free
  {
    i, to := SLOTS, Free;
    match e
    case Scan =>
      to := Filling;
      if s.cb.k < SLOTS && s.slots[s.cb.k].isFree { i := s.cb.k; }
    case Enqueue(ok) => i, to := s.cb.slot, if ok then Queued else Lost;
    case Dequeue => i, to := s.queue[0], Held;
    case Release => i := s.sd.slot;
    case _ =>
  }

  /** Slots found occupied during a scan were occupied when it began: only the callback takes slots. */
  ghost predicate ScanKnowledge(s: Pool) {
    s.cb.Scanning? ==>
      && s.cb.k <= SLOTS
      && |s.occupied| <= QUEUE_SIZE + 1 + s.failed
      && Occupied(s.owner) <= s.occupied
      && forall i: nat :: i < s.cb.k ==> i in s.occupied
  }

  lemma ScanStep(o: ByteOrder, s: Pool, e: Event)
    requires Ownership(s) && Counts(s) && ScanKnowledge(s) && Enabled(s, e)
    ensures ScanKnowledge(Next(o, s, e))
  {
    hide PutMac, PutLength, PutPayload, PutId, SwapLength, GetLength, Count;
    var n := Next(o, s, e);
    CountsCoverAll(s.owner);
    if e.Scan? && s.cb.k < SLOTS && !s.slots[s.cb.k].isFree {
      assert s.owner[s.cb.k] != Free;
      assert s.cb.k in Occupied(s.owner);
    } else if n.cb.Scanning? {
      forall i | i in Occupied(n.owner) ensures i in n.occupied {
        assert e.Dequeue? ==> InQueue(s.queue, s.queue[0]);
        assert i in Occupied(s.owner);
      }
    }
  }

  /** The callback can give up for want of space only after eight enqueues have failed. */
  lemma NoSpaceNeedsFailures(s: Pool)
    requires ScanKnowledge(s) && s.cb.Scanning? && s.cb.k == SLOTS
    ensures s.failed >= SLOTS - QUEUE_SIZE - 1 == 8
  {
    assert forall i | i in Range(SLOTS) :: i in s.occupied;
    SubsetSize(Range(SLOTS), s.occupied);
  }

  function Range(n: nat): (r: set<nat>)
    ensures |r| == n && forall i :: i in r <==> 0 <= i < n
  {
    if n == 0 then {} else Range(n - 1) + {n - 1}
  }

  lemma {:induction false} SubsetSize(a: set<nat>, b: set<nat>)
    requires a <= b
    ensures |a| <= |b|
  {
    if a != {} {
      var x :| x in a;
      SubsetSize(a - {x}, b - {x});
    }
  }

  // ---------- contents ----------

  /** How many packets have left the queue. */
  function Taken(s: Pool): int {
    |s.accepted| - |s.queue|
  }

  /** The main task holds a packet it has not offered to the wire yet. */
  predicate Pending(sd: Sender) {
    !sd.Waiting? && !sd.Pushed?
  }

  ghost predicate QueueContents(o: ByteOrder, s: Pool)
    requires Sane(s)
  {
    && Taken(s) >= 0
    && forall j :: 0 <= j < |s.queue| ==> Holds(o, s.slots[s.queue[j]].mem, s.accepted[Taken(s) + j])
  }

  ghost predicate SenderContents(o: ByteOrder, s: Pool)
    requires Sane(s)
  {
    && Taken(s) == |s.offered| + (if Pending(s.sd) then 1 else 0)
    && 0 <= Taken(s) <= |s.accepted|
    && (forall k :: 0 <= k < |s.offered| ==> IsImageOf(s.offered[k], s.accepted[k]))
    && (Pending(s.sd) ==>
         var p, m := s.accepted[Taken(s) - 1], s.slots[s.sd.slot].mem;
         && (!s.sd.Got? ==> s.sd.total == PACKET_HEADER + |p.data|)
         && (!s.sd.Swapped? ==> Holds(o, m, p))
         && (s.sd.Tagged? ==> m[0] == RECEIVED_PACKET)
         && (s.sd.Swapped? ==> s.sd.total <= SLOT_BYTES && IsImageOf(m[..s.sd.total], p)))
  }

  predicate IsImageOf(x: Bytes, p: Packet) {
    Carried(p) && x == PacketImage(RECEIVED_PACKET, p)
  }

  ghost predicate CallbackContents(o: ByteOrder, s: Pool)
    requires Sane(s)
  {
    match s.cb
    case Addressed(p, i) => s.slots[i].mem[1..7] == p.mac
    case Sized(p, i) => s.slots[i].mem[1..7] == p.mac && s.slots[i].mem[7..11] == Memory(o, 4, |p.data|)
    case Filled(p, i) => Holds(o, s.slots[i].mem, p)
    case _ => true
  }

  lemma CallbackContentsStep(o: ByteOrder, s: Pool, e: Event)
    requires Ownership(s) && CallbackContents(o, s) && Enabled(s, e)
    ensures Sane(Next(o, s, e)) && CallbackContents(o, Next(o, s, e))
  {
    hide Memory, PutId, SwapLength, GetLength;
    OwnershipStep(o, s, e);
    if !s.sd.Waiting? { assert s.owner[s.sd.slot] == Held; }
    if !s.cb.Idle? && !s.cb.Scanning? { assert s.owner[s.cb.slot] == Filling; }
    if e.Dequeue? { assert InQueue(s.queue, s.queue[0]); }
  }

  /** A slot's memory changes only while the callback fills it or the main task holds it. */
  lemma QueuedSlotsUntouched(o: ByteOrder, s: Pool, e: Event, i: nat)
    requires Ownership(s) && Enabled(s, e) && i < SLOTS && s.owner[i] != Filling && s.owner[i] != Held
    ensures |Next(o, s, e).slots| == SLOTS && Next(o, s, e).slots[i].mem == s.slots[i].mem
  {
    hide Memory, PutId, PutMac, PutLength, PutPayload, SwapLength, GetLength;
    if !s.sd.Waiting? { assert s.owner[s.sd.slot] == Held; }
    if !s.cb.Idle? && !s.cb.Scanning? { assert s.owner[s.cb.slot] == Filling; }
  }

  lemma QueueShape(o: ByteOrder, s: Pool, e: Event)
    requires Enabled(s, e)
    ensures var n := Next(o, s, e);
      match e
      case Dequeue => n.queue == s.queue[1..] && n.accepted == s.accepted
      case Enqueue(ok) =>
        if ok then n.queue == s.queue + [s.cb.slot] && n.accepted == s.accepted + [s.cb.p]
                   && |n.slots| == SLOTS && n.slots[s.cb.slot].mem == s.slots[s.cb.slot].mem
        else n.queue == s.queue && n.accepted == s.accepted
      case _ => n.queue == s.queue && n.accepted == s.accepted
  {
  }

  lemma WaitingSlotUntouched(o: ByteOrder, s: Pool, e: Event, k: nat)
    requires Ownership(s) && Enabled(s, e) && k < |s.queue|
    ensures |Next(o, s, e).slots| == SLOTS
    ensures Next(o, s, e).slots[s.queue[k]].mem == s.slots[s.queue[k]].mem
  {
    assert InQueue(s.queue, s.queue[k]);
    assert s.owner[s.queue[k]] == Queued;
    QueuedSlotsUntouched(o, s, e, s.queue[k]);
  }

  lemma QueueContentsStep(o: ByteOrder, s: Pool, e: Event)
    requires Ownership(s) && QueueContents(o, s) && CallbackContents(o, s) && Enabled(s, e)
    ensures Sane(Next(o, s, e)) && QueueContents(o, Next(o, s, e))
  {
    hide Next, Ownership, Holds;
    OwnershipStep(o, s, e);
    QueueShape(o, s, e);
    var n := Next(o, s, e);
    forall j | 0 <= j < |n.queue| ensures Holds(o, n.slots[n.queue[j]].mem, n.accepted[Taken(n) + j]) {
      if e == Enqueue(true) && j == |s.queue| {
        assert n.accepted[Taken(n) + j] == s.cb.p;
      } else {
        var k := if e.Dequeue? then j + 1 else j;
        WaitingSlotUntouched(o, s, e, k);
        assert n.queue[j] == s.queue[k];
        assert n.accepted[Taken(n) + j] == s.accepted[Taken(s) + k];
      }
    }
  }

  /** Steps of the callback leave what the main task holds and has done. */
  lemma SenderUndisturbed(o: ByteOrder, s: Pool, e: Event)
    requires Ownership(s) && Enabled(s, e)
    requires !(e.Dequeue? || e.Measure? || e.Tag? || e.Swap? || e.Push? || e.Release?)
    ensures var n := Next(o, s, e);
      && n.sd == s.sd && n.offered == s.offered && s.accepted <= n.accepted && Taken(n) == Taken(s)
      && |n.slots| == SLOTS && (Pending(s.sd) ==> n.slots[s.sd.slot].mem == s.slots[s.sd.slot].mem)
  {
    hide PutId, PutMac, PutLength, PutPayload, SwapLength, GetLength;
    if !s.sd.Waiting? { assert s.owner[s.sd.slot] == Held; }
    if !s.cb.Idle? && !s.cb.Scanning? { assert s.owner[s.cb.slot] == Filling; }
  }

  lemma SenderContentsStep(o: ByteOrder, s: Pool, e: Event)
    requires Ownership(s) && QueueContents(o, s) && SenderContents(o, s) && Enabled(s, e)
    ensures Sane(Next(o, s, e)) && SenderContents(o, Next(o, s, e))
  {
    hide PutId, PutMac, PutLength, PutPayload, SwapLength, GetLength, Holds, IsImageOf;
    OwnershipStep(o, s, e);
    var n := Next(o, s, e);
    if e.Dequeue? {
      assert n.accepted[Taken(n) - 1] == s.accepted[Taken(s) + 0];
      assert n.slots[n.sd.slot].mem == s.slots[s.queue[0]].mem;
    } else if e.Measure? || e.Tag? || e.Swap? || e.Push? || e.Release? {
      if Pending(s.sd) {
        SenderMemory(o, s.slots[s.sd.slot].mem, s.accepted[Taken(s) - 1]);
      }
    } else {
      hide Next, Ownership;
      SenderUndisturbed(o, s, e);
    }
  }

  /** The three things the main task does to a held slot. */
  lemma SenderMemory(o: ByteOrder, m: Memory261, p: Packet)
    ensures Holds(o, m, p) ==> GetLength(o, m) == |p.data|
    ensures Holds(o, m, p) ==> Holds(o, PutId(m), p) && PutId(m)[0] == RECEIVED_PACKET
    ensures Holds(o, m, p) && m[0] == RECEIVED_PACKET ==>
      var total := PACKET_HEADER + |p.data|;
      total <= SLOT_BYTES && IsImageOf(SwapLength(o, m)[..total], p)
  {
    hide Memory, SwapLength, GetLength, PacketImage;
    if Holds(o, m, p) {
      LengthOfHeld(o, m, p);
      var t := PutId(m);
      SliceAfterFirst(m, RECEIVED_PACKET, 1, 7);
      SliceAfterFirst(m, RECEIVED_PACKET, 7, 11);
      SliceAfterFirst(m, RECEIVED_PACKET, 11, 11 + |p.data|);
      if m[0] == RECEIVED_PACKET {
        EncodedInPlace(o, m, p);
      }
    }
  }

  // ---------- order ----------

  function Current(cb: Callback): Option<Packet> {
    if cb.Idle? then None else Some(cb.p)
  }

  /** Packets are enqueued, and frames written, in order of arrival; some may be missing. */
  ghost predicate Order(s: Pool) {
    InOrder(s.accepted, s.arrived, Current(s.cb)) && Subsequence(s.pushed, s.offered)
  }

  /** What a step does to the histories. */
  lemma OrderShape(o: ByteOrder, s: Pool, e: Event) returns (frame: Bytes)
    requires Enabled(s, e)
    ensures var n := Next(o, s, e);
      && (e.Arrive? ==> s.cb.Idle? && !n.cb.Idle? && n.cb.p == e.p)
      && (e.Arrive? ==> n.arrived == s.arrived + [e.p] && n.accepted == s.accepted)
      && (!e.Arrive? ==> n.arrived == s.arrived)
      && (!e.Arrive? && !n.cb.Idle? ==> !s.cb.Idle? && n.cb.p == s.cb.p && n.accepted == s.accepted)
      && (!e.Arrive? && n.cb.Idle? ==>
           n.accepted == s.accepted || (!s.cb.Idle? && n.accepted == s.accepted + [s.cb.p]))
      && (e.Push? ==> n.offered == s.offered + [frame] && n.pushed == if e.ok then s.pushed + [frame] else s.pushed)
      && (!e.Push? ==> n.offered == s.offered && n.pushed == s.pushed)
  {
    hide PutId, PutMac, PutLength, PutPayload, SwapLength, GetLength, Occupied;
    frame := if e.Push? then s.slots[s.sd.slot].mem[..s.sd.total] else [];
  }

  lemma OrderStep(o: ByteOrder, s: Pool, e: Event)
    requires Order(s) && Enabled(s, e)
    ensures Order(Next(o, s, e))
  {
    hide Next, Enabled, Subsequence, InOrder;
    var frame := OrderShape(o, s, e);
    SubsequenceGrows(s.pushed, s.offered, frame);
    if e.Arrive? {
      OneArrives(s.accepted, s.arrived, e.p);
    } else if !s.cb.Idle? {
      OneIsDecided(s.accepted, s.arrived, s.cb.p);
    }
  }

  /** As long as no enqueue failed, every packet was accepted but the one in the callback's hands. */
  ghost predicate NoneRefused(s: Pool) {
    s.failed == 0 ==> s.arrived == s.accepted + (if s.cb.Idle? then [] else [s.cb.p])
  }

  lemma NoneRefusedStep(o: ByteOrder, s: Pool, e: Event)
    requires ScanKnowledge(s) && NoneRefused(s) && Enabled(s, e)
    ensures NoneRefused(Next(o, s, e))
  {
    hide PutId, PutMac, PutLength, PutPayload, SwapLength, GetLength, Occupied;
    if s.cb.Scanning? && s.cb.k == SLOTS {
      NoSpaceNeedsFailures(s);
    }
  }

  // ---------- all runs ----------

  ghost predicate Inv(o: ByteOrder, s: Pool) {
    && Ownership(s) && Counts(s) && ScanKnowledge(s)
    && QueueContents(o, s) && SenderContents(o, s) && CallbackContents(o, s)
    && Order(s) && NoneRefused(s)
  }

  lemma InitialInv(o: ByteOrder, s: Pool)
    requires IsInitial(s)
    ensures Inv(o, s)
  {
    AllFree(s.owner);
  }

  lemma {:induction false} AllFree(owner: seq<Owner>)
    requires forall i :: 0 <= i < |owner| ==> owner[i] == Free
    ensures Count(owner, Filling) == Count(owner, Queued) == Count(owner, Held) == Count(owner, Lost) == 0
  {
    if owner != [] {
      AllFree(owner[..|owner| - 1]);
    }
  }

  lemma StepKeepsInv(o: ByteOrder, s: Pool, e: Event)
    requires Inv(o, s) && Enabled(s, e)
    ensures Inv(o, Next(o, s, e))
  {
    hide Ownership, Counts, ScanKnowledge, QueueContents, SenderContents, CallbackContents, Order, Next;
    hide NoneRefused;
    OwnershipStep(o, s, e);
    CountsStep(o, s, e);
    ScanStep(o, s, e);
    QueueContentsStep(o, s, e);
    SenderContentsStep(o, s, e);
    CallbackContentsStep(o, s, e);
    OrderStep(o, s, e);
    NoneRefusedStep(o, s, e);
  }

  lemma {:induction false} RunKeepsInv(o: ByteOrder, s: Pool, es: seq<Event>)
    requires Inv(o, s) && EnabledRun(o, s, es)
    ensures Inv(o, Run(o, s, es))
    decreases |es|
  {
    if es != [] {
      hide Inv, Next;
      StepKeepsInv(o, s, es[0]);
      RunKeepsInv(o, Next(o, s, es[0]), es[1..]);
    }
  }

  lemma {:induction false} RunAppend(o: ByteOrder, s: Pool, a: seq<Event>, b: seq<Event>)
    requires EnabledRun(o, s, a) && EnabledRun(o, Run(o, s, a), b)
    ensures EnabledRun(o, s, a + b) && Run(o, s, a + b) == Run(o, Run(o, s, a), b)
    decreases |a|
  {
    hide Next, Enabled;
    if a == [] {
      assert a + b == b;
    } else {
      RunAppend(o, Next(o, s, a[0]), a[1..], b);
      assert (a + b)[0] == a[0] && (a + b)[1..] == a[1..] + b;
    }
  }

  lemma RunSnoc(o: ByteOrder, s: Pool, es: seq<Event>, e: Event)
    requires EnabledRun(o, s, es) && Enabled(Run(o, s, es), e)
    ensures EnabledRun(o, s, es + [e]) && Run(o, s, es + [e]) == Next(o, Run(o, s, es), e)
  {
    hide Next, Enabled;
    var t := Run(o, s, es);
    assert [e][1..] == [];
    assert EnabledRun(o, t, [e]) && Run(o, t, [e]) == Next(o, t, e);
    RunAppend(o, s, es, [e]);
  }

  /**
   * In every state reachable by any interleaving: frames were offered to the wire in order of
   * arrival, each the exact serialization of its packet; every accepted packet was offered, is
   * held, or waits in its slot in queue order; the main task is never asked to write beyond a
   * slot; giving up for want of space implies at least eight failed enqueues; and without a
   * failed enqueue no packet is lost.
   */
  lemma PoolSafety(o: ByteOrder, s0: Pool, es: seq<Event>)
    requires IsInitial(s0) && EnabledRun(o, s0, es)
    ensures Safe(o, Run(o, s0, es))
  {
    hide Inv, Safe, Next;
    InitialInv(o, s0);
    RunKeepsInv(o, s0, es);
    InvIsSafe(o, Run(o, s0, es));
  }

  ghost predicate Safe(o: ByteOrder, s: Pool) {
    && Ownership(s) && Counts(s) && QueueContents(o, s)
    && Subsequence(s.accepted, s.arrived) && Subsequence(s.pushed, s.offered)
    && |s.accepted| == |s.offered| + (if Pending(s.sd) then 1 else 0) + |s.queue|
    && (forall k :: 0 <= k < |s.offered| ==> IsImageOf(s.offered[k], s.accepted[k]))
    && (s.sd.Swapped? ==> Enabled(s, Push(true)))
    && (s.cb.Scanning? && s.cb.k == SLOTS ==> s.failed >= 8)
    && (s.failed == 0 && s.cb.Idle? ==> s.accepted == s.arrived)
  }

  lemma InvIsSafe(o: ByteOrder, s: Pool)
    requires Inv(o, s)
    ensures Safe(o, s)
  {
    hide Counts, QueueContents, IsImageOf, Holds, Subsequence;
    if s.cb.Scanning? && s.cb.k == SLOTS {
      NoSpaceNeedsFailures(s);
    }
    if !s.cb.Idle? {
      OneIsDecided(s.accepted, s.arrived, s.cb.p);
    }
  }
}
