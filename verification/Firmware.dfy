/**
 * The two pieces of firmware code over the slot pool, as code. Each statement another task can
 * observe is one step of the pool's state machine, so the machine's runs cover every interleaving
 * of these bodies.
 */
module Firmware {
  import opened Bytes
  import opened Messages
  import opened PacketPool

  class SlotPool {
    const order: ByteOrder
    /** The 15 slots: a flag and 261 packed bytes each. */
    const isFree: array<bool>
    const memory: seq<array<byte>>
    var queue: seq<nat>
    ghost var m: Pool

    ghost predicate Shape() {
      && isFree.Length == |memory| == SLOTS
      && (forall i :: 0 <= i < SLOTS ==> memory[i].Length == SLOT_BYTES)
      && (forall i, j :: 0 <= i < j < SLOTS ==> memory[i] != memory[j])
    }

    /** The machine state agrees with the memory. */
    ghost predicate Agrees()
      reads this, isFree, memory
    {
      && Shape() && queue == m.queue && |m.slots| == SLOTS
      && (forall i :: 0 <= i < SLOTS ==> isFree[i] == m.slots[i].isFree)
      && (forall i :: 0 <= i < SLOTS ==> memory[i][..] == m.slots[i].mem)
    }

    ghost predicate Valid()
      reads this, isFree, memory
    {
      Agrees() && Inv(order, m)
    }

    /** Sets the free flags, as the firmware does before anything else. */
    constructor (order: ByteOrder)
      ensures |memory| == 15 && (forall i :: 0 <= i < 15 ==> memory[i].Length == 261)
      ensures Valid() && IsInitial(m) && fresh(isFree) && forall i :: 0 <= i < SLOTS ==> fresh(memory[i])
    {
      var flags := FreeFlags();
      var slots := NewSlots();
      this.order, isFree, memory, queue := order, flags, slots, [];
      new;
      ghost var initial := seq(SLOTS,
        i requires 0 <= i < SLOTS && Shape() reads this, memory => Slot(true, memory[i][..]));
      m := Pool(initial, [], Idle, Waiting, seq(SLOTS, _ => Free), [], [], [], [], 0, {});
      hide Inv;
      InitialInv(order, m);
    }

    static method FreeFlags() returns (flags: array<bool>)
      ensures fresh(flags) && flags.Length == SLOTS && forall k :: 0 <= k < SLOTS ==> flags[k]
    {
      flags := new bool[SLOTS];
      for i := 0 to SLOTS
        invariant forall k :: 0 <= k < i ==> flags[k]
      {
        flags[i] := true;
      }
    }

    static method NewSlots() returns (slots: seq<array<byte>>)
      ensures |slots| == SLOTS
      ensures forall k :: 0 <= k < SLOTS ==> fresh(slots[k]) && slots[k].Length == SLOT_BYTES
      ensures forall j, k :: 0 <= j < k < SLOTS ==> slots[j] != slots[k]
    {
      slots := [];
      for i := 0 to SLOTS
        invariant |slots| == i && forall k :: 0 <= k < i ==> fresh(slots[k]) && slots[k].Length == SLOT_BYTES
        invariant forall j, k :: 0 <= j < k < i ==> slots[j] != slots[k]
      {
        var slot := new byte[SLOT_BYTES];
        slots := slots + [slot];
      }
    }

    /** One step of the machine, appended to the run `es` that began in `start`. */
    ghost method Record(start: Pool, es: seq<Event>, e: Event) returns (longer: seq<Event>)
      requires Inv(order, m) && EnabledRun(order, start, es) && m == Run(order, start, es) && Enabled(m, e)
      modifies this`m
      ensures m == Next(order, old(m), e) && Inv(order, m)
      ensures longer == es + [e] && EnabledRun(order, start, longer) && m == Run(order, start, longer)
    {
      hide Inv, Next, Enabled, Run, EnabledRun;
      StepKeepsInv(order, m, e);
      RunSnoc(order, start, es, e);
      m := Next(order, m, e);
      longer := es + [e];
    }

    /** `std::find_if`: the first free slot, or 15. */
    method FindFree(packet: Packet, ghost start: Pool, ghost before: seq<Event>) returns (i: nat, ghost es: seq<Event>)
      requires Valid() && m.cb == Scanning(packet, 0)
      requires EnabledRun(order, start, before) && m == Run(order, start, before)
      modifies this`m
      ensures Valid() && EnabledRun(order, start, es) && m == Run(order, start, es)
      ensures m == old(m).(cb := Scanning(packet, i))
      ensures i <= SLOTS && (forall k :: 0 <= k < i ==> !isFree[k]) && (i < SLOTS ==> isFree[i])
    {
      hide Inv, Run, EnabledRun;
      i, es := 0, before;
      while i < SLOTS && !isFree[i]
        invariant i <= SLOTS && Valid() && m == old(m).(cb := Scanning(packet, i))
        invariant forall k :: 0 <= k < i ==> !isFree[k]
        invariant EnabledRun(order, start, es) && m == Run(order, start, es)
      {
        SaneInv(order, m);
        assert !m.slots[i].isFree;
        es := Record(start, es, Scan);
        i := i + 1;
      }
    }

    // One statement of the firmware and one step of the machine each: up to StorePayload the
    // callback's, then the main task's.

    method Claim(packet: Packet, i: nat)
      requires Valid() && i < SLOTS && m.cb == Scanning(packet, i) && isFree[i]
      modifies this`m, isFree
      ensures Valid() && Enabled(old(m), Scan) && m == Next(order, old(m), Scan)
      ensures m.cb == Claimed(packet, i) && SameButCallback(old(m), m)
    {
      hide Inv;
      SaneInv(order, m);
      assert m.slots[i].isFree;
      StepKeepsInv(order, m, Scan);
      isFree[i] := false;
      m := Next(order, m, Scan);
    }

    method StoreMac(packet: Packet, i: nat)
      requires Valid() && i < SLOTS && m.cb == Claimed(packet, i)
      modifies this`m, memory[i]
      ensures Valid() && Enabled(old(m), CopyMac) && m == Next(order, old(m), CopyMac)
      ensures m.cb == Addressed(packet, i) && SameButCallback(old(m), m)
    {
      hide Inv;
      SaneInv(order, m);
      StepKeepsInv(order, m, CopyMac);
      CopyTo(memory[i], 1, packet.mac);
      m := Next(order, m, CopyMac);
    }

    method StoreSize(packet: Packet, i: nat)
      requires Valid() && i < SLOTS && m.cb == Addressed(packet, i)
      modifies this`m, memory[i]
      ensures Valid() && Enabled(old(m), StoreLength) && m == Next(order, old(m), StoreLength)
      ensures m.cb == Sized(packet, i) && SameButCallback(old(m), m)
    {
      hide Inv, Memory;
      SaneInv(order, m);
      StepKeepsInv(order, m, StoreLength);
      CopyTo(memory[i], 7, Memory(order, 4, |packet.data|));
      m := Next(order, m, StoreLength);
    }

    method StorePayload(packet: Packet, i: nat)
      requires Valid() && i < SLOTS && m.cb == Sized(packet, i)
      modifies this`m, memory[i]
      ensures Valid() && Enabled(old(m), CopyPayload) && m == Next(order, old(m), CopyPayload)
      ensures m.cb == Filled(packet, i) && SameButCallback(old(m), m)
      ensures Holds(order, memory[i][..], packet)
    {
      hide Inv, Holds;
      SaneInv(order, m);
      StepKeepsInv(order, m, CopyPayload);
      CopyTo(memory[i], 11, packet.data);
      m := Next(order, m, CopyPayload);
      SaneInv(order, m);
    }

    method MeasureSlot(index: nat) returns (total: nat)
      requires Valid() && index < SLOTS && m.sd == Got(index)
      modifies this`m
      ensures Valid() && Enabled(old(m), Measure) && m == Next(order, old(m), Measure)
      ensures m.sd == Measured(index, total) && SameButSender(old(m), m)
    {
      hide Inv, Load;
      SaneInv(order, m);
      StepKeepsInv(order, m, Measure);
      assert memory[index][7..11] == memory[index][..][7..11];
      total := PACKET_HEADER + Load(order, memory[index][7..11]);
      m := Next(order, m, Measure);
    }

    method TagSlot(index: nat, total: nat)
      requires Valid() && index < SLOTS && m.sd == Measured(index, total)
      modifies this`m, memory[index]
      ensures Valid() && Enabled(old(m), Tag) && m == Next(order, old(m), Tag)
      ensures m.sd == Tagged(index, total) && SameButSender(old(m), m)
    {
      hide Inv;
      SaneInv(order, m);
      StepKeepsInv(order, m, Tag);
      memory[index][0] := RECEIVED_PACKET;
      m := Next(order, m, Tag);
    }

    method SwapSlot(index: nat, total: nat)
      requires Valid() && index < SLOTS && m.sd == Tagged(index, total)
      modifies this`m, memory[index]
      ensures Valid() && Enabled(old(m), Swap) && m == Next(order, old(m), Swap)
      ensures m.sd == Swapped(index, total) && SameButSender(old(m), m)
    {
      hide Inv, Load, Memory, HostToNetwork;
      SaneInv(order, m);
      StepKeepsInv(order, m, Swap);
      WordWidths();
      assert memory[index][7..11] == memory[index][..][7..11];
      CopyTo(memory[index], 7, Memory(order, 4, HostToNetwork(order, 4, Load(order, memory[index][7..11]))));
      m := Next(order, m, Swap);
    }

    /** Claims slot `i` and copies the packet into it, in place. */
    method Fill(packet: Packet, i: nat, ghost start: Pool, ghost before: seq<Event>) returns (ghost es: seq<Event>)
      requires Valid() && i < SLOTS && m.cb == Scanning(packet, i) && isFree[i]
      requires EnabledRun(order, start, before) && m == Run(order, start, before)
      modifies this`m, isFree, memory[i]
      ensures Valid() && EnabledRun(order, start, es) && m == Run(order, start, es)
      ensures m.cb == Filled(packet, i) && SameButCallback(old(m), m)
      ensures Holds(order, memory[i][..], packet)
    {
      hide Inv, Run, EnabledRun, Next, Enabled, Holds, Agrees;
      Claim(packet, i);
      RunSnoc(order, start, before, Scan);
      StoreMac(packet, i);
      RunSnoc(order, start, before + [Scan], CopyMac);
      StoreSize(packet, i);
      RunSnoc(order, start, before + [Scan] + [CopyMac], StoreLength);
      StorePayload(packet, i);
      RunSnoc(order, start, before + [Scan] + [CopyMac] + [StoreLength], CopyPayload);
      es := before + [Scan] + [CopyMac] + [StoreLength] + [CopyPayload];
    }

    /** `xQueueSend` of the slot's index; the callback ends. */
    method Send(i: nat)
      requires Valid() && i < SLOTS && m.cb.Filled? && m.cb.slot == i
      modifies this`m, this`queue
      ensures var sent := |old(queue)| < QUEUE_SIZE;
        && Valid() && Enabled(old(m), Enqueue(sent)) && m == Next(order, old(m), Enqueue(sent))
        && m.cb.Idle? && m.arrived == old(m.arrived) && m.offered == old(m.offered) && m.sd == old(m.sd)
        && m.accepted == if sent then old(m.accepted) + [old(m.cb.p)] else old(m.accepted)
    {
      hide Inv;
      SaneInv(order, m);
      var sent := |queue| < QUEUE_SIZE;
      StepKeepsInv(order, m, Enqueue(sent));
      if sent {
        queue := queue + [i];
      }
      m := Next(order, m, Enqueue(sent));
    }

    /** The receive callback: `p` is absent for invalid arguments. */
    method RecvCallback(p: Option<Packet>) returns (ghost es: seq<Event>)
      requires Valid() && m.cb.Idle?
      requires p.Some? ==> |p.value.mac| == 6 && |p.value.data| <= 250
      modifies this, isFree, memory
      ensures Valid() && m.cb.Idle?
      ensures EnabledRun(order, old(m), es) && m == Run(order, old(m), es)
      ensures p.None? || p.value.data == [] ==> es == []
      ensures p.Some? && p.value.data != [] ==>
        && m.arrived == old(m.arrived) + [p.value]
        && m.accepted == if |old(queue)| < 6 && HasFree(old(isFree[..]))
                         then old(m.accepted) + [p.value] else old(m.accepted)
      ensures m.offered == old(m.offered) && m.sd == old(m.sd)
    {
      es := [];
      hide Inv, Run, EnabledRun;
      Nothing(order, m);
      if p.None? || |p.value.data| == 0 {
        return;
      }
      var packet := p.value;
      SaneInv(order, m);
      ghost var start := m;
      es := Record(start, es, Arrive(packet));
      hide Next, Enabled, Holds;
      var i;
      i, es := FindFree(packet, start, es);
      if i < SLOTS {
        assert old(isFree[..])[i];
        es := Fill(packet, i, start, es);
        ghost var sent := |queue| < QUEUE_SIZE;
        Send(i);
        RunSnoc(order, start, es, Enqueue(sent));
        es := es + [Enqueue(sent)];
      } else {
        es := GiveUp(packet, start, es);
      }
    }

    /** The scan found no free slot. */
    ghost method GiveUp(packet: Packet, start: Pool, before: seq<Event>) returns (es: seq<Event>)
      requires Valid() && m.cb == Scanning(packet, SLOTS)
      requires EnabledRun(order, start, before) && m == Run(order, start, before)
      modifies this`m
      ensures Valid() && EnabledRun(order, start, es) && m == Run(order, start, es)
      ensures m == old(m).(cb := Idle)
    {
      hide Inv, Run, EnabledRun;
      SaneInv(order, m);
      es := Record(start, before, Scan);
    }

    /** Measures the held slot, tags it and swaps its length field, in place. */
    method Encode(index: nat, ghost start: Pool, ghost before: seq<Event>) returns (total: nat, ghost es: seq<Event>)
      requires Valid() && index < SLOTS && m.sd == Got(index)
      requires EnabledRun(order, start, before) && m == Run(order, start, before)
      modifies this`m, memory[index]
      ensures Valid() && EnabledRun(order, start, es) && m == Run(order, start, es)
      ensures m.sd == Swapped(index, total) && SameButSender(old(m), m)
      ensures |m.offered| < |m.accepted| && total <= SLOT_BYTES
      ensures IsImageOf(memory[index][..total], m.accepted[|m.offered|])
    {
      hide Inv, Run, EnabledRun, Next, Enabled, IsImageOf;
      total := MeasureSlot(index);
      RunSnoc(order, start, before, Measure);
      TagSlot(index, total);
      RunSnoc(order, start, before + [Measure], Tag);
      SwapSlot(index, total);
      RunSnoc(order, start, before + [Measure] + [Tag], Swap);
      es := before + [Measure] + [Tag] + [Swap];
      SaneInv(order, m);
      assert memory[index][..][..total] == memory[index][..total];
    }

    method TakeIndex() returns (index: nat)
      requires Valid() && m.sd.Waiting? && queue != []
      modifies this`m, this`queue
      ensures Valid() && Enabled(old(m), Dequeue) && m == Next(order, old(m), Dequeue)
      ensures m.sd == Got(index) && index < SLOTS && SameButSender(old(m), m) && queue == old(queue)[1..]
    {
      hide Inv;
      SaneInv(order, m);
      StepKeepsInv(order, m, Dequeue);
      index := queue[0];
      queue := queue[1..];
      m := Next(order, m, Dequeue);
    }

    method FreeSlot(index: nat)
      requires Valid() && index < SLOTS && m.sd == Pushed(index)
      modifies this`m, isFree
      ensures Valid() && Enabled(old(m), Release) && m == Next(order, old(m), Release)
      ensures m.sd.Waiting? && SameButSender(old(m), m)
    {
      hide Inv;
      SaneInv(order, m);
      StepKeepsInv(order, m, Release);
      isFree[index] := true;
      m := Next(order, m, Release);
    }

    /** Offers the held slot to the wire; `lock` is whether its mutex was obtained. */
    ghost method Offer(index: nat, total: nat, lock: bool)
      requires Valid() && index < SLOTS && m.sd == Swapped(index, total)
      modifies this`m
      ensures Valid() && Enabled(old(m), Push(lock)) && m == Next(order, old(m), Push(lock))
      ensures m.sd == Pushed(index) && m.accepted == old(m.accepted) && m.queue == old(m.queue)
      ensures total <= SLOT_BYTES
      ensures m.offered == old(m.offered) + [memory[index][..total]]
      ensures m.pushed == if lock then old(m.pushed) + [memory[index][..total]] else old(m.pushed)
    {
      hide Inv;
      SaneInv(order, m);
      StepKeepsInv(order, m, Push(lock));
      assert memory[index][..][..total] == memory[index][..total];
      m := Next(order, m, Push(lock));
    }

    /** The main loop's body for one queued slot; `lock` is whether the wire's mutex was obtained. */
    method ForwardNext(ghost lock: bool) returns (ghost es: seq<Event>)
      requires Valid() && m.sd.Waiting? && queue != []
      modifies this, isFree, memory
      ensures Valid() && m.sd.Waiting?
      ensures EnabledRun(order, old(m), es) && m == Run(order, old(m), es)
      ensures var k := |old(m.offered)|;
        && k < |m.accepted| && m.accepted == old(m.accepted)
        && |m.offered| == k + 1 && m.offered[..k] == old(m.offered) && IsImageOf(m.offered[k], m.accepted[k])
        && m.pushed == if lock then old(m.pushed) + [m.offered[k]] else old(m.pushed)
      ensures queue == old(queue)[1..]
    {
      hide Inv, Run, EnabledRun, Next, Enabled, IsImageOf;
      Nothing(order, m);
      ghost var start := m;
      var index := TakeIndex();
      RunSnoc(order, start, [], Dequeue);
      es := [] + [Dequeue];
      var total;
      total, es := Encode(index, start, es);
      Offer(index, total, lock);
      RunSnoc(order, start, es, Push(lock));
      es := es + [Push(lock)];
      FreeSlot(index);
      RunSnoc(order, start, es, Release);
      es := es + [Release];
    }
  }

  /** What the callback's statements leave alone. */
  predicate SameButCallback(s: Pool, t: Pool) {
    t.arrived == s.arrived && t.accepted == s.accepted && t.offered == s.offered && t.pushed == s.pushed
    && t.sd == s.sd && t.queue == s.queue
  }

  /** What the main task's statements leave alone. */
  predicate SameButSender(s: Pool, t: Pool) {
    t.arrived == s.arrived && t.accepted == s.accepted && t.offered == s.offered && t.pushed == s.pushed
    && t.cb == s.cb
  }

  predicate HasFree(flags: seq<bool>) {
    exists i :: 0 <= i < |flags| && flags[i]
  }

  lemma Nothing(o: ByteOrder, s: Pool)
    ensures EnabledRun(o, s, []) && Run(o, s, []) == s
  {
  }

  /** What the code needs to know of the invariant. */
  lemma SaneInv(o: ByteOrder, s: Pool)
    requires Inv(o, s)
    ensures Sane(s) && |s.offered| <= |s.accepted|
    ensures s.sd.Swapped? ==>
      && s.sd.total <= SLOT_BYTES && |s.offered| < |s.accepted|
      && IsImageOf(s.slots[s.sd.slot].mem[..s.sd.total], s.accepted[|s.offered|])
    ensures s.cb.Filled? ==> Holds(o, s.slots[s.cb.slot].mem, s.cb.p)
    ensures forall k :: 0 <= k < |s.offered| ==> IsImageOf(s.offered[k], s.accepted[k])
    ensures !s.cb.Idle? && !s.cb.Scanning? ==> !s.slots[s.cb.slot].isFree
    ensures s.queue != [] ==> !s.slots[s.queue[0]].isFree
  {
    if !s.cb.Idle? && !s.cb.Scanning? {
      assert s.owner[s.cb.slot] == Filling;
    }
    if s.queue != [] {
      assert InQueue(s.queue, s.queue[0]);
      assert s.owner[s.queue[0]] == Queued;
    }
  }
}
