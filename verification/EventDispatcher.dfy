/**
 * utility/event_dispatcher: handlers are registered per event type and stay registered as long as
 * a move-only guard holds their id. Event types and handlers are numbered.
 */
module EventDispatchers {
  import opened Bytes

  datatype Subscription = Subscription(id: nat, handler: nat)

  /** The dispatcher's own data: `lists` has an entry for every type ever subscribed to. */
  datatype Registry = Registry(next: nat, lists: map<nat, seq<Subscription>>) {
    function List(event: nat): seq<Subscription> {
      if event in lists then lists[event] else []
    }
  }

  /** The list without the subscription `id`. */
  function Removed(list: seq<Subscription>, id: nat): (kept: seq<Subscription>)
    ensures forall x :: x in kept <==> x in list && x.id != id
  {
    if list == [] then []
    else Removed(list[..|list| - 1], id) + if list[|list| - 1].id == id then [] else [list[|list| - 1]]
  }

  function Subscribed(r: Registry, event: nat, handler: nat): Registry {
    Registry(r.next + 1, r.lists[event := r.List(event) + [Subscription(r.next + 1, handler)]])
  }

  function Unsubscribed(r: Registry, id: nat): Registry {
    Registry(r.next, map e | e in r.lists :: Removed(r.lists[e], id))
  }

  lemma UnsubscribedMembers(r: Registry, event: nat, id: nat)
    ensures forall x :: x in Unsubscribed(r, id).List(event) <==> x in r.List(event) && x.id != id
  {
    assert Unsubscribed(r, id).List(event) == Removed(r.List(event), id);
  }

  // ---------- all runs of subscriptions and guards ----------

  /** The record of a call of `subscribe`. */
  datatype Entry = Entry(event: nat, sub: Subscription)

  /** `guards` are the live guards by name; an empty guard has id 0. */
  datatype World = World(reg: Registry, guards: map<nat, nat>, history: seq<Entry>)

  datatype Step =
    | Subscribe(event: nat, handler: nat, guard: nat)
    | Default(guard: nat)
    | MoveConstruct(from: nat, guard: nat)
    | MoveAssign(from: nat, guard: nat)
    | Reset(guard: nat)
    | Destroy(guard: nat)

  predicate Enabled(w: World, s: Step) {
    match s
    case Subscribe(e, h, g) => g !in w.guards && w.reg.next + 1 < TWO_64
    case Default(g) => g !in w.guards
    case MoveConstruct(f, g) => f in w.guards && g !in w.guards
    case MoveAssign(f, g) => f in w.guards && g in w.guards
    case Reset(g) => g in w.guards
    case Destroy(g) => g in w.guards
  }

  function AfterReset(w: World, g: nat): World
    requires g in w.guards
  {
    if w.guards[g] == 0 then w
    else w.(reg := Unsubscribed(w.reg, w.guards[g]), guards := w.guards[g := 0])
  }

  function Next(w: World, s: Step): World
    requires Enabled(w, s)
  {
    match s
    case Subscribe(e, h, g) =>
      World(Subscribed(w.reg, e, h), w.guards[g := w.reg.next + 1],
            w.history + [Entry(e, Subscription(w.reg.next + 1, h))])
    case Default(g) => w.(guards := w.guards[g := 0])
    case MoveConstruct(f, g) => w.(guards := w.guards[g := w.guards[f]][f := 0])
    case MoveAssign(f, g) =>
      if f == g then w
      else var r := AfterReset(w, g); r.(guards := r.guards[g := r.guards[f]][f := 0])
    case Reset(g) => AfterReset(w, g)
    case Destroy(g) => var r := AfterReset(w, g); r.(guards := r.guards - {g})
  }

  predicate EnabledRun(w: World, steps: seq<Step>)
    decreases |steps|
  {
    steps == [] || (Enabled(w, steps[0]) && EnabledRun(Next(w, steps[0]), steps[1..]))
  }

  function Run(w: World, steps: seq<Step>): World
    requires EnabledRun(w, steps)
    decreases |steps|
  {
    if steps == [] then w else Run(Next(w, steps[0]), steps[1..])
  }

  const NEW_WORLD: World := World(Registry(0, map[]), map[], [])

  /** The ids live guards hold. */
  function Ids(guards: map<nat, nat>): set<nat> {
    set g | g in guards && guards[g] != 0 :: guards[g]
  }

  /** The subscriptions of one event type whose ids are held, in order of subscription. */
  function Live(history: seq<Entry>, event: nat, ids: set<nat>): seq<Subscription> {
    if history == [] then []
    else
      var last := history[|history| - 1];
      Live(history[..|history| - 1], event, ids)
      + if last.event == event && last.sub.id in ids then [last.sub] else []
  }

  ghost predicate Owned(w: World) {
    && (forall g, h :: g in w.guards && h in w.guards && g != h && w.guards[g] != 0 ==> w.guards[g] != w.guards[h])
    && (forall g :: g in w.guards ==> w.guards[g] <= w.reg.next)
  }

  ghost predicate Numbered(w: World) {
    w.reg.next == |w.history| && forall i :: 0 <= i < |w.history| ==> w.history[i].sub.id == i + 1
  }

  ghost predicate Registered(w: World) {
    forall e :: w.reg.List(e) == Live(w.history, e, Ids(w.guards))
  }

  lemma {:induction false} LiveWithout(history: seq<Entry>, event: nat, ids: set<nat>, id: nat)
    ensures Live(history, event, ids - {id}) == Removed(Live(history, event, ids), id)
  {
    if history != [] {
      var init, last := history[..|history| - 1], history[|history| - 1];
      LiveWithout(init, event, ids, id);
      var l := Live(init, event, ids);
      if last.event == event && last.sub.id in ids {
        assert (l + [last.sub])[..|l|] == l;
      } else {
        assert l + [] == l;
      }
    }
  }

  lemma {:induction false} LiveWithStranger(history: seq<Entry>, event: nat, ids: set<nat>, id: nat)
    requires forall i :: 0 <= i < |history| ==> history[i].sub.id != id
    ensures Live(history, event, ids + {id}) == Live(history, event, ids)
  {
    if history != [] {
      LiveWithStranger(history[..|history| - 1], event, ids, id);
    }
  }

  lemma ResetKeeps(w: World, g: nat)
    requires Owned(w) && Numbered(w) && Registered(w) && g in w.guards
    ensures var r := AfterReset(w, g); Owned(r) && Numbered(r) && Registered(r) && r.guards == w.guards[g := 0]
  {
    var id := w.guards[g];
    var r := AfterReset(w, g);
    if id != 0 {
      assert Ids(r.guards) == Ids(w.guards) - {id} by {
        forall x ensures x in Ids(r.guards) <==> x in Ids(w.guards) - {id} {
          if x in Ids(w.guards) - {id} {
            var h :| h in w.guards && w.guards[h] == x && x != 0;
            assert r.guards[h] == x;
          }
        }
      }
      forall e ensures r.reg.List(e) == Live(r.history, e, Ids(r.guards)) {
        LiveWithout(w.history, e, Ids(w.guards), id);
        assert w.reg.List(e) == Live(w.history, e, Ids(w.guards));
      }
    } else {
      assert w.guards[g := 0] == w.guards;
    }
  }

  lemma SubscribeKeeps(w: World, e: nat, h: nat, g: nat)
    requires Owned(w) && Numbered(w) && Registered(w) && Enabled(w, Subscribe(e, h, g))
    ensures var n := Next(w, Subscribe(e, h, g)); Owned(n) && Numbered(n) && Registered(n)
  {
    var n := Next(w, Subscribe(e, h, g));
    var id := w.reg.next + 1;
    NewId(w.guards, g, id);
    forall f ensures n.reg.List(f) == Live(n.history, f, Ids(n.guards)) {
      hide Owned, Registered, Ids;
      LiveWithStranger(w.history, f, Ids(w.guards), id);
      assert n.history[..|n.history| - 1] == w.history;
      assert w.reg.List(f) == Live(w.history, f, Ids(w.guards)) by { ListIsLive(w, f); }
    }
  }

  lemma ListIsLive(w: World, e: nat)
    requires Registered(w)
    ensures w.reg.List(e) == Live(w.history, e, Ids(w.guards))
  {
  }

  lemma NewId(guards: map<nat, nat>, g: nat, id: nat)
    requires g !in guards && id != 0
    ensures Ids(guards[g := id]) == Ids(guards) + {id}
  {
    var n := guards[g := id];
    assert n[g] == id;
    forall x | x in Ids(guards) ensures x in Ids(n) {
      var k :| k in guards && guards[k] == x && x != 0;
      assert n[k] == x;
    }
  }

  lemma TransferKeepsIds(guards: map<nat, nat>, from: nat, to: nat)
    requires from in guards && from != to && (to in guards ==> guards[to] == 0)
    ensures Ids(guards[to := guards[from]][from := 0]) == Ids(guards)
  {
    var n := guards[to := guards[from]][from := 0];
    forall x ensures x in Ids(n) <==> x in Ids(guards) {
      if x in Ids(guards) {
        var k :| k in guards && guards[k] == x && x != 0;
        assert n[if k == from then to else k] == x;
      }
      if x in Ids(n) {
        var k :| k in n && n[k] == x && x != 0;
        assert guards[if k == to then from else k] == x;
      }
    }
  }

  /** Handing an id from one guard to an empty or new one changes no registration. */
  lemma TransferKeeps(w: World, from: nat, to: nat)
    requires Owned(w) && Numbered(w) && Registered(w)
    requires from in w.guards && from != to && (to in w.guards ==> w.guards[to] == 0)
    ensures var n := w.(guards := w.guards[to := w.guards[from]][from := 0]); Owned(n) && Numbered(n) && Registered(n)
  {
    TransferKeepsIds(w.guards, from, to);
    hide Live, Ids;
    var n := w.(guards := w.guards[to := w.guards[from]][from := 0]);
    forall e ensures n.reg.List(e) == Live(n.history, e, Ids(n.guards)) {
      assert w.reg.List(e) == Live(w.history, e, Ids(w.guards));
    }
  }

  /** Empty guards come and go without effect. */
  lemma EmptyGuardKeeps(w: World, guards: map<nat, nat>, g: nat)
    requires Owned(w) && Numbered(w) && Registered(w) && (g in w.guards ==> w.guards[g] == 0)
    requires guards == w.guards[g := 0] || guards == w.guards - {g}
    ensures var n := w.(guards := guards); Owned(n) && Numbered(n) && Registered(n)
  {
    var n := w.(guards := guards);
    assert Ids(guards) == Ids(w.guards) by {
      forall x | x in Ids(w.guards) ensures x in Ids(guards) {
        var k :| k in w.guards && w.guards[k] == x && x != 0;
        assert guards[k] == x;
      }
    }
    forall e ensures n.reg.List(e) == Live(n.history, e, Ids(n.guards)) {
      assert w.reg.List(e) == Live(w.history, e, Ids(w.guards));
    }
  }

  lemma {:induction false} RunKeepsInv(w: World, steps: seq<Step>)
    requires Owned(w) && Numbered(w) && Registered(w) && EnabledRun(w, steps)
    ensures Owned(Run(w, steps)) && Numbered(Run(w, steps)) && Registered(Run(w, steps))
    decreases |steps|
  {
    if steps != [] {
      hide Owned, Numbered, Registered;
      StepKeepsInv(w, steps[0]);
      RunKeepsInv(Next(w, steps[0]), steps[1..]);
    }
  }

  lemma StepKeepsInv(w: World, s: Step)
    requires Owned(w) && Numbered(w) && Registered(w) && Enabled(w, s)
    ensures var n := Next(w, s); Owned(n) && Numbered(n) && Registered(n)
  {
    hide Owned, Numbered, Registered;
    match s
    case Subscribe(e, h, g) => SubscribeKeeps(w, e, h, g);
    case Default(g) => EmptyGuardKeeps(w, w.guards[g := 0], g);
    case MoveConstruct(f, g) => TransferKeeps(w, f, g);
    case MoveAssign(f, g) =>
      if f != g {
        ResetKeeps(w, g);
        TransferKeeps(AfterReset(w, g), f, g);
      }
    case Reset(g) => ResetKeeps(w, g);
    case Destroy(g) =>
      ResetKeeps(w, g);
      var r := AfterReset(w, g);
      EmptyGuardKeeps(r, r.guards - {g}, g);
  }

  predicate Ascending(list: seq<Subscription>) {
    forall i, j :: 0 <= i < j < |list| ==> list[i].id < list[j].id
  }

  /** `at` are the positions in the history of the event's subscriptions whose ids are held; `list` is those. */
  ghost predicate PositionsOf(history: seq<Entry>, event: nat, ids: set<nat>, list: seq<Subscription>, at: seq<nat>) {
    && |at| == |list|
    && (forall i :: 0 <= i < |at| ==> at[i] < |history| && history[at[i]].sub == list[i])
    && (forall i :: 0 <= i < |at| ==> history[at[i]].event == event && history[at[i]].sub.id in ids)
    && (forall i, j :: 0 <= i < j < |at| ==> at[i] < at[j])
    && (forall k :: 0 <= k < |history| && history[k].event == event && history[k].sub.id in ids ==> k in at)
  }

  lemma PositionsSnoc(history: seq<Entry>, x: Entry, event: nat, ids: set<nat>,
                      list: seq<Subscription>, at: seq<nat>)
    requires PositionsOf(history, event, ids, list, at)
    ensures if x.event == event && x.sub.id in ids
      then PositionsOf(history + [x], event, ids, list + [x.sub], at + [|history|])
      else PositionsOf(history + [x], event, ids, list, at)
  {
    assert (at + [|history|])[|at|] == |history|;
    assert forall k :: k in at ==> k in at + [|history|];
  }

  lemma {:induction false} LivePositions(history: seq<Entry>, event: nat, ids: set<nat>) returns (at: seq<nat>)
    ensures PositionsOf(history, event, ids, Live(history, event, ids), at)
  {
    at := [];
    if history != [] {
      hide PositionsOf;
      var n := |history| - 1;
      at := LivePositions(history[..n], event, ids);
      PositionsSnoc(history[..n], history[n], event, ids, Live(history[..n], event, ids), at);
      assert history[..n] + [history[n]] == history;
      if history[n].event == event && history[n].sub.id in ids {
        at := at + [n];
      } else {
        assert Live(history, event, ids) == Live(history[..n], event, ids) + [] == Live(history[..n], event, ids);
      }
    }
  }

  lemma LiveFacts(history: seq<Entry>, event: nat, ids: set<nat>)
    requires forall i :: 0 <= i < |history| ==> history[i].sub.id == i + 1
    ensures Ascending(Live(history, event, ids))
    ensures forall i :: 0 <= i < |Live(history, event, ids)| ==> Live(history, event, ids)[i].id in ids
    ensures forall i :: 0 <= i < |Live(history, event, ids)| ==> Live(history, event, ids)[i].id <= |history|
    ensures forall k :: 0 <= k < |history| && k + 1 in ids && history[k].event == event
              ==> history[k].sub in Live(history, event, ids)
  {
    hide Live;
    var list := Live(history, event, ids);
    var at := LivePositions(history, event, ids);
    forall k | 0 <= k < |history| && k + 1 in ids && history[k].event == event ensures history[k].sub in list {
      assert k in at;
      var i :| 0 <= i < |at| && at[i] == k;
      assert list[i] == history[k].sub;
    }
  }

  /**
   * After every sequence of subscriptions and guard operations, with fewer than 2^64
   * subscriptions: publishing an event calls exactly the handlers of that type whose id a live
   * guard holds, in order of subscription; every held id is registered, under its own event type
   * only, and has one owner; no id was given out twice; the lists are strictly ascending.
   */
  lemma SubscriptionOwnership(steps: seq<Step>, event: nat)
    requires EnabledRun(NEW_WORLD, steps)
    ensures Consistent(Run(NEW_WORLD, steps), event)
  {
    hide Consistent, Next;
    NewWorldInv();
    RunKeepsInv(NEW_WORLD, steps);
    InvIsConsistent(Run(NEW_WORLD, steps), event);
  }

  ghost predicate Consistent(w: World, event: nat) {
    var list, ids := w.reg.List(event), Ids(w.guards);
    && Owned(w) && Numbered(w)
    && list == Live(w.history, event, ids)
    && Ascending(list)
    && (forall i :: 0 <= i < |list| ==> list[i].id in ids)
    && (forall id :: id in ids ==>
         0 < id <= |w.history| && (w.history[id - 1].sub in list <==> w.history[id - 1].event == event))
  }

  lemma NewWorldInv()
    ensures Owned(NEW_WORLD) && Numbered(NEW_WORLD) && Registered(NEW_WORLD)
  {
  }

  lemma InvIsConsistent(w: World, event: nat)
    requires Owned(w) && Numbered(w) && Registered(w)
    ensures Consistent(w, event)
  {
    hide Live, Ascending;
    var ids := Ids(w.guards);
    assert w.reg.List(event) == Live(w.history, event, ids);
    LiveFacts(w.history, event, ids);
    forall id | id in ids
      ensures 0 < id <= |w.history|
      ensures (w.history[id - 1].sub in Live(w.history, event, ids) <==> w.history[id - 1].event == event)
    {
      assert 0 < id <= w.reg.next;
      LiveIsOfEvent(w.history, event, ids, id - 1);
      assert w.history[id - 1].sub.id == id;
      if w.history[id - 1].event == event {
        var k := id - 1;
        assert k + 1 in ids;
        assert w.history[k].sub in Live(w.history, event, ids);
      }
    }
  }

  lemma {:induction false} LiveIsOfEvent(history: seq<Entry>, event: nat, ids: set<nat>, k: nat)
    requires forall i :: 0 <= i < |history| ==> history[i].sub.id == i + 1
    requires k < |history|
    ensures history[k].sub in Live(history, event, ids) ==> history[k].event == event
  {
    var n := |history| - 1;
    LiveFacts(history[..n], event, ids);
    if k < n {
      LiveIsOfEvent(history[..n], event, ids, k);
    }
  }

  // ---------- what guard operations do ----------

  /** Some list has a subscription with this id. */
  predicate IsRegistered(w: World, id: nat) {
    exists e, i :: e in w.reg.lists && 0 <= i < |w.reg.lists[e]| && w.reg.lists[e][i].id == id
  }

  /**
   * In every reachable state any two live guards can be operated on: assigning ends the target's
   * subscription and hands the source's over, except from a guard to itself; resetting ends a
   * subscription; destroying also removes the guard; a new guard can take an id over.
   */
  lemma GuardOperations(steps: seq<Step>, from: nat, to: nat, other: nat)
    requires EnabledRun(NEW_WORLD, steps)
    requires from in Run(NEW_WORLD, steps).guards && to in Run(NEW_WORLD, steps).guards
    requires other !in Run(NEW_WORLD, steps).guards
    ensures var w := Run(NEW_WORLD, steps);
      && Enabled(w, MoveAssign(from, to)) && Enabled(w, MoveConstruct(from, other))
      && Enabled(w, Reset(to)) && Enabled(w, Destroy(to)) && Enabled(w, Default(other))
      && var moved, reset, gone := Next(w, MoveAssign(from, to)), Next(w, Reset(to)), Next(w, Destroy(to));
      && (from == to ==> moved == w)
      && (from != to ==>
           && moved.guards == w.guards[from := 0][to := w.guards[from]]
           && (w.guards[to] != 0 ==> !IsRegistered(moved, w.guards[to])))
      && reset.guards == w.guards[to := 0] && (w.guards[to] != 0 ==> !IsRegistered(reset, w.guards[to]))
      && gone.guards == w.guards - {to} && (w.guards[to] != 0 ==> !IsRegistered(gone, w.guards[to]))
      && Next(w, MoveConstruct(from, other)) == w.(guards := w.guards[from := 0][other := w.guards[from]])
      && Next(w, Default(other)) == w.(guards := w.guards[other := 0])
  {
    hide Run, EnabledRun, Live;
    var w := Run(NEW_WORLD, steps);
    if w.guards[to] == 0 {
      assert w.guards[to := 0] == w.guards;
    } else {
      ResetEnds(w, to);
    }
  }

  lemma ResetEnds(w: World, g: nat)
    requires g in w.guards && w.guards[g] != 0
    ensures !IsRegistered(AfterReset(w, g), w.guards[g])
  {
    var r := AfterReset(w, g);
    forall e, i | e in r.reg.lists && 0 <= i < |r.reg.lists[e]| ensures r.reg.lists[e][i].id != w.guards[g] {
      assert r.reg.lists[e][i] in Removed(w.reg.lists[e], w.guards[g]);
    }
  }

  // ---------- what a publish calls ----------

  /** A live guard holds `id`. */
  predicate Held(w: World, id: nat) {
    id != 0 && exists g :: g in w.guards && w.guards[g] == id
  }

  /**
   * After every run, what a publish calls are the handlers given to the subscriptions of that
   * event type whose id a live guard holds, each once, in the order of the subscriptions.
   */
  lemma PublishCallsLive(steps: seq<Step>, event: nat, called: seq<nat>) returns (at: seq<nat>)
    requires EnabledRun(NEW_WORLD, steps)
    requires var list := Run(NEW_WORLD, steps).reg.List(event);
      |called| == |list| && forall i :: 0 <= i < |list| ==> called[i] == list[i].handler
    ensures var w := Run(NEW_WORLD, steps);
      && |at| == |called|
      && (forall i, j :: 0 <= i < j < |at| ==> at[i] < at[j])
      && (forall i :: 0 <= i < |at| ==>
           at[i] < |w.history| && w.history[at[i]].event == event && called[i] == w.history[at[i]].sub.handler)
      && (forall k :: 0 <= k < |w.history| ==>
           (k in at <==> w.history[k].event == event && Held(w, w.history[k].sub.id)))
  {
    hide Live, Run, EnabledRun, Next;
    NewWorldInv();
    RunKeepsInv(NEW_WORLD, steps);
    var w := Run(NEW_WORLD, steps);
    assert w.reg.List(event) == Live(w.history, event, Ids(w.guards));
    at := LivePositions(w.history, event, Ids(w.guards));
    forall k | 0 <= k < |w.history|
      ensures w.history[k].sub.id in Ids(w.guards) <==> Held(w, w.history[k].sub.id)
    {
    }
  }

  lemma HistoryStep(w: World, s: Step)
    requires Numbered(w) && Enabled(w, s)
    ensures Numbered(Next(w, s))
    ensures Next(w, s).history == w.history
      + if s.Subscribe? then [Entry(s.event, Subscription(|w.history| + 1, s.handler))] else []
  {
  }

  /** The history is the subscriptions asked for, in order, with ids 1, 2, 3 and so on. */
  lemma {:induction false} HistoryIsSubscriptions(w: World, steps: seq<Step>)
    requires Numbered(w) && EnabledRun(w, steps)
    ensures var h, asked := Run(w, steps).history, Asked(steps);
      && w.history <= h && |h| == |w.history| + |asked|
      && forall k :: |w.history| <= k < |h| ==>
           h[k] == Entry(asked[k - |w.history|].0, Subscription(k + 1, asked[k - |w.history|].1))
    decreases |steps|
  {
    if steps != [] {
      hide Next, Enabled, Numbered;
      HistoryStep(w, steps[0]);
      HistoryIsSubscriptions(Next(w, steps[0]), steps[1..]);
    }
  }

  /** Event type and handler of every subscription. */
  function Asked(steps: seq<Step>): seq<(nat, nat)> {
    if steps == [] then []
    else (if steps[0].Subscribe? then [(steps[0].event, steps[0].handler)] else []) + Asked(steps[1..])
  }

  // ---------- the classes ----------

  class EventDispatcher {
    var subscribers: map<nat, seq<Subscription>>
    var nextId: nat

    ghost function Abs(): Registry
      reads this
    {
      Registry(nextId, subscribers)
    }

    constructor ()
      ensures Abs() == NEW_WORLD.reg
    {
      subscribers, nextId := map[], 0;
    }

    method Subscribe(event: nat, handler: nat) returns (guard: SubscriptionGuard)
      requires nextId + 1 < TWO_64
      modifies this
      ensures Abs() == Subscribed(old(Abs()), event, handler)
      ensures Abs().List(event) == old(Abs().List(event)) + [Subscription(old(nextId) + 1, handler)]
      ensures forall e :: e != event ==> Abs().List(e) == old(Abs().List(e))
      ensures fresh(guard) && guard.dispatcher == this && guard.id == old(nextId) + 1
    {
      if event !in subscribers {
        subscribers := subscribers[event := []];
      }
      nextId := nextId + 1;
      subscribers := subscribers[event := subscribers[event] + [Subscription(nextId, handler)]];
      guard := new SubscriptionGuard(this, nextId);
    }

    /** `std::erase_if` on one list. */
    static method Remove(list: seq<Subscription>, id: nat) returns (kept: seq<Subscription>)
      ensures kept == Removed(list, id)
    {
      kept := [];
      for i := 0 to |list|
        invariant kept == Removed(list[..i], id)
      {
        assert list[..i + 1][..i] == list[..i];
        if list[i].id != id {
          kept := kept + [list[i]];
        }
      }
      assert list[..|list|] == list;
    }

    /** The loop of `unsubscribe`. */
    method EraseEverywhere(id: nat)
      modifies this
      ensures Abs() == Unsubscribed(old(Abs()), id)
    {
      hide Removed;
      ghost var was := subscribers;
      var left := subscribers.Keys;
      while left != {}
        invariant nextId == old(nextId)
        invariant subscribers.Keys == was.Keys && left <= was.Keys
        invariant forall e :: e in was ==> subscribers[e] == if e in left then was[e] else Removed(was[e], id)
        decreases |left|
      {
        var e :| e in left;
        var kept := Remove(subscribers[e], id);
        subscribers := subscribers[e := kept];
        left := left - {e};
      }
    }

    /** The subscriptions with that id are gone from every list, and no others. */
    method Unsubscribe(id: nat)
      modifies this
      ensures Abs() == Unsubscribed(old(Abs()), id) && nextId == old(nextId)
      ensures forall e, x :: x in Abs().List(e) <==> x in old(Abs().List(e)) && x.id != id
    {
      ghost var was := Abs();
      EraseEverywhere(id);
      forall e ensures forall x :: x in Abs().List(e) <==> x in was.List(e) && x.id != id {
        UnsubscribedMembers(was, e, id);
      }
    }

    /** Calls the handlers of the event type; `called` lists them in the order of the calls. */
    method Publish(event: nat) returns (called: seq<nat>)
      ensures |called| == |Abs().List(event)|
      ensures forall i :: 0 <= i < |called| ==> called[i] == Abs().List(event)[i].handler
    {
      called := [];
      if event !in subscribers {
        return;
      }
      var list := subscribers[event];
      for i := 0 to |list|
        invariant |called| == i && forall k :: 0 <= k < i ==> called[k] == list[k].handler
      {
        called := called + [list[i].handler];
      }
    }
  }

  class SubscriptionGuard {
    var dispatcher: EventDispatcher?
    var id: nat

    constructor (dispatcher: EventDispatcher, id: nat)
      ensures this.dispatcher == dispatcher && this.id == id
    {
      this.dispatcher, this.id := dispatcher, id;
    }

    constructor Empty()
      ensures dispatcher == null && id == 0
    {
      dispatcher, id := null, 0;
    }

    constructor MoveFrom(other: SubscriptionGuard)
      modifies other
      ensures dispatcher == old(other.dispatcher) && id == old(other.id)
      ensures other.dispatcher == null && other.id == 0
    {
      dispatcher, id := other.dispatcher, other.id;
      new;
      other.dispatcher, other.id := null, 0;
    }

    method MoveAssign(other: SubscriptionGuard)
      modifies this, other, if dispatcher != null then {dispatcher} else {}
      ensures other == this ==> dispatcher == old(dispatcher) && id == old(id)
      ensures other != this ==> dispatcher == old(other.dispatcher) && id == old(other.id)
      ensures other != this ==> other.dispatcher == null && other.id == 0
      ensures old(dispatcher) != null && other != this && old(id) != 0
        ==> old(dispatcher).Abs() == Unsubscribed(old(dispatcher.Abs()), old(id))
      ensures old(dispatcher) != null && (other == this || old(id) == 0)
        ==> old(dispatcher).Abs() == old(dispatcher.Abs())
    {
      if this != other {
        Release();
        dispatcher := other.dispatcher;
        id := other.id;
        other.dispatcher := null;
        other.id := 0;
      }
    }

    /** `reset`, and what the destructor does. */
    method Release()
      modifies this, if dispatcher != null then {dispatcher} else {}
      ensures old(dispatcher) != null && old(id) != 0 ==>
        && old(dispatcher).Abs() == Unsubscribed(old(dispatcher.Abs()), old(id))
        && dispatcher == null && id == 0
      ensures !(old(dispatcher) != null && old(id) != 0) ==>
        && dispatcher == old(dispatcher) && id == old(id)
        && (dispatcher != null ==> dispatcher.Abs() == old(dispatcher.Abs()))
    {
      if dispatcher != null && id != 0 {
        dispatcher.Unsubscribe(id);
        dispatcher := null;
        id := 0;
      }
    }
  }
}
