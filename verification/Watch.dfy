/** The etcd watch cache: a watcher that loads snapshots and streams changes
  * (deps/etcd/etcd_watcher.go), the in-order forwarding that skips error
  * responses (deps/service_mgr/watcher.go), and the handler that keeps the
  * service store and drives the callbacks (deps/service_mgr/service_mgr.go).
  *
  * One service name is followed; its keys are the instance ids, and every
  * stored value decodes to an instance with the id of its key. */
module Watch {
  import opened Basics
  import S = ServiceStore

  // ---------------------------------------------------------------------
  // The handler

  datatype Event = Present(id: int, inst: Option<S.Spec>) | Gone(id: int)   // SNAPSHOT and PUT; DELETE

  datatype Callback = Online(id: int, spec: S.Spec) | Update(id: int, spec: S.Spec) | Offline(id: int, spec: S.Spec)

  datatype View = View(store: map<int, S.Spec>, calls: seq<Callback>)

  function Handle(v: View, e: Event): View {
    match e
    case Present(id, None) => v
    case Present(id, Some(spec)) =>
      var calls := if id !in v.store then [Online(id, spec)]
                   else if v.store[id] == spec then [] else [Update(id, spec)];
      View(v.store[id := spec], v.calls + calls)
    case Gone(id) =>
      if id in v.store then View(v.store - {id}, v.calls + [Offline(id, v.store[id])]) else v
  }

  function HandleAll(v: View, events: seq<Event>): View {
    if events == [] then v else Handle(HandleAll(v, events[..|events| - 1]), events[|events| - 1])
  }

  lemma {:induction false} HandleAllJoin(v: View, a: seq<Event>, b: seq<Event>)
    ensures HandleAll(v, a + b) == HandleAll(HandleAll(v, a), b)
  {
    if b == [] {
      assert a + b == a;
    } else {
      assert (a + b)[..|a + b| - 1] == a + b[..|b| - 1];
      HandleAllJoin(v, a, b[..|b| - 1]);
    }
  }

  /** What a listener that only sees the callbacks believes. */
  function Mirror(calls: seq<Callback>): map<int, S.Spec> {
    if calls == [] then map[]
    else
      var m := Mirror(calls[..|calls| - 1]);
      match calls[|calls| - 1]
      case Online(id, spec) => m[id := spec]
      case Update(id, spec) => m[id := spec]
      case Offline(id, spec) => m - {id}
  }

  /** A callback fits what a listener knows: online when absent, update with a
    * different value and offline with the known value when present. */
  predicate Fits(known: map<int, S.Spec>, c: Callback) {
    match c
    case Online(id, spec) => id !in known
    case Update(id, spec) => id in known && known[id] != spec
    case Offline(id, spec) => id in known && known[id] == spec
  }

  /** Every callback fits the ones before it. */
  ghost predicate Protocol(calls: seq<Callback>) {
    calls == [] || (
      && Protocol(calls[..|calls| - 1])
      && Fits(Mirror(calls[..|calls| - 1]), calls[|calls| - 1]))
  }

  /** One more callback that fits. */
  lemma MirrorNext(calls: seq<Callback>, c: Callback)
    requires Protocol(calls) && Fits(Mirror(calls), c)
    ensures Protocol(calls + [c])
    ensures Mirror(calls + [c]) == if c.Offline? then Mirror(calls) - {c.id} else Mirror(calls)[c.id := c.spec]
  {
    assert (calls + [c])[..|calls|] == calls;
  }

  lemma HandleMirrors(v: View, e: Event)
    requires Mirror(v.calls) == v.store && Protocol(v.calls)
    ensures var t := Handle(v, e); Mirror(t.calls) == t.store && Protocol(t.calls)
  {
    match e
    case Present(id, None) =>
    case Present(id, Some(spec)) =>
      if id !in v.store {
        MirrorNext(v.calls, Online(id, spec));
      } else if v.store[id] != spec {
        MirrorNext(v.calls, Update(id, spec));
      } else {
        SameMap(v.store[id := spec], v.store);
        assert v.calls + [] == v.calls;
      }
    case Gone(id) =>
      if id in v.store { MirrorNext(v.calls, Offline(id, v.store[id])); }
  }

  /** For any events at all, a listener's view is the store, and each instance's
    * callbacks follow (online update* offline)*. */
  lemma {:induction false} CallbacksMirrorStore(events: seq<Event>)
    ensures var v := HandleAll(View(map[], []), events); Mirror(v.calls) == v.store && Protocol(v.calls)
  {
    if events != [] {
      CallbacksMirrorStore(events[..|events| - 1]);
      HandleMirrors(HandleAll(View(map[], []), events[..|events| - 1]), events[|events| - 1]);
    }
  }

  datatype Phase = Absent | Running | Broken

  /** The automaton of (online update* offline)* for one instance. */
  function Track(calls: seq<Callback>, id: int): Phase {
    if calls == [] then Absent
    else
      var p := Track(calls[..|calls| - 1], id);
      var c := calls[|calls| - 1];
      if c.id != id then p
      else if c.Online? && p == Absent then Running
      else if c.Update? && p == Running then Running
      else if c.Offline? && p == Running then Absent
      else Broken
  }

  lemma {:induction false} ProtocolIsTracked(calls: seq<Callback>, id: int)
    requires Protocol(calls)
    ensures Track(calls, id) == if id in Mirror(calls) then Running else Absent
  {
    if calls != [] { ProtocolIsTracked(calls[..|calls| - 1], id); }
  }

  // ---------------------------------------------------------------------
  // The handler as it runs on the service store

  class Manager {
    const hashFunc: string -> nat
    const virtualKey: (int, nat) -> string
    const listening: bool      // a spec is registered for the service
    const hasHandler: bool
    var service: S.Service?
    var calls: seq<Callback>

    ghost predicate Valid()
      reads this, service, if service != null then {service.chash} + service.published.Keys else {}
    {
      service != null ==> service.Valid() && forall id :: id in service.Store() ==> service.Store()[id].instanceId == id
    }

    ghost function Cache(): map<int, S.Spec>
      reads this, service, if service != null then {service.chash} + service.published.Keys else {}
      requires Valid()
    {
      if service == null then map[] else Specs(service.Store())
    }

    constructor (hashFunc: string -> nat, virtualKey: (int, nat) -> string, listening: bool, hasHandler: bool)
      ensures Valid() && Cache() == map[] && calls == []
    {
      this.hashFunc, this.virtualKey, this.listening, this.hasHandler := hashFunc, virtualKey, listening, hasHandler;
      service, calls := null, [];
    }

    method EnsureService()
      requires Valid()
      modifies this`service
      ensures Valid() && service != null && Cache() == old(Cache())
      ensures if old(service) != null then service == old(service) else fresh(service) && fresh(service.chash)
    {
      if service == null {
        service := new S.Service(hashFunc, virtualKey);
      }
    }

    /** A snapshot or put event: `inst` is null when the value did not decode.
      * Without a service nothing happens. */
    method PutInstance(inst: S.ServiceInstance?) returns (online: S.ServiceInstance?, update: S.ServiceInstance?)
      requires Valid()
      modifies service, if service != null then {service.chash} else {}
      modifies if inst != null then {inst} else {}
      ensures Valid()
      ensures inst == null || service == null ==> Cache() == old(Cache()) && online == null && update == null
      ensures inst != null && service != null ==>
                && Cache() == old(Cache())[inst.instanceId := inst.spec]
                && online == (if inst.instanceId in old(Cache()) then null else inst)
                && update == if inst.instanceId in old(Cache()) && old(Cache())[inst.instanceId] != inst.spec then inst
                             else null
    {
      online, update := null, null;
      if inst == null { return; }
      if service == null { return; }
      var prev, exists_ := Keep(inst);
      if !exists_ || prev == null { online := inst; return; }
      if inst.Equal(prev) { return; }
      update := inst;
    }

    method Keep(inst: S.ServiceInstance) returns (prev: S.ServiceInstance?, replaced: bool)
      requires Valid() && service != null
      modifies service, service.chash, inst
      ensures Valid() && Cache() == old(Cache())[inst.instanceId := inst.spec]
      ensures replaced == (inst.instanceId in old(Cache())) && (prev == null <==> !replaced)
      ensures replaced ==> prev.instanceId == inst.instanceId && prev.spec == old(Cache())[inst.instanceId]
    {
      SpecsSet(service.Store(), inst);
      prev, replaced := service.SetInstance(inst);
    }

    method DeleteInstance(id: int) returns (offline: S.ServiceInstance?)
      requires Valid()
      modifies service, if service != null then {service.chash} else {}
      ensures Valid() && Cache() == old(Cache()) - {id}
      ensures if id in old(Cache()) then
                offline != null && offline.instanceId == id && offline.spec == old(Cache())[id]
              else
                offline == null
    {
      if service == null { return null; }
      SpecsLess(service.Store(), id);
      offline := service.RemoveInstance(id);
    }

    /** updateServiceState: what the event does to the store, and which one of
      * the three callbacks it calls for. */
    method UpdateServiceState(deleted: bool, id: int, inst: S.ServiceInstance?)
      returns (online: S.ServiceInstance?, offline: S.ServiceInstance?, update: S.ServiceInstance?)
      requires Valid()
      modifies service, if service != null then {service.chash} else {}
      modifies if inst != null then {inst} else {}
      ensures Valid()
      ensures View(Cache(), Called(online, offline, update)) ==
              if deleted || service != null then Handle(View(old(Cache()), []), EventOf(deleted, id, inst))
              else View(old(Cache()), [])
    {
      HandlesUpdate(Cache(), [], deleted, id, inst);
      online, offline, update := null, null, null;
      if deleted {
        offline := DeleteInstance(id);
        assert Called(null, offline, null) == DeleteCalls(old(Cache()), id);
      } else {
        online, update := PutInstance(inst);
        assert service != null ==> Called(online, null, update) == PutCalls(old(Cache()), inst);
      }
    }

    /** updateAndTriggerInstance: one event, seen through `Handle`. */
    method UpdateAndTriggerInstance(deleted: bool, id: int, inst: S.ServiceInstance?)
      requires Valid()
      modifies this`service, this`calls, service, if service != null then {service.chash} else {}
      modifies if inst != null then {inst} else {}
      ensures Valid()
      ensures var v := Handle(old(View(Cache(), calls)), EventOf(deleted, id, inst));
              && Cache() == (if listening then v.store else old(Cache()))
              && calls == (if listening && hasHandler then v.calls else old(calls))
      ensures listening && deleted ==> Cache() == old(Cache()) - {id}
      ensures listening && !deleted && inst != null ==> Cache() == old(Cache())[inst.instanceId := inst.spec]
      ensures listening && hasHandler ==>
                calls == old(calls) + if deleted then DeleteCalls(old(Cache()), id) else PutCalls(old(Cache()), inst)
    {
      HandlesUpdate(Cache(), calls, deleted, id, inst);
      if !listening { return; }
      if !deleted { EnsureService(); }
      Process(deleted, id, inst);
    }

    /** One event of a service that is followed. */
    method Process(deleted: bool, id: int, inst: S.ServiceInstance?)
      requires Valid() && (deleted || service != null)
      modifies this`calls, service, if service != null then {service.chash} else {}
      modifies if inst != null then {inst} else {}
      ensures Valid()
      ensures var v := Handle(old(View(Cache(), calls)), EventOf(deleted, id, inst));
              Cache() == v.store && calls == if hasHandler then v.calls else old(calls)
    {
      HandleFrom(Cache(), calls, EventOf(deleted, id, inst));
      var online, offline, update := UpdateServiceState(deleted, id, inst);
      if hasHandler { Trigger(online, offline, update); }
    }

    method Trigger(online: S.ServiceInstance?, offline: S.ServiceInstance?, update: S.ServiceInstance?)
      modifies this`calls
      ensures calls == old(calls) + Called(online, offline, update)
    {
      if online != null { calls := calls + [Online(online.instanceId, online.spec)]; }
      if offline != null { calls := calls + [Offline(offline.instanceId, offline.spec)]; }
      if update != null { calls := calls + [Update(update.instanceId, update.spec)]; }
    }
  }

  /** What the stored instances say. */
  ghost function Specs(m: map<int, S.ServiceInstance>): (specs: map<int, S.Spec>)
    ensures specs.Keys == m.Keys
  {
    map id | id in m :: m[id].spec
  }

  lemma SpecsSet(m: map<int, S.ServiceInstance>, inst: S.ServiceInstance)
    ensures Specs(m[inst.instanceId := inst]) == Specs(m)[inst.instanceId := inst.spec]
  {
  }

  lemma SpecsLess(m: map<int, S.ServiceInstance>, id: int)
    ensures Specs(m - {id}) == Specs(m) - {id}
  {
  }

  function Called(online: S.ServiceInstance?, offline: S.ServiceInstance?, update: S.ServiceInstance?): seq<Callback> {
    (if online != null then [Online(online.instanceId, online.spec)] else [])
    + (if offline != null then [Offline(offline.instanceId, offline.spec)] else [])
    + (if update != null then [Update(update.instanceId, update.spec)] else [])
  }

  /** A delete of something known takes it offline. */
  ghost function DeleteCalls(store: map<int, S.Spec>, id: int): seq<Callback> {
    if id in store then [Offline(id, store[id])] else []
  }

  /** A put brings what was not known online, and updates what has changed. */
  ghost function PutCalls(store: map<int, S.Spec>, inst: S.ServiceInstance?): seq<Callback> {
    if inst == null then []
    else if inst.instanceId !in store then [Online(inst.instanceId, inst.spec)]
    else if store[inst.instanceId] != inst.spec then [Update(inst.instanceId, inst.spec)]
    else []
  }

  lemma HandlesUpdate(store: map<int, S.Spec>, calls: seq<Callback>, deleted: bool, id: int, inst: S.ServiceInstance?)
    ensures var v := Handle(View(store, calls), EventOf(deleted, id, inst));
            && v.calls == calls + (if deleted then DeleteCalls(store, id) else PutCalls(store, inst))
            && (deleted ==> v.store == store - {id})
            && (!deleted && inst != null ==> v.store == store[inst.instanceId := inst.spec])
  {
    if deleted && id !in store { SameMap(store - {id}, store); }
  }

  lemma HandleFrom(store: map<int, S.Spec>, calls: seq<Callback>, e: Event)
    ensures var v := Handle(View(store, []), e); Handle(View(store, calls), e) == View(v.store, calls + v.calls)
  {
  }

  function EventOf(deleted: bool, id: int, inst: S.ServiceInstance?): Event {
    if deleted then Gone(id) else if inst == null then Present(id, None) else Present(inst.instanceId, Some(inst.spec))
  }

  // ---------------------------------------------------------------------
  // etcd: a log of changes, each one revision

  datatype Change = Put(id: int, spec: S.Spec) | Delete(id: int)

  /** The keys and values as of a revision. */
  function State(log: seq<Change>, rev: nat): map<int, S.Spec>
    requires rev <= |log|
  {
    if rev == 0 then map[]
    else
      match log[rev - 1]
      case Put(id, spec) => State(log, rev - 1)[id := spec]
      case Delete(id) => State(log, rev - 1) - {id}
  }

  lemma {:induction false} StateOfPrefix(log: seq<Change>, more: seq<Change>, rev: nat)
    requires rev <= |log|
    ensures State(log + more, rev) == State(log, rev)
  {
    if rev > 0 { StateOfPrefix(log, more, rev - 1); }
  }

  // ---------------------------------------------------------------------
  // What a watcher delivers

  /** A snapshot at a revision, its keys in some order; or one streamed change. */
  datatype Delivery = Reload(rev: nat, order: seq<int>) | Follow(pos: nat)

  function Position(h: seq<Delivery>): nat {
    if h == [] then 0
    else match h[|h| - 1]
         case Reload(rev, order) => rev
         case Follow(pos) => pos + 1
  }

  ghost predicate Continues(log: seq<Change>, h: seq<Delivery>, d: Delivery) {
    match d
    case Reload(rev, order) =>
      && Position(h) <= rev <= |log|
      && (forall i, j :: 0 <= i < j < |order| ==> order[i] != order[j])
      && (forall id :: id in order <==> id in State(log, rev))
    case Follow(pos) => h != [] && pos == Position(h) < |log|
  }

  /** Snapshots never go back, and changes are followed without a hole. */
  ghost predicate IsHistory(log: seq<Change>, h: seq<Delivery>) {
    h == [] || (IsHistory(log, h[..|h| - 1]) && Continues(log, h[..|h| - 1], h[|h| - 1]))
  }

  function EventsOf(log: seq<Change>, d: Delivery): seq<Event> {
    match d
    case Reload(rev, order) =>
      if rev > |log| then []
      else seq(|order|, i requires 0 <= i < |order| =>
             Present(order[i], if order[i] in State(log, rev) then Some(State(log, rev)[order[i]]) else None))
    case Follow(pos) =>
      if pos >= |log| then []
      else match log[pos]
           case Put(id, spec) => [Present(id, Some(spec))]
           case Delete(id) => [Gone(id)]
  }

  function AllEvents(log: seq<Change>, h: seq<Delivery>): seq<Event> {
    if h == [] then [] else AllEvents(log, h[..|h| - 1]) + EventsOf(log, h[|h| - 1])
  }

  /** The store the deliveries lead to: a snapshot is laid over what was there
    * and takes nothing away. */
  function Replay(log: seq<Change>, h: seq<Delivery>): map<int, S.Spec> {
    if h == [] then map[]
    else
      var m := Replay(log, h[..|h| - 1]);
      match h[|h| - 1]
      case Reload(rev, order) => if rev <= |log| then m + State(log, rev) else m
      case Follow(pos) =>
        if pos >= |log| then m
        else match log[pos]
             case Put(id, spec) => m[id := spec]
             case Delete(id) => m - {id}
  }

  /** Handling a prefix of a snapshot's events. */
  lemma {:induction false} HandleSnapshot(v: View, log: seq<Change>, rev: nat, order: seq<int>, k: nat)
    requires rev <= |log| && k <= |order| && forall id :: id in order ==> id in State(log, rev)
    ensures var w := HandleAll(v, EventsOf(log, Reload(rev, order))[..k]);
            && (forall id :: id in w.store <==> id in v.store || id in order[..k])
            && forall id :: id in w.store ==>
                 w.store[id] == if id in order[..k] then State(log, rev)[id] else v.store[id]
  {
    var events := EventsOf(log, Reload(rev, order));
    if k > 0 {
      HandleSnapshot(v, log, rev, order, k - 1);
      assert events[..k][..k - 1] == events[..k - 1];
      assert order[..k] == order[..k - 1] + [order[k - 1]];
    }
  }

  lemma HandleReload(v: View, log: seq<Change>, h: seq<Delivery>, d: Delivery)
    requires d.Reload? && Continues(log, h, d) && v.store == Replay(log, h)
    ensures HandleAll(v, EventsOf(log, d)).store == Replay(log, h + [d])
  {
    assert (h + [d])[..|h|] == h;
    HandleSnapshot(v, log, d.rev, d.order, |d.order|);
    assert EventsOf(log, d)[..|d.order|] == EventsOf(log, d) && d.order[..|d.order|] == d.order;
    var w, m := HandleAll(v, EventsOf(log, d)).store, State(log, d.rev);
    assert Replay(log, h + [d]) == v.store + m;
    forall id ensures id in w.Keys <==> id in v.store.Keys + m.Keys {
      assert id in d.order[..|d.order|] <==> id in m;
    }
    SameMap(w, v.store + m);
  }

  lemma HandleFollow(v: View, log: seq<Change>, h: seq<Delivery>, d: Delivery)
    requires d.Follow? && d.pos < |log| && v.store == Replay(log, h)
    ensures HandleAll(v, EventsOf(log, d)).store == Replay(log, h + [d])
  {
    assert (h + [d])[..|h|] == h;
    var e := EventsOf(log, d)[0];
    assert EventsOf(log, d) == [e] && [e][..0] == [];
    assert HandleAll(v, [e]) == Handle(v, e);
    if e.Gone? {
      assert Replay(log, h + [d]) == v.store - {e.id};
      SameMap(Handle(v, e).store, v.store - {e.id});
    }
  }

  lemma HandleDelivery(v: View, log: seq<Change>, h: seq<Delivery>, d: Delivery)
    requires Continues(log, h, d) && v.store == Replay(log, h)
    ensures HandleAll(v, EventsOf(log, d)).store == Replay(log, h + [d])
  {
    if d.Reload? { HandleReload(v, log, h, d); } else { HandleFollow(v, log, h, d); }
  }

  lemma AllEventsStep(log: seq<Change>, h: seq<Delivery>, d: Delivery)
    ensures AllEvents(log, h + [d]) == AllEvents(log, h) + EventsOf(log, d)
  {
    assert (h + [d])[..|h|] == h;
  }

  /** Once everything delivered has been handled, the store is the replay. */
  lemma {:induction false} StoreIsReplay(log: seq<Change>, h: seq<Delivery>)
    requires IsHistory(log, h)
    ensures HandleAll(View(map[], []), AllEvents(log, h)).store == Replay(log, h)
  {
    if h != [] {
      var front, d, none := h[..|h| - 1], h[|h| - 1], View(map[], []);
      assert h == front + [d];
      StoreIsReplay(log, front);
      AllEventsStep(log, front, d);
      HandleAllJoin(none, AllEvents(log, front), EventsOf(log, d));
      HandleDelivery(HandleAll(none, AllEvents(log, front)), log, front, d);
    }
  }

  /** Every key that is live at the last revision handled is in the store with
    * its current value, restarts or not. */
  lemma {:induction false} LiveKeysCurrent(log: seq<Change>, h: seq<Delivery>, id: int)
    requires IsHistory(log, h)
    ensures Position(h) <= |log|
    ensures id in State(log, Position(h)) ==> id in Replay(log, h) && Replay(log, h)[id] == State(log, Position(h))[id]
  {
    if h != [] { LiveKeysCurrent(log, h[..|h| - 1], id); }
  }

  /** Without a restart the store is the etcd state at that revision. */
  lemma {:induction false} NoRestartExact(log: seq<Change>, h: seq<Delivery>)
    requires IsHistory(log, h) && forall i :: 0 < i < |h| ==> h[i].Follow?
    ensures Position(h) <= |log| && Replay(log, h) == State(log, Position(h))
  {
    if h != [] {
      var front := h[..|h| - 1];
      NoRestartExact(log, front);
      if |h| == 1 {
        assert front == [];
        SameMap(Replay(log, h), State(log, Position(h)));
      }
    }
  }

  /** Delivery i is a restart across whose gap the key was deleted. */
  ghost predicate LostIn(log: seq<Change>, h: seq<Delivery>, i: nat, id: int)
    requires i < |h| && IsHistory(log, h)
  {
    && h[i].Reload? && i > 0
    && Position(h[..i]) <= |log| && id in State(log, Position(h[..i]))
    && h[i].rev <= |log| && id !in State(log, h[i].rev)
  }

  /** Nothing delivered after i mentions the key. */
  ghost predicate SilentAfter(log: seq<Change>, h: seq<Delivery>, i: nat, id: int)
    requires i < |h|
  {
    forall k :: i < k < |h| ==> !Mentions(log, h[k], id)
  }

  ghost predicate Mentions(log: seq<Change>, d: Delivery, id: int) {
    match d
    case Reload(rev, order) => rev <= |log| && id in State(log, rev)
    case Follow(pos) => pos < |log| && log[pos].id == id
  }

  ghost predicate Orphaned(log: seq<Change>, h: seq<Delivery>, id: int)
    requires IsHistory(log, h)
  {
    exists i: nat :: i < |h| && LostIn(log, h, i, id) && SilentAfter(log, h, i, id)
  }

  lemma {:induction false} HistoryPrefix(log: seq<Change>, h: seq<Delivery>, i: nat)
    requires IsHistory(log, h) && i <= |h|
    ensures IsHistory(log, h[..i])
  {
    if i < |h| {
      HistoryPrefix(log, h[..|h| - 1], i);
      assert h[..|h| - 1][..i] == h[..i];
    } else {
      assert h[..i] == h;
    }
  }

  /** What the last delivery does to the orphans. */
  lemma OrphanStep(log: seq<Change>, h: seq<Delivery>, d: Delivery, id: int)
    requires IsHistory(log, h) && Continues(log, h, d)
    requires Position(h) <= |log|
    ensures IsHistory(log, h + [d])
    ensures Orphaned(log, h + [d], id) <==>
              if d.Reload? then
                id !in State(log, d.rev) && (Orphaned(log, h, id) || (h != [] && id in State(log, Position(h))))
              else Orphaned(log, h, id) && log[d.pos].id != id
  {
    var g := h + [d];
    assert g[..|h|] == h;
    forall i: nat | i < |h| ensures LostIn(log, g, i, id) <==> LostIn(log, h, i, id) {
      assert g[..i] == h[..i];
    }
    if Orphaned(log, g, id) {
      var i: nat :| i < |g| && LostIn(log, g, i, id) && SilentAfter(log, g, i, id);
      if i < |h| {
        assert g[|h|] == d;
        forall k | i < k < |h| ensures g[k] == h[k] { }
        assert SilentAfter(log, h, i, id);
      }
    }
    if i: nat :| i < |h| && LostIn(log, h, i, id) && SilentAfter(log, h, i, id) {
      if SilentAfter(log, g, i, id) { assert Orphaned(log, g, id); } else { assert g[|h|] == d; }
    }
    if h != [] && d.Reload? && id in State(log, Position(h)) && id !in State(log, d.rev) {
      assert LostIn(log, g, |h|, id) && SilentAfter(log, g, |h|, id);
    }
  }

  /** The keys the store holds beyond the etcd state are exactly those deleted
    * while the watch was down and not mentioned since. */
  lemma {:induction false} ExtrasAreOrphans(log: seq<Change>, h: seq<Delivery>, id: int)
    requires IsHistory(log, h)
    ensures Position(h) <= |log|
    ensures id in Replay(log, h) && id !in State(log, Position(h)) <==> Orphaned(log, h, id)
  {
    if h != [] {
      var front, d := h[..|h| - 1], h[|h| - 1];
      ExtrasAreOrphans(log, front, id);
      LiveKeysCurrent(log, front, id);
      OrphanStep(log, front, d, id);
      assert h == front + [d];
    }
  }
}
