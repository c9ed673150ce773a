/** Every run of the watch pipeline: etcd is written, the watcher loads
  * snapshots, streams batches and fails, responses are forwarded in order with
  * failures skipped, and events reach the handler one at a time. */
module WatchRun {
  import opened Basics
  import opened Watch
  import SS = ServiceStore

  datatype Response = Events(events: seq<Event>) | Failure

  datatype Watcher = Idle | Streaming(next: nat)

  datatype Sys = Sys(
    log: seq<Change>,
    watcher: Watcher,
    h: seq<Delivery>,            // what the watcher has sent
    responses: seq<Response>,    // sent and not yet forwarded
    out: seq<Event>,             // forwarded and not yet handled
    done: seq<Event>,            // handled
    view: View)

  datatype Step =
    | Write(change: Change)
    | LoadSnapshot(order: seq<int>)
    | StreamBatch(to: nat)
    | WatchFails
    | Forward
    | Deliver

  const START := View(map[], [])

  ghost predicate Initial(s: Sys) {
    s == Sys([], Idle, [], [], [], [], START)
  }

  function Batch(from: nat, to: nat): seq<Delivery>
    requires from <= to
  {
    if from == to then [] else Batch(from, to - 1) + [Follow(to - 1)]
  }

  ghost predicate Next(s: Sys, step: Step, t: Sys) {
    match step
    case Write(change) => t == s.(log := s.log + [change])
    case LoadSnapshot(order) =>
      var d := Reload(|s.log|, order);
      && s.watcher.Idle? && Continues(s.log, s.h, d)
      && t == s.(watcher := Streaming(|s.log|), h := s.h + [d], responses := s.responses + [Events(EventsOf(s.log, d))])
    case StreamBatch(to) =>
      && s.watcher.Streaming? && s.watcher.next < to <= |s.log|
      && var batch := Batch(s.watcher.next, to);
         t == s.(watcher := Streaming(to), h := s.h + batch,
                 responses := s.responses + [Events(AllEvents(s.log, batch))])
    case WatchFails => t == s.(watcher := Idle, responses := s.responses + [Failure])
    case Forward =>
      && s.responses != []
      && t == s.(responses := s.responses[1..], out := s.out + Carried(s.responses[0]))
    case Deliver =>
      && s.out != []
      && t == s.(out := s.out[1..], done := s.done + [s.out[0]], view := Handle(s.view, s.out[0]))
  }

  function Carried(r: Response): seq<Event> {
    if r.Failure? then [] else r.events
  }

  function InFlight(responses: seq<Response>): seq<Event> {
    if responses == [] then [] else Carried(responses[0]) + InFlight(responses[1..])
  }

  lemma {:induction false} InFlightAppend(responses: seq<Response>, r: Response)
    ensures InFlight(responses + [r]) == InFlight(responses) + Carried(r)
  {
    if responses == [] {
      assert [r][1..] == [] && InFlight([r]) == Carried(r) + [];
    } else {
      assert (responses + [r])[1..] == responses[1..] + [r];
      InFlightAppend(responses[1..], r);
    }
  }

  lemma Associative(a: seq<Event>, b: seq<Event>, c: seq<Event>)
    ensures a + b + c == a + (b + c)
  {
  }

  lemma {:induction false} AllEventsJoin(log: seq<Change>, g: seq<Delivery>, h: seq<Delivery>)
    ensures AllEvents(log, g + h) == AllEvents(log, g) + AllEvents(log, h)
  {
    if h == [] {
      assert g + h == g;
    } else {
      var front, d := h[..|h| - 1], h[|h| - 1];
      assert (g + h)[..|g + h| - 1] == g + front && (g + h)[|g + h| - 1] == d;
      AllEventsJoin(log, g, front);
      Associative(AllEvents(log, g), AllEvents(log, front), EventsOf(log, d));
    }
  }

  lemma FollowContinues(log: seq<Change>, h: seq<Delivery>, pos: nat)
    requires IsHistory(log, h) && h != [] && Position(h) == pos < |log|
    ensures IsHistory(log, h + [Follow(pos)]) && Position(h + [Follow(pos)]) == pos + 1
  {
    assert (h + [Follow(pos)])[..|h|] == h;
  }

  lemma {:induction false} BatchContinues(log: seq<Change>, h: seq<Delivery>, from: nat, to: nat)
    requires IsHistory(log, h) && h != [] && Position(h) == from <= to <= |log|
    ensures IsHistory(log, h + Batch(from, to)) && Position(h + Batch(from, to)) == to
  {
    if from == to {
      assert h + [] == h;
    } else {
      BatchContinues(log, h, from, to - 1);
      FollowContinues(log, h + Batch(from, to - 1), to - 1);
      assert h + Batch(from, to) == h + Batch(from, to - 1) + [Follow(to - 1)];
    }
  }

  /** What has been sent does not depend on what is written later. */
  lemma {:induction false} WriteKeepsHistory(log: seq<Change>, change: Change, h: seq<Delivery>)
    requires IsHistory(log, h)
    ensures Position(h) <= |log|
    ensures IsHistory(log + [change], h) && AllEvents(log + [change], h) == AllEvents(log, h)
  {
    if h != [] {
      WriteKeepsHistory(log, change, h[..|h| - 1]);
      match h[|h| - 1]
      case Reload(rev, order) => StateOfPrefix(log, [change], rev);
      case Follow(pos) =>
    }
  }

  ghost predicate Inv(s: Sys) {
    && IsHistory(s.log, s.h)
    && (s.watcher.Streaming? ==> s.h != [] && Position(s.h) == s.watcher.next)
    && AllEvents(s.log, s.h) == s.done + s.out + InFlight(s.responses)
    && s.view == HandleAll(START, s.done)
  }

  lemma InvInitial(s: Sys)
    requires Initial(s)
    ensures Inv(s)
  {
  }

  lemma Sent(log: seq<Change>, h: seq<Delivery>, more: seq<Delivery>, responses: seq<Response>, before: seq<Event>)
    requires AllEvents(log, h) == before + InFlight(responses)
    ensures AllEvents(log, h + more) == before + InFlight(responses + [Events(AllEvents(log, more))])
  {
    var sent := AllEvents(log, more);
    InFlightAppend(responses, Events(sent));
    AllEventsJoin(log, h, more);
    Associative(before, InFlight(responses), sent);
  }

  lemma InvLoads(s: Sys, order: seq<int>, t: Sys)
    requires Inv(s) && Next(s, LoadSnapshot(order), t)
    ensures Inv(t)
  {
    var d := Reload(|s.log|, order);
    assert (s.h + [d])[..|s.h|] == s.h;
    assert AllEvents(s.log, [d]) == EventsOf(s.log, d) by { assert [d][..0] == [] && AllEvents(s.log, []) == []; }
    Sent(s.log, s.h, [d], s.responses, s.done + s.out);
  }

  lemma InvStreams(s: Sys, to: nat, t: Sys)
    requires Inv(s) && Next(s, StreamBatch(to), t)
    ensures Inv(t)
  {
    var batch := Batch(s.watcher.next, to);
    BatchContinues(s.log, s.h, s.watcher.next, to);
    Sent(s.log, s.h, batch, s.responses, s.done + s.out);
  }

  lemma InvDelivers(s: Sys, t: Sys)
    requires Inv(s) && Next(s, Deliver, t)
    ensures Inv(t)
  {
    var e := s.out[0];
    assert s.done + s.out == s.done + [e] + s.out[1..];
    assert HandleAll(START, s.done + [e]) == Handle(s.view, e) by {
      assert (s.done + [e])[..|s.done|] == s.done;
    }
  }

  lemma InvForwards(s: Sys, t: Sys)
    requires Inv(s) && Next(s, Forward, t)
    ensures Inv(t)
  {
    var first, rest := Carried(s.responses[0]), InFlight(s.responses[1..]);
    assert s.done + s.out + (first + rest) == s.done + (s.out + first) + rest;
  }

  lemma InvStep(s: Sys, step: Step, t: Sys)
    requires Inv(s) && Next(s, step, t)
    ensures Inv(t)
  {
    match step {
      case Write(change) => WriteKeepsHistory(s.log, change, s.h);
      case Forward => InvForwards(s, t);
      case Deliver => InvDelivers(s, t);
      case LoadSnapshot(order) => InvLoads(s, order, t);
      case StreamBatch(to) => InvStreams(s, to, t);
      case WatchFails => InFlightAppend(s.responses, Failure);
    }
  }

  ghost predicate IsRun(run: seq<Sys>, steps: seq<Step>) {
    && |run| == |steps| + 1 && Initial(run[0])
    && forall i :: 0 <= i < |steps| ==> Next(run[i], steps[i], run[i + 1])
  }

  lemma {:induction false} EveryRun(run: seq<Sys>, steps: seq<Step>, n: nat)
    requires IsRun(run, steps) && n < |run|
    ensures Inv(run[n])
  {
    if n == 0 {
      InvInitial(run[0]);
    } else {
      EveryRun(run, steps, n - 1);
      assert Next(run[n - 1], steps[n - 1], run[n - 1 + 1]);
      InvStep(run[n - 1], steps[n - 1], run[n]);
    }
  }

  ghost predicate Restarted(h: seq<Delivery>) {
    exists i :: 0 < i < |h| && h[i].Reload?
  }

  /** In every run: the events handled are a prefix of those sent, and the
    * listener's picture is the store. */
  lemma ListenerSeesStore(run: seq<Sys>, steps: seq<Step>, n: nat, id: int)
    requires IsRun(run, steps) && n < |run|
    ensures run[n].done <= AllEvents(run[n].log, run[n].h)
    ensures Mirror(run[n].view.calls) == run[n].view.store
    ensures Track(run[n].view.calls, id) == if id in run[n].view.store then Running else Absent
  {
    EveryRun(run, steps, n);
    CallbacksMirrorStore(run[n].done);
    ProtocolIsTracked(run[n].view.calls, id);
  }

  /** In every run, when the first k deliveries have been handled, at revision
    * rev: every live key is stored with its current value; the only extras are
    * keys deleted in a gap; and without a restart the store is exact. */
  lemma StoreFollowsEtcd(run: seq<Sys>, steps: seq<Step>, n: nat, k: nat, id: int)
    requires IsRun(run, steps) && n < |run| && k <= |run[n].h|
    requires run[n].done == AllEvents(run[n].log, run[n].h[..k])
    ensures var s, h := run[n], run[n].h[..k];
            && IsHistory(s.log, h) && Position(h) <= |s.log|
            && (id in State(s.log, Position(h)) ==>
                 id in s.view.store && s.view.store[id] == State(s.log, Position(h))[id])
            && (id in s.view.store && id !in State(s.log, Position(h)) <==> Orphaned(s.log, h, id))
            && (!Restarted(h) ==> s.view.store == State(s.log, Position(h)))
  {
    EveryRun(run, steps, n);
    var s, h := run[n], run[n].h[..k];
    HistoryPrefix(s.log, s.h, k);
    StoreIsReplay(s.log, h);
    LiveKeysCurrent(s.log, h, id);
    ExtrasAreOrphans(s.log, h, id);
    if !Restarted(h) {
      forall i | 0 < i < |h| ensures h[i].Follow? { assert !h[i].Reload?; }
      NoRestartExact(s.log, h);
    }
  }

  /** When nothing is in flight everything sent has been handled. */
  lemma DrainedIsCaughtUp(run: seq<Sys>, steps: seq<Step>, n: nat)
    requires IsRun(run, steps) && n < |run| && run[n].responses == [] && run[n].out == []
    ensures run[n].done == AllEvents(run[n].log, run[n].h[..|run[n].h|])
  {
    EveryRun(run, steps, n);
    assert run[n].h[..|run[n].h|] == run[n].h;
  }

  /** In every run, once the watcher has streamed to the end of the log and nothing
    * is in flight, the store has every live key with its value, and beyond them
    * only orphans. */
  lemma CaughtUpIsCurrent(run: seq<Sys>, steps: seq<Step>, n: nat, id: int)
    requires IsRun(run, steps) && n < |run| && run[n].responses == [] && run[n].out == []
    requires run[n].watcher == Streaming(|run[n].log|)
    ensures var s := run[n];
            && IsHistory(s.log, s.h)
            && (id in State(s.log, |s.log|) ==> id in s.view.store && s.view.store[id] == State(s.log, |s.log|)[id])
            && (id in s.view.store && id !in State(s.log, |s.log|) <==> Orphaned(s.log, s.h, id))
            && (!Restarted(s.h) ==> s.view.store == State(s.log, |s.log|))
  {
    DrainedIsCaughtUp(run, steps, n);
    StoreFollowsEtcd(run, steps, n, |run[n].h|, id);
    EveryRun(run, steps, n);
    assert run[n].h[..|run[n].h|] == run[n].h;
  }

  /** In every run each step gets something done: a load or a batch takes the
    * watcher to where it says, forwarding takes the first response out of the way,
    * and a delivery handles the next event of those sent. */
  lemma StepsGetOn(run: seq<Sys>, steps: seq<Step>, i: nat)
    requires IsRun(run, steps) && i < |steps|
    ensures var s, t := run[i], run[i + 1];
            match steps[i]
            case LoadSnapshot(_) => t.watcher == Streaming(|s.log|) && Position(t.h) == |s.log|
            case StreamBatch(to) => t.watcher == Streaming(to) && Position(t.h) == to
            case Forward => s.responses != [] && t.responses == s.responses[1..]
            case Deliver =>
              && |s.done| < |AllEvents(s.log, s.h)|
              && t.done == s.done + [AllEvents(s.log, s.h)[|s.done|]] && t.view == HandleAll(START, t.done)
            case _ => true
  {
    EveryRun(run, steps, i);
    EveryRun(run, steps, i + 1);
    assert Next(run[i], steps[i], run[i + 1]);
  }

  ghost predicate Reachable(s: Sys) {
    exists run: seq<Sys>, steps: seq<Step> :: IsRun(run, steps) && run[|steps|] == s
  }

  lemma ReachesNext(s: Sys, step: Step, t: Sys)
    requires Reachable(s) && Next(s, step, t)
    ensures Reachable(t)
  {
    var run: seq<Sys>, steps: seq<Step> :| IsRun(run, steps) && run[|steps|] == s;
    var run', steps' := run + [t], steps + [step];
    forall i | 0 <= i < |steps'| ensures Next(run'[i], steps'[i], run'[i + 1]) {
      if i < |steps| { assert Next(run[i], steps[i], run[i + 1]); }
    }
    assert IsRun(run', steps') && run'[|steps'|] == t;
  }

  lemma ReachesStart()
    ensures Reachable(Sys([], Idle, [], [], [], [], START))
  {
    var run, steps: seq<Step> := [Sys([], Idle, [], [], [], [], START)], [];
    assert IsRun(run, steps) && run[|steps|] == run[0];
  }

  /** Key 7 is put, loaded and handled. */
  lemma SevenLoaded(spec: SS.Spec)
    ensures Reachable(Sys([Put(7, spec)], Streaming(1), [Reload(1, [7])], [Events([Present(7, Some(spec))])], [], [],
                          START))
  {
    var log, e, d := [Put(7, spec)], Present(7, Some(spec)), Reload(1, [7]);
    var s0 := Sys([], Idle, [], [], [], [], START);
    var s1 := s0.(log := log);
    ReachesStart();
    assert [] + log == log;
    ReachesNext(s0, Write(Put(7, spec)), s1);
    assert State(log, 1) == map[7 := spec] && EventsOf(log, d) == [e];
    assert s1.h + [d] == [d] && s1.responses + [Events([e])] == [Events([e])];
    assert Continues(log, [], d);
    ReachesNext(s1, LoadSnapshot([7]), s1.(watcher := Streaming(1), h := [d], responses := [Events([e])]));
  }

  lemma SevenSeen(spec: SS.Spec)
    ensures var e := Present(7, Some(spec));
            Reachable(Sys([Put(7, spec)], Streaming(1), [Reload(1, [7])], [], [], [e],
                          View(map[7 := spec], [Online(7, spec)])))
  {
    var e := Present(7, Some(spec));
    var s2 := Sys([Put(7, spec)], Streaming(1), [Reload(1, [7])], [Events([e])], [], [], START);
    SevenLoaded(spec);
    var s3 := s2.(responses := [], out := [e]);
    assert s2.responses[1..] == [] && s2.out + [e] == [e];
    ReachesNext(s2, Forward, s3);
    var s4 := s3.(out := [], done := [e], view := Handle(START, e));
    assert s3.out[1..] == [] && s3.done + [e] == [e];
    ReachesNext(s3, Deliver, s4);
    assert Handle(START, e) == View(map[7 := spec], [Online(7, spec)]);
  }

  lemma GapStates(spec: SS.Spec)
    ensures var log := [Put(7, spec), Delete(7)]; State(log, 1) == map[7 := spec] && State(log, 2) == map[]
  {
    var log := [Put(7, spec), Delete(7)];
    assert State(log, 0) == map[];
    assert State(log, 1) == State(log, 0)[7 := spec];
    assert State(log, 2) == State(log, 1) - {7};
  }

  /** The watch breaks, the key is deleted, and the next snapshot, handled, does
    * not mention it. */
  lemma SevenLost(spec: SS.Spec, e: Event, view: View)
    requires Reachable(Sys([Put(7, spec)], Streaming(1), [Reload(1, [7])], [], [], [e], view))
    ensures Reachable(Sys([Put(7, spec), Delete(7)], Streaming(2), [Reload(1, [7]), Reload(2, [])], [], [], [e], view))
  {
    var log, h := [Put(7, spec), Delete(7)], [Reload(1, [7]), Reload(2, [])];
    var s4 := Sys([Put(7, spec)], Streaming(1), [Reload(1, [7])], [], [], [e], view);
    var s5 := s4.(watcher := Idle, responses := [Failure]);
    assert s4.responses + [Failure] == [Failure];
    ReachesNext(s4, WatchFails, s5);
    var s6 := s5.(log := log);
    assert s4.log + [Delete(7)] == log;
    ReachesNext(s5, Write(Delete(7)), s6);
    GapStates(spec);
    assert EventsOf(log, Reload(2, [])) == [];
    var s7 := s6.(watcher := Streaming(2), h := h, responses := [Failure, Events([])]);
    assert s6.h + [Reload(2, [])] == h && s6.responses + [Events([])] == s7.responses;
    ReachesNext(s6, LoadSnapshot([]), s7);
    var s8 := s7.(responses := [Events([])]);
    assert s7.responses[1..] == s8.responses && s7.out + [] == [];
    ReachesNext(s7, Forward, s8);
    var s9 := s8.(responses := []);
    assert s8.responses[1..] == [] && s8.out + [] == [];
    ReachesNext(s8, Forward, s9);
  }

  /** A key deleted while the watch is down stays in the store: a run whose etcd
    * is empty at the end, everything sent handled, and the store not empty. */
  lemma DeleteInGapIsMissed(spec: SS.Spec)
    ensures exists s: Sys :: Reachable(s) && s.responses == [] && s.out == [] && State(s.log, |s.log|) == map[]
                          && Position(s.h) == |s.log| && s.view.store == map[7 := spec]
  {
    SevenSeen(spec);
    var e, view := Present(7, Some(spec)), View(map[7 := spec], [Online(7, spec)]);
    SevenLost(spec, e, view);
    var s := Sys([Put(7, spec), Delete(7)], Streaming(2), [Reload(1, [7]), Reload(2, [])], [], [], [e], view);
    GapStates(spec);
    assert Reachable(s) && Position(s.h) == |s.log|;
  }
}
