/** The client side of rpc calls (deps/rpc_mgr/rpc_mgr.go): a table of pending
  * calls that responses, send failures, the sweep, caller timeouts and Stop all
  * race to empty.
  *
  * What runs under the mutex is one step; what a goroutine still has to do
  * after unlocking is a duty, done in later steps. */
module Rpc {
  /** `handlerRuns`, `failedRuns` and `sent` count what has been called or put
    * on the channel; `dropped` counts answers thrown away as expired; `dead`
    * counts entries into the branches for a freed call and a full channel. */
  datatype Call = Call(
    blocking: bool,          // receiveCh is set, and handler is not
    hasHandler: bool,
    hasFailed: bool,
    expireAt: int,
    free: bool,
    left: nat,               // times removed from the table
    handlerRuns: nat,
    failedRuns: nat,
    sent: nat,
    received: nat,
    dropped: nat,
    dead: nat)

  datatype Duty = Respond(id: int) | Fail(id: int, notify: bool) | Notify(id: int)

  datatype StopPhase = NotStopped | Swapped | Cleared

  datatype Sys = Sys(
    table: set<int>,              // rpcm
    calls: map<int, Call>,        // every call ever put into it
    entering: map<int, Call>,     // past the first check, not yet inserted
    stopped: bool,
    stop: StopPhase,
    duties: multiset<Duty>,
    now: int)

  datatype Step =
    | Advance(now: int)
    | Begin(id: int, call: Call)
    | Insert(id: int)
    | Response(id: int)
    | SendFail(id: int)
    | Timeout(id: int)
    | Sweep(since: int, expired: set<int>)
    | StopSwap
    | StopLock
    | Receive(id: int)
    | Perform(duty: Duty)

  predicate Fresh(c: Call) {
    && !c.free && c.left == c.handlerRuns == c.failedRuns == c.sent == c.received == c.dropped == c.dead == 0
    && (c.blocking ==> !c.hasHandler)
  }

  /** removeRpcCall and its kin: take `ids` out of the table and leave a duty
    * behind for each. */
  function Removed(s: Sys, ids: set<int>, markFree: bool, duties: set<Duty>): Sys {
    s.(table := s.table - ids,
       calls := map id | id in s.calls ::
                  if id in ids then s.calls[id].(left := s.calls[id].left + 1, free := s.calls[id].free || markFree)
                  else s.calls[id],
       duties := s.duties + multiset(duties))
  }

  function RemoveOne(s: Sys, id: int, markFree: bool, duty: Duty): Sys {
    if id in s.table then Removed(s, {id}, markFree, {duty}) else s
  }

  /** notifyReceiveCh on a one-slot channel. */
  function Send(c: Call): Call {
    if !c.blocking then c
    else if c.sent > c.received then c.(dead := c.dead + 1)
    else c.(sent := c.sent + 1)
  }

  /** What performing a duty does to its call. */
  function Performed(c: Call, duty: Duty, now: int): Call {
    match duty
    case Respond(id) =>
      if c.expireAt < now then c.(dropped := c.dropped + 1)
      else if c.hasHandler then c.(handlerRuns := c.handlerRuns + 1)
      else if c.free then c.(dead := c.dead + 1)
      else Send(c)
    case Fail(id, notify) => if c.hasFailed then c.(failedRuns := c.failedRuns + 1) else c
    case Notify(id) => Send(c)
  }

  function Follow(duty: Duty): multiset<Duty> {
    if duty.Fail? && duty.notify then multiset{Notify(duty.id)} else multiset{}
  }

  ghost predicate Next(s: Sys, step: Step, t: Sys) {
    match step
    case Advance(now) => s.now <= now && t == s.(now := now)
    case Begin(id, call) =>
      // ids come from the id generator and are never reused
      && !s.stopped && id !in s.calls && id !in s.entering && Fresh(call)
      && t == s.(entering := s.entering[id := call])
    case Insert(id) =>
      && id in s.entering
      && var out := s.(entering := s.entering - {id});
         t == if s.stopped then out else out.(table := s.table + {id}, calls := s.calls[id := s.entering[id]])
    case Response(id) => t == RemoveOne(s, id, false, Respond(id))
    case SendFail(id) => id in s.calls && t == RemoveOne(s, id, true, Fail(id, true))
    case Timeout(id) => id in s.calls && s.calls[id].blocking && t == RemoveOne(s, id, true, Fail(id, false))
    case Sweep(since, expired) =>
      // the clock is read anew for each entry, from `since` to now
      && since <= s.now && expired <= s.table && s.table <= s.calls.Keys
      && (forall id :: id in s.table && s.calls[id].expireAt < since ==> id in expired)
      && (forall id :: id in expired ==> s.calls[id].expireAt < s.now)
      && t == Removed(s, expired, true, set id | id in expired :: Fail(id, false))
    case StopSwap => t == s.(stopped := true, stop := if s.stopped then s.stop else Swapped)
    case StopLock =>
      s.stop.Swapped? && t == Removed(s, s.table, true, set id | id in s.table :: Fail(id, true)).(stop := Cleared)
    case Receive(id) =>
      && id in s.calls && s.calls[id].sent > s.calls[id].received
      && t == s.(calls := s.calls[id := s.calls[id].(received := s.calls[id].received + 1)])
    case Perform(duty) =>
      && duty in s.duties && duty.id in s.calls
      && t == s.(duties := s.duties - multiset{duty} + Follow(duty),
                 calls := s.calls[duty.id := Performed(s.calls[duty.id], duty, s.now)])
  }

  // ---------------------------------------------------------------------

  /** Callbacks run or still to run for one call. */
  function CallbacksDue(duties: multiset<Duty>, id: int): nat {
    duties[Respond(id)] + duties[Fail(id, true)] + duties[Fail(id, false)]
  }

  /** Channel values still to come for one call. */
  function ValuesDue(duties: multiset<Duty>, id: int): nat {
    duties[Respond(id)] + duties[Fail(id, true)] + duties[Notify(id)]
  }

  /** The caller can be told of an answer, by its handler or its channel, and of
    * a failure. */
  predicate Answerable(c: Call) {
    (c.hasHandler || c.blocking) && c.hasFailed
  }

  /** One departure pays for everything a call ever gets. */
  ghost predicate Accounted(c: Call, id: int, inTable: bool, duties: multiset<Duty>) {
    && c.left == (if inTable then 0 else 1)
    && CallbacksDue(duties, id) + c.handlerRuns + c.failedRuns + c.dropped <= c.left
    && ValuesDue(duties, id) + c.sent + c.dropped <= c.left
    && (c.free ==> !inTable && duties[Respond(id)] == 0)
    && c.dead == 0 && (c.blocking ==> !c.hasHandler)
    && (Answerable(c) ==> CallbacksDue(duties, id) + c.handlerRuns + c.failedRuns + c.sent + c.dropped >= c.left)
  }

  ghost predicate Inv(s: Sys) {
    && s.table <= s.calls.Keys
    && (forall id :: id in s.calls ==> Accounted(s.calls[id], id, id in s.table, s.duties))
    && (forall id :: id in s.entering ==> id !in s.calls && Fresh(s.entering[id]))
    && (forall d :: d in s.duties ==> d.id in s.calls)
    && s.stopped == !s.stop.NotStopped?
    && (s.stop.Cleared? ==> s.table == {})
  }

  /** A call leaving the table, with one duty left behind for it. */
  lemma Departs(c: Call, id: int, duties: multiset<Duty>, left: multiset<Duty>, markFree: bool)
    requires Accounted(c, id, true, duties)
    requires CallbacksDue(left, id) == 1 && ValuesDue(left, id) <= 1 && (markFree ==> left[Respond(id)] == 0)
    ensures Accounted(c.(left := c.left + 1, free := c.free || markFree), id, false, duties + left)
  {
    MoreDue(duties, left, id);
  }

  lemma Stays(c: Call, id: int, inTable: bool, duties: multiset<Duty>, left: multiset<Duty>)
    requires Accounted(c, id, inTable, duties) && CallbacksDue(left, id) == 0 && ValuesDue(left, id) == 0
    ensures Accounted(c, id, inTable, duties + left)
  {
    MoreDue(duties, left, id);
  }

  lemma MoreDue(duties: multiset<Duty>, more: multiset<Duty>, id: int)
    ensures CallbacksDue(duties + more, id) == CallbacksDue(duties, id) + CallbacksDue(more, id)
    ensures ValuesDue(duties + more, id) == ValuesDue(duties, id) + ValuesDue(more, id)
    ensures (duties + more)[Respond(id)] == duties[Respond(id)] + more[Respond(id)]
  {
  }

  lemma RemovedKeeps(s: Sys, ids: set<int>, markFree: bool, duties: set<Duty>)
    requires Inv(s) && ids <= s.table
    requires forall d :: d in duties ==> d.id in ids && !d.Notify? && (d.Respond? ==> !markFree)
    requires forall d, e :: d in duties && e in duties && d.id == e.id ==> d == e
    requires forall id :: id in ids ==> exists d :: d in duties && d.id == id
    ensures Inv(Removed(s, ids, markFree, duties))
  {
    var t := Removed(s, ids, markFree, duties);
    forall id | id in t.calls ensures Accounted(t.calls[id], id, id in t.table, t.duties) {
      OneDuty(id, duties, id in ids);
      if id in ids {
        Departs(s.calls[id], id, s.duties, multiset(duties), markFree);
      } else {
        Stays(s.calls[id], id, id in s.table, s.duties, multiset(duties));
      }
    }
    forall d | d in t.duties ensures d.id in t.calls {
      assert d in s.duties || d in duties;
    }
  }

  /** At most one new duty per call, and one exactly for those removed. */
  lemma OneDuty(id: int, duties: set<Duty>, removed: bool)
    requires forall d :: d in duties ==> !d.Notify?
    requires forall d, e :: d in duties && e in duties && d.id == e.id ==> d == e
    requires removed <==> exists d :: d in duties && d.id == id
    ensures CallbacksDue(multiset(duties), id) == if removed then 1 else 0
    ensures ValuesDue(multiset(duties), id) <= if removed then 1 else 0
  {
    if removed {
      var d :| d in duties && d.id == id;
      assert d == Respond(id) || d == Fail(id, true) || d == Fail(id, false);
    }
  }

  lemma PerformsOwn(c: Call, inTable: bool, duty: Duty, duties: multiset<Duty>, now: int)
    requires Accounted(c, duty.id, inTable, duties) && duty in duties
    ensures Accounted(Performed(c, duty, now), duty.id, inTable, duties - multiset{duty} + Follow(duty))
  {
    var rest := duties - multiset{duty};
    match duty {
      case Respond(id) => assert rest[Respond(id)] == duties[Respond(id)] - 1;
      case Fail(id, notify) => assert rest[Fail(id, notify)] == duties[Fail(id, notify)] - 1;
      case Notify(id) => assert rest[Notify(id)] == duties[Notify(id)] - 1;
    }
  }

  lemma PerformsOther(c: Call, id: int, inTable: bool, duty: Duty, duties: multiset<Duty>)
    requires Accounted(c, id, inTable, duties) && duty in duties && duty.id != id
    ensures Accounted(c, id, inTable, duties - multiset{duty} + Follow(duty))
  {
    var rest := duties - multiset{duty} + Follow(duty);
    forall d: Duty | d.id == id ensures rest[d] == duties[d] { }
  }

  lemma PerformKeeps(s: Sys, duty: Duty, t: Sys)
    requires Inv(s) && Next(s, Perform(duty), t)
    ensures Inv(t)
  {
    forall id | id in t.calls ensures Accounted(t.calls[id], id, id in t.table, t.duties) {
      if id == duty.id {
        PerformsOwn(s.calls[id], id in s.table, duty, s.duties, s.now);
      } else {
        PerformsOther(s.calls[id], id, id in s.table, duty, s.duties);
      }
    }
  }

  lemma SweepKeeps(s: Sys, ids: set<int>, notify: bool)
    requires Inv(s) && ids <= s.table
    ensures Inv(Removed(s, ids, true, set id | id in ids :: Fail(id, notify)))
  {
    var duties := set id | id in ids :: Fail(id, notify);
    forall id | id in ids ensures Fail(id, notify) in duties { }
    RemovedKeeps(s, ids, true, duties);
  }

  lemma ReceiveKeeps(s: Sys, id: int, t: Sys)
    requires Inv(s) && Next(s, Receive(id), t)
    ensures Inv(t)
  {
    forall i | i in t.calls ensures Accounted(t.calls[i], i, i in t.table, t.duties) {
      assert Accounted(s.calls[i], i, i in s.table, s.duties);
    }
  }

  lemma RemoveOneKeeps(s: Sys, id: int, markFree: bool, duty: Duty)
    requires Inv(s) && duty.id == id && !duty.Notify? && (duty.Respond? ==> !markFree)
    ensures Inv(RemoveOne(s, id, markFree, duty))
  {
    if id in s.table { RemovedKeeps(s, {id}, markFree, {duty}); }
  }

  lemma InsertKeeps(s: Sys, id: int, t: Sys)
    requires Inv(s) && Next(s, Insert(id), t)
    ensures Inv(t)
  {
    forall d | d in s.duties ensures d.id != id { }
    assert Respond(id) !in s.duties && Fail(id, true) !in s.duties
        && Fail(id, false) !in s.duties && Notify(id) !in s.duties;
  }

  lemma InvStep(s: Sys, step: Step, t: Sys)
    requires Inv(s) && Next(s, step, t)
    ensures Inv(t)
  {
    match step {
      case Advance(now) =>
      case Begin(id, call) =>
      case Insert(id) => InsertKeeps(s, id, t);
      case Response(id) => RemoveOneKeeps(s, id, false, Respond(id));
      case SendFail(id) => RemoveOneKeeps(s, id, true, Fail(id, true));
      case Timeout(id) => RemoveOneKeeps(s, id, true, Fail(id, false));
      case Sweep(since, expired) => SweepKeeps(s, expired, false);
      case StopSwap =>
      case StopLock => SweepKeeps(s, s.table, true);
      case Receive(id) => ReceiveKeeps(s, id, t);
      case Perform(duty) => PerformKeeps(s, duty, t);
    }
  }

  ghost predicate IsRun(run: seq<Sys>, steps: seq<Step>) {
    && |run| == |steps| + 1 && run[0] == Sys({}, map[], map[], false, NotStopped, multiset{}, run[0].now)
    && forall i :: 0 <= i < |steps| ==> Next(run[i], steps[i], run[i + 1])
  }

  lemma {:induction false} EveryRun(run: seq<Sys>, steps: seq<Step>, n: nat)
    requires IsRun(run, steps) && n < |run|
    ensures Inv(run[n])
  {
    if n > 0 {
      EveryRun(run, steps, n - 1);
      assert Next(run[n - 1], steps[n - 1], run[n - 1 + 1]);
      InvStep(run[n - 1], steps[n - 1], run[n]);
    }
  }

  /** For every interleaving: a call leaves the table at most once, handler and
    * failed never both run nor either twice, the channel gets at most one value,
    * and the freed-call and full-channel branches are never entered. */
  lemma AtMostOnce(run: seq<Sys>, steps: seq<Step>, n: nat, id: int)
    requires IsRun(run, steps) && n < |run| && id in run[n].calls
    ensures var c := run[n].calls[id];
            c.left <= 1 && c.handlerRuns + c.failedRuns <= 1 && c.sent <= 1 && c.dead == 0
  {
    EveryRun(run, steps, n);
    assert Accounted(run[n].calls[id], id, id in run[n].table, run[n].duties);
  }

  lemma PerformDrops(c: Call, duty: Duty, now: int)
    ensures Performed(c, duty, now).dropped == c.dropped + if duty.Respond? && c.expireAt < now then 1 else 0
  {
  }

  /** An answer is dropped exactly when a response performs past its expiry. */
  lemma DropsAtGuard(s: Sys, step: Step, t: Sys, id: int)
    requires (forall i :: i in s.entering ==> i !in s.calls) && Next(s, step, t) && id in s.calls
    ensures id in t.calls
    ensures t.calls[id].dropped == s.calls[id].dropped
                                 + if step == Perform(Respond(id)) && s.calls[id].expireAt < s.now then 1 else 0
  {
    if step.Perform? {
      PerformDrops(s.calls[step.duty.id], step.duty, s.now);
    } else if step.Sweep? || step.StopLock? {
      assert t.calls[id].dropped == s.calls[id].dropped;
    } else if step.Receive? {
      assert t.calls[id].dropped == s.calls[id].dropped;
    } else if step.Insert? {
      assert t.calls[id] == s.calls[id];
    } else {
      assert t.calls[id].dropped == s.calls[id].dropped;
    }
  }

  /** A call appears by being inserted, with nothing dropped yet. */
  lemma AppearsFresh(s: Sys, step: Step, t: Sys, id: int)
    requires Inv(s) && Next(s, step, t) && id in t.calls && id !in s.calls
    ensures t.calls[id].dropped == 0
  {
  }

  /** Step i of a run finds the response to this call past its expiry. */
  ghost predicate ExpiredAt(run: seq<Sys>, steps: seq<Step>, i: nat, id: int)
    requires |run| == |steps| + 1
  {
    i < |steps| && steps[i] == Perform(Respond(id)) && id in run[i].calls && run[i].calls[id].expireAt < run[i].now
  }

  function DroppedBy(s: Sys, id: int): nat {
    if id in s.calls then s.calls[id].dropped else 0
  }

  lemma DropsInRun(run: seq<Sys>, steps: seq<Step>, i: nat, id: int)
    requires IsRun(run, steps) && i < |steps|
    ensures DroppedBy(run[i + 1], id) == DroppedBy(run[i], id) + if ExpiredAt(run, steps, i, id) then 1 else 0
  {
    EveryRun(run, steps, i);
    if id in run[i].calls {
      DropsAtGuard(run[i], steps[i], run[i + 1], id);
    } else if id in run[i + 1].calls {
      AppearsFresh(run[i], steps[i], run[i + 1], id);
    }
  }

  ghost predicate ExpiredBefore(run: seq<Sys>, steps: seq<Step>, n: nat, id: int)
    requires |run| == |steps| + 1
  {
    exists i: nat :: i < n && ExpiredAt(run, steps, i, id)
  }

  lemma ExpiredSplit(run: seq<Sys>, steps: seq<Step>, n: nat, id: int)
    requires |run| == |steps| + 1
    ensures !ExpiredBefore(run, steps, 0, id)
    ensures ExpiredBefore(run, steps, n + 1, id) <==> ExpiredBefore(run, steps, n, id) || ExpiredAt(run, steps, n, id)
  {
    if ExpiredAt(run, steps, n, id) { assert n < n + 1; }
  }

  lemma DroppedNext(run: seq<Sys>, steps: seq<Step>, n: nat, id: int)
    requires IsRun(run, steps) && n < |steps|
    requires DroppedBy(run[n], id) > 0 <==> ExpiredBefore(run, steps, n, id)
    ensures DroppedBy(run[n + 1], id) > 0 <==> ExpiredBefore(run, steps, n + 1, id)
  {
    DropsInRun(run, steps, n, id);
    ExpiredSplit(run, steps, n, id);
  }

  lemma {:induction false} DroppedIffExpired(run: seq<Sys>, steps: seq<Step>, n: nat, id: int)
    requires IsRun(run, steps) && n < |run|
    ensures DroppedBy(run[n], id) > 0 <==> ExpiredBefore(run, steps, n, id)
  {
    if n == 0 {
      ExpiredSplit(run, steps, 0, id);
    } else {
      DroppedIffExpired(run, steps, n - 1, id);
      DroppedNext(run, steps, n - 1, id);
    }
  }

  /** For a call with a way to answer and a failure callback, once it is out of
    * the table and no callback is still due: no callback has run and nothing was
    * put on its channel if and only if a response took it out of the table and
    * then found it past its expiry. */
  lemma SilentIffExpired(run: seq<Sys>, steps: seq<Step>, n: nat, id: int)
    requires IsRun(run, steps) && n < |run| && id in run[n].calls && id !in run[n].table
    requires Answerable(run[n].calls[id]) && CallbacksDue(run[n].duties, id) == 0
    ensures var c := run[n].calls[id];
            c.handlerRuns + c.failedRuns + c.sent == 0 <==> exists i: nat :: i < n && ExpiredAt(run, steps, i, id)
  {
    EveryRun(run, steps, n);
    assert Accounted(run[n].calls[id], id, id in run[n].table, run[n].duties);
    DroppedIffExpired(run, steps, n, id);
  }

  /** In every run, an answer that performs in time reaches the caller, whether or
    * not there is a failure callback: the handler runs, for the only time, or the
    * channel gets its only value. */
  lemma AnsweredInTime(run: seq<Sys>, steps: seq<Step>, i: nat, id: nat)
    requires IsRun(run, steps) && i < |steps| && steps[i] == Perform(Respond(id))
    requires id in run[i].calls && run[i].now <= run[i].calls[id].expireAt
    ensures id in run[i + 1].calls
    ensures var c, d := run[i].calls[id], run[i + 1].calls[id];
            && (c.hasHandler ==> c.handlerRuns == 0 && d.handlerRuns == 1)
            && (c.blocking ==> c.sent == 0 && d.sent == 1)
  {
    EveryRun(run, steps, i);
    assert Next(run[i], steps[i], run[i + 1]);
    assert Accounted(run[i].calls[id], id, id in run[i].table, run[i].duties);
  }

  /** This step takes the call out of the table, and how: a response, a send
    * failure or Stop, which also wake a blocking caller, or a timeout or the
    * sweep, which do not. */
  ghost predicate TakesOut(s: Sys, step: Step, id: int, exit: Duty) {
    && id in s.table
    && match step
       case Response(i) => i == id && exit == Respond(id)
       case SendFail(i) => i == id && exit == Fail(id, true)
       case StopLock => exit == Fail(id, true)
       case Timeout(i) => i == id && exit == Fail(id, false)
       case Sweep(_, expired) => id in expired && exit == Fail(id, false)
       case _ => false
  }

  /** What a call taken out this way still gets, or has had. */
  ghost predicate Promised(c: Call, id: int, exit: Duty, duties: multiset<Duty>) {
    match exit
    case Respond(_) =>
      && (c.hasHandler ==> duties[Respond(id)] + c.handlerRuns + c.dropped >= 1)
      && (c.blocking ==> duties[Respond(id)] + c.sent + c.dropped >= 1)
    case Fail(_, notify) =>
      && (c.hasFailed ==> duties[Fail(id, notify)] + c.failedRuns >= 1)
      && (c.blocking && notify ==> duties[Fail(id, true)] + duties[Notify(id)] + c.sent >= 1)
    case Notify(_) => true
  }

  lemma PromisedOwn(c: Call, inTable: bool, duty: Duty, duties: multiset<Duty>, now: int, exit: Duty)
    requires Accounted(c, duty.id, inTable, duties) && duty in duties && Promised(c, duty.id, exit, duties)
    ensures Promised(Performed(c, duty, now), duty.id, exit, duties - multiset{duty} + Follow(duty))
  {
    var id, after := duty.id, duties - multiset{duty} + Follow(duty);
    match duty {
      case Respond(_) =>
        assert after[Respond(id)] == duties[Respond(id)] - 1;
        assert after[Fail(id, true)] == duties[Fail(id, true)] && after[Fail(id, false)] == duties[Fail(id, false)];
        assert after[Notify(id)] == duties[Notify(id)];
      case Fail(_, notify) =>
        assert after[Respond(id)] == duties[Respond(id)] && after[duty] == duties[duty] - 1;
        assert after[Fail(id, !notify)] == duties[Fail(id, !notify)];
        assert after[Notify(id)] == duties[Notify(id)] + if notify then 1 else 0;
      case Notify(_) =>
        assert after[Respond(id)] == duties[Respond(id)] && after[Notify(id)] == duties[Notify(id)] - 1;
        assert after[Fail(id, true)] == duties[Fail(id, true)] && after[Fail(id, false)] == duties[Fail(id, false)];
    }
  }

  lemma PromisedOther(c: Call, id: int, duty: Duty, duties: multiset<Duty>, exit: Duty)
    requires duty in duties && duty.id != id && Promised(c, id, exit, duties)
    ensures Promised(c, id, exit, duties - multiset{duty} + Follow(duty))
  {
    var after := duties - multiset{duty} + Follow(duty);
    forall d: Duty | d.id == id ensures after[d] == duties[d] { }
    assert after[Respond(id)] == duties[Respond(id)] && after[Notify(id)] == duties[Notify(id)];
    assert after[Fail(id, true)] == duties[Fail(id, true)] && after[Fail(id, false)] == duties[Fail(id, false)];
  }

  lemma PromisedMore(c: Call, id: int, duties: multiset<Duty>, more: multiset<Duty>, exit: Duty)
    requires Promised(c, id, exit, duties)
    ensures Promised(c, id, exit, duties + more)
  {
  }

  lemma TakingOutPromises(s: Sys, step: Step, t: Sys, id: int, exit: Duty)
    requires Inv(s) && Next(s, step, t) && TakesOut(s, step, id, exit)
    ensures id in t.calls && id !in t.table && Promised(t.calls[id], id, exit, t.duties)
  {
    match step {
      case Sweep(_, expired) => assert exit in (set i | i in expired :: Fail(i, false));
      case StopLock => assert exit in (set i | i in s.table :: Fail(i, true));
      case _ =>
    }
  }

  lemma RemovedPromises(s: Sys, ids: set<int>, markFree: bool, duties: set<Duty>, id: int, exit: Duty)
    requires id in s.calls && id !in ids && Promised(s.calls[id], id, exit, s.duties)
    ensures var t := Removed(s, ids, markFree, duties);
            id in t.calls && Promised(t.calls[id], id, exit, t.duties)
  {
    PromisedMore(s.calls[id], id, s.duties, multiset(duties), exit);
  }

  lemma OneRemovedPromises(s: Sys, i: int, markFree: bool, duty: Duty, id: int, exit: Duty)
    requires id in s.calls && id !in s.table && Promised(s.calls[id], id, exit, s.duties)
    ensures var t := RemoveOne(s, i, markFree, duty);
            id in t.calls && id !in t.table && Promised(t.calls[id], id, exit, t.duties)
  {
    if i in s.table { RemovedPromises(s, {i}, markFree, {duty}, id, exit); }
  }

  lemma PerformPromises(s: Sys, duty: Duty, t: Sys, id: int, exit: Duty)
    requires Next(s, Perform(duty), t) && id in s.calls && Promised(s.calls[id], id, exit, s.duties)
    requires Accounted(s.calls[id], id, id in s.table, s.duties)
    ensures id in t.calls && Promised(t.calls[id], id, exit, t.duties)
  {
    if duty.id == id {
      PromisedOwn(s.calls[id], id in s.table, duty, s.duties, s.now, exit);
    } else {
      PromisedOther(s.calls[id], id, duty, s.duties, exit);
    }
  }

  lemma PromiseStays(s: Sys, step: Step, t: Sys, id: int, exit: Duty)
    requires (forall i :: i in s.entering ==> i !in s.calls) && Next(s, step, t)
    requires id in s.calls && id !in s.table && Accounted(s.calls[id], id, false, s.duties)
    requires Promised(s.calls[id], id, exit, s.duties)
    ensures id in t.calls && id !in t.table && Promised(t.calls[id], id, exit, t.duties)
  {
    match step {
      case Advance(_) =>
      case Begin(_, _) =>
      case Insert(_) =>
      case Response(i) => OneRemovedPromises(s, i, false, Respond(i), id, exit);
      case SendFail(i) => OneRemovedPromises(s, i, true, Fail(i, true), id, exit);
      case Timeout(i) => OneRemovedPromises(s, i, true, Fail(i, false), id, exit);
      case Sweep(_, expired) =>
        RemovedPromises(s, expired, true, set i | i in expired :: Fail(i, false), id, exit);
      case StopSwap =>
      case StopLock =>
        RemovedPromises(s, s.table, true, set i | i in s.table :: Fail(i, true), id, exit);
      case Receive(_) =>
      case Perform(duty) => PerformPromises(s, duty, t, id, exit);
    }
  }

  lemma PromiseNext(run: seq<Sys>, steps: seq<Step>, n: nat, id: int, exit: Duty)
    requires IsRun(run, steps) && n < |steps| && id in run[n].calls && id !in run[n].table
    requires Promised(run[n].calls[id], id, exit, run[n].duties)
    ensures id in run[n + 1].calls && id !in run[n + 1].table
    ensures Promised(run[n + 1].calls[id], id, exit, run[n + 1].duties)
  {
    EveryRun(run, steps, n);
    assert Accounted(run[n].calls[id], id, id in run[n].table, run[n].duties);
    PromiseStays(run[n], steps[n], run[n + 1], id, exit);
  }

  lemma PromiseStarts(run: seq<Sys>, steps: seq<Step>, i: nat, id: int, exit: Duty)
    requires IsRun(run, steps) && i < |steps| && TakesOut(run[i], steps[i], id, exit)
    ensures id in run[i + 1].calls && id !in run[i + 1].table
    ensures Promised(run[i + 1].calls[id], id, exit, run[i + 1].duties)
  {
    EveryRun(run, steps, i);
    TakingOutPromises(run[i], steps[i], run[i + 1], id, exit);
  }

  lemma {:induction false} PromiseKept(run: seq<Sys>, steps: seq<Step>, i: nat, n: nat, id: int, exit: Duty)
    requires IsRun(run, steps) && i < n < |run| && TakesOut(run[i], steps[i], id, exit)
    ensures id in run[n].calls && id !in run[n].table && Promised(run[n].calls[id], id, exit, run[n].duties)
    decreases n
  {
    if n == i + 1 {
      PromiseStarts(run, steps, i, id, exit);
    } else {
      PromiseKept(run, steps, i, n - 1, id, exit);
      PromiseNext(run, steps, n - 1, id, exit);
    }
  }

  /** In every run, a call that was taken out and has no duty left has had what
    * its exit gives it, once: after a response the handler run or the channel
    * value, unless the answer was dropped; after a failure the failure callback;
    * and after a send failure or Stop the value that wakes a blocking caller. */
  lemma TakenOutIsTold(run: seq<Sys>, steps: seq<Step>, i: nat, n: nat, id: int, exit: Duty)
    requires IsRun(run, steps) && i < n < |run| && TakesOut(run[i], steps[i], id, exit)
    requires forall d :: d in run[n].duties ==> d.id != id
    ensures id in run[n].calls
    ensures var c := run[n].calls[id];
            && (exit.Respond? && c.hasHandler ==> c.handlerRuns + c.dropped == 1)
            && (exit.Respond? && c.blocking ==> c.sent + c.dropped == 1)
            && (exit.Fail? && c.hasFailed ==> c.failedRuns == 1)
            && (exit.Fail? && exit.notify && c.blocking ==> c.sent == 1)
  {
    PromiseKept(run, steps, i, n, id, exit);
    EveryRun(run, steps, n);
    assert Accounted(run[n].calls[id], id, id in run[n].table, run[n].duties);
    assert Respond(id) !in run[n].duties && Notify(id) !in run[n].duties
        && Fail(id, true) !in run[n].duties && Fail(id, false) !in run[n].duties;
  }

  lemma StopIsFinal(s: Sys, step: Step, t: Sys)
    requires Inv(s) && Next(s, step, t) && s.stop.Cleared?
    ensures t.stop.Cleared?
  {
    match step {
      case Advance(now) =>
      case Begin(i, call) =>
      case Insert(i) =>
      case Response(i) =>
      case SendFail(i) =>
      case Timeout(i) =>
      case Sweep(since, expired) =>
      case StopSwap =>
      case StopLock =>
      case Receive(i) =>
      case Perform(duty) =>
    }
  }

  lemma ClearedStaysCleared(run: seq<Sys>, steps: seq<Step>, i: nat)
    requires IsRun(run, steps) && i < |steps| && run[i].stop.Cleared?
    ensures run[i + 1].stop.Cleared?
  {
    EveryRun(run, steps, i);
    StopIsFinal(run[i], steps[i], run[i + 1]);
  }

  lemma {:induction false} StaysCleared(run: seq<Sys>, steps: seq<Step>, m: nat, n: nat)
    requires IsRun(run, steps) && m <= n < |run| && run[m].stop.Cleared?
    ensures run[n].stop.Cleared?
    decreases n
  {
    if m < n {
      StaysCleared(run, steps, m, n - 1);
      ClearedStaysCleared(run, steps, n - 1);
    }
  }

  lemma ClearedIsEmpty(run: seq<Sys>, steps: seq<Step>, n: nat)
    requires IsRun(run, steps) && n < |run| && run[n].stop.Cleared?
    ensures run[n].table == {}
  {
    EveryRun(run, steps, n);
  }

  /** Once Stop has had the lock the table is empty for good. */
  lemma EmptyAfterStop(run: seq<Sys>, steps: seq<Step>, m: nat, n: nat)
    requires IsRun(run, steps) && m <= n < |run| && run[m].stop.Cleared?
    ensures run[n].stop.Cleared? && run[n].table == {}
  {
    StaysCleared(run, steps, m, n);
    ClearedIsEmpty(run, steps, n);
  }

  /** A response in the last moment: it leaves the table after its expiry and
    * before the sweep; no callback runs and nothing is put on the channel.  (A
    * blocking caller has its own timeout to wake it.) */
  lemma CallMayEndSilent(call: Call)
    requires Fresh(call) && Answerable(call)
    ensures exists run: seq<Sys>, steps: seq<Step> ::
              && IsRun(run, steps) && |steps| == 5
              && 1 in run[5].calls && 1 !in run[5].table && run[5].duties == multiset{}
              && var c := run[5].calls[1]; c.left == 1 && c.handlerRuns == c.failedRuns == c.sent == 0
  {
    var s0 := Sys({}, map[], map[], false, NotStopped, multiset{}, call.expireAt);
    var s1 := s0.(entering := map[1 := call]);
    var s2 := s0.(table := {1}, calls := map[1 := call]);
    var s3 := s2.(now := call.expireAt + 1);
    var s4 := RemoveOne(s3, 1, false, Respond(1));
    var s5 := s4.(duties := multiset{}, calls := s4.calls[1 := Performed(s4.calls[1], Respond(1), s4.now)]);
    LateResponse(call, s0, s1, s2, s3, s4, s5);
    var run := [s0, s1, s2, s3, s4, s5];
    var steps := [Begin(1, call), Insert(1), Advance(call.expireAt + 1), Response(1), Perform(Respond(1))];
    FiveSteps(run, steps);
    assert run[5] == s5;
  }

  lemma FiveSteps(run: seq<Sys>, steps: seq<Step>)
    requires |run| == 6 && |steps| == 5 && run[0] == Sys({}, map[], map[], false, NotStopped, multiset{}, run[0].now)
    requires Next(run[0], steps[0], run[1]) && Next(run[1], steps[1], run[2]) && Next(run[2], steps[2], run[3])
    requires Next(run[3], steps[3], run[4]) && Next(run[4], steps[4], run[5])
    ensures IsRun(run, steps)
  {
  }

  lemma LateResponse(call: Call, s0: Sys, s1: Sys, s2: Sys, s3: Sys, s4: Sys, s5: Sys)
    requires Fresh(call) && s0 == Sys({}, map[], map[], false, NotStopped, multiset{}, call.expireAt)
    requires s1 == s0.(entering := map[1 := call]) && s2 == s0.(table := {1}, calls := map[1 := call])
    requires s3 == s2.(now := call.expireAt + 1) && s4 == RemoveOne(s3, 1, false, Respond(1))
    requires 1 in s4.calls
    requires s5 == s4.(duties := multiset{}, calls := s4.calls[1 := Performed(s4.calls[1], Respond(1), s4.now)])
    ensures Next(s0, Begin(1, call), s1) && Next(s1, Insert(1), s2)
    ensures Next(s2, Advance(call.expireAt + 1), s3) && Next(s3, Response(1), s4)
    ensures Next(s4, Perform(Respond(1)), s5)
    ensures 1 !in s5.table && s5.calls[1] == call.(left := 1, dropped := 1)
  {
    assert s1.entering == s0.entering[1 := call] && s1.entering - {1} == map[];
    assert s0.calls[1 := call] == s2.calls && s0.table + {1} == s2.table;
    assert s4.duties == multiset{Respond(1)};
    assert s4.duties - multiset{Respond(1)} + Follow(Respond(1)) == multiset{};
  }
}
