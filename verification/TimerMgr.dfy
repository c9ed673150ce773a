/** The timer manager (deps/timer_mgr/timer_mgr.go): one goroutine takes adds,
  * cancels and ticks from its channels and applies them to the heap and map. */
module TimerMgr {
  import opened Basics
  import opened TimerHeap

  const MILLIS_PER_SECOND := 1000

  /** One callback: the timer, the time it was due, and the time it is told. */
  datatype Fire = Fire(id: int, dueMs: int, scheduleMs: int)

  datatype AddError = ManagerStopped | InvalidInterval | InvalidTickCount | NilFunc | ChannelFull

  /** The last slot of the timer's grid at or before now. */
  function Schedule(dueMs: int, intervalMs: int, nowMs: int): int
    requires intervalMs > 0
  {
    var runtime := (nowMs - dueMs) / intervalMs + 1;
    if runtime > 1 then dueMs + (runtime - 1) * intervalMs else dueMs
  }

  /** However many periods were missed, one callback catches up: its schedule is
    * on the timer's grid and less than one interval old. */
  lemma CatchUp(dueMs: int, intervalMs: int, nowMs: int)
    requires intervalMs > 0 && dueMs <= nowMs
    ensures var s := Schedule(dueMs, intervalMs, nowMs);
            && dueMs <= s <= nowMs < s + intervalMs
            && exists periods: nat :: s == dueMs + periods * intervalMs
  {
    var periods: nat := (nowMs - dueMs) / intervalMs;
    var d := nowMs - dueMs;
    assert d == periods * intervalMs + d % intervalMs;
    assert Schedule(dueMs, intervalMs, nowMs) == dueMs + periods * intervalMs;
  }

  function Fired(log: seq<Fire>, id: int): nat {
    if log == [] then 0
    else Fired(log[..|log| - 1], id) + if log[|log| - 1].id == id then 1 else 0
  }

  /** What has happened so far: every callback, the tick limit of every timer
    * ever added, and how long the log was when a timer was cancelled. */
  datatype History = History(log: seq<Fire>, limits: map<int, nat>, cancelledAt: map<int, nat>)

  ghost predicate Sound(h: History, live: set<int>) {
    && live <= h.limits.Keys
    && (forall id :: id in h.limits && h.limits[id] > 0 ==> Fired(h.log, id) <= h.limits[id])
    && (forall id :: id !in h.limits ==> Fired(h.log, id) == 0)
    && (forall id :: id in h.cancelledAt ==> id in h.limits && id !in live && h.cancelledAt[id] <= |h.log|)
    && (forall id, k :: id in h.cancelledAt && h.cancelledAt[id] <= k < |h.log| ==> h.log[k].id != id)
  }

  /** The history holds `n` callbacks of `t`, and the tick limit it carries. */
  ghost predicate CountsTo(h: History, t: CircTimer, n: int) {
    n == Fired(h.log, t.id) && t.id in h.limits && h.limits[t.id] == t.maxTickCount
  }

  /** A live timer under its limit may run: its count goes up and nothing else. */
  lemma RunningIsSound(h: History, live: set<int>, f: Fire)
    requires Sound(h, live) && f.id in live
    requires h.limits[f.id] > 0 ==> Fired(h.log, f.id) < h.limits[f.id]
    ensures Sound(h.(log := h.log + [f]), live)
    ensures Fired(h.log + [f], f.id) == Fired(h.log, f.id) + 1
    ensures forall id :: id != f.id ==> Fired(h.log + [f], id) == Fired(h.log, id)
  {
    assert (h.log + [f])[..|h.log|] == h.log;
  }

  lemma AddingIsSound(h: History, live: set<int>, id: int, limit: nat)
    requires Sound(h, live) && id !in h.limits
    ensures Sound(h.(limits := h.limits[id := limit]), live)
    ensures Sound(h.(limits := h.limits[id := limit]), live + {id})
  {
  }

  lemma CancellingIsSound(h: History, live: set<int>, id: int)
    requires Sound(h, live) && id in h.limits && id !in live
    ensures Sound(h.(cancelledAt := h.cancelledAt[id := |h.log|]), live)
  {
  }

  class Manager {
    const timers: Heap
    const buffer: nat                     // channel capacity
    var timerMap: map<int, CircTimer>
    var addChan: seq<CircTimer>
    var cancelChan: seq<int>
    var running: bool
    var done: bool                        // the context has been cancelled
    var timerId: int
    var activeTimers: int
    var lastProcessTime: int
    ghost var history: History

    ghost predicate Valid()
      reads this`timerMap, this`addChan, this`timerId, this`history, this`activeTimers, timers, timers.items, addChan
    {
      Wired() && Uncancelled()
    }

    ghost predicate Wired()
      reads this`timerMap, this`addChan, this`timerId, this`history, this`activeTimers, timers, timers.items, addChan
    {
      timers.Valid() && MapIsHeap() && Recorded(history) && activeTimers == |timerMap|
    }

    /** No timer in the heap has been cancelled: the check on pop never fires. */
    ghost predicate Uncancelled()
      reads timers, timers.items
    {
      forall t :: t in timers.items ==> !t.cancelled
    }

    /** The heap's timers are exactly the map's values, and all of them live. */
    ghost predicate MapIsHeap()
      reads this`timerMap, timers, timers.items
    {
      && (forall t :: t in timers.items ==> t.id in timerMap && timerMap[t.id] == t && Live(t))
      && (forall id :: id in timerMap ==> timerMap[id].id == id && timerMap[id] in timers.items)
    }

    /** MapIsHeap while `timer` has been popped and is still in the map. */
    ghost predicate MapIsHeapAnd(timer: CircTimer)
      reads this`timerMap, timers, timers.items
    {
      && timer !in timers.items && timer.id in timerMap && timerMap[timer.id] == timer
      && (forall t :: t in timers.items ==> t.id in timerMap && timerMap[t.id] == t && Live(t))
      && (forall id :: id in timerMap ==>
            timerMap[id].id == id && (timerMap[id] in timers.items || timerMap[id] == timer))
    }

    ghost predicate Live(t: CircTimer)
      reads t
    {
      t.interval > 0 && (t.maxTickCount > 0 ==> t.tickCount < t.maxTickCount)
    }

    /** `h` is a history of the timers as they are. */
    ghost predicate Recorded(h: History)
      reads this`timerMap, this`addChan, this`timerId, timers, timers.items, addChan
    {
      Counted(h) && Queued(h) && Sound(h, timerMap.Keys)
    }

    /** Tick counts are the callbacks there have been. */
    ghost predicate Counted(h: History)
      reads timers, timers.items
    {
      forall t :: t in timers.items ==> CountsTo(h, t, t.tickCount)
    }

    /** Timers waiting in the add channel carry ids nobody has used. */
    ghost predicate Queued(h: History)
      reads this`addChan, this`timerId, addChan
    {
      && (forall i :: 0 <= i < |addChan| ==>
            && addChan[i].interval > 0 && !addChan[i].cancelled && addChan[i].tickCount == 0
            && addChan[i].id !in h.limits && addChan[i].id <= timerId)
      && (forall i, j :: 0 <= i < j < |addChan| ==> addChan[i].id != addChan[j].id)
      && (forall id :: id in h.limits ==> id <= timerId)
    }

    ghost predicate CountIs(t: CircTimer, n: int)
      reads this`history
    {
      CountsTo(history, t, n)
    }

    constructor (buffer: nat)
      ensures Valid() && timerMap == map[] && history.log == [] && fresh(timers) && !running && !done
    {
      this.buffer := buffer;
      timers := new Heap();
      timerMap, addChan, cancelChan := map[], [], [];
      running, done, timerId, activeTimers, lastProcessTime := false, false, 0, 0, 0;
      history := History([], map[], map[]);
    }

    /** The state while `timer` has been popped and is still in the map. */
    ghost predicate Between(timer: CircTimer)
      reads this`timerMap, this`addChan, this`timerId, this`history, this`activeTimers, timers, timers.items, addChan
    {
      && timers.Valid() && MapIsHeapAnd(timer) && Recorded(history) && Uncancelled()
      && activeTimers == |timerMap|
    }

    method PopLeast() returns (timer: CircTimer)
      requires Valid() && |timers.items| > 0
      modifies timers, (set t: CircTimer | t in timers.items)`index
      ensures timer == old(timers.items[0]) && Between(timer)
      ensures Live(timer) && !timer.cancelled && CountIs(timer, timer.tickCount)
      ensures forall u :: u in old(timers.items) <==> u in timers.items || u == timer
    {
      timer := timers.Pop();
    }

    method ExecuteTimer(timer: CircTimer, scheduleTimeMs: int)
      requires Between(timer) && Live(timer) && CountIs(timer, timer.tickCount)
      modifies this`history
      ensures Between(timer) && CountIs(timer, timer.tickCount + 1)
      ensures history == old(history).(log := old(history).log + [Fire(timer.id, timer.nextTimeMs, scheduleTimeMs)])
    {
      ghost var fire := Fire(timer.id, timer.nextTimeMs, scheduleTimeMs);
      RunRecords(timer, fire);
      history := history.(log := history.log + [fire]);
    }

    /** The history once `timer` has run is one of the timers too. */
    lemma RunRecords(timer: CircTimer, f: Fire)
      requires Between(timer) && Live(timer) && CountIs(timer, timer.tickCount) && f.id == timer.id
      ensures var h := history.(log := history.log + [f]);
              Recorded(h) && CountsTo(h, timer, timer.tickCount + 1)
    {
      RunningIsSound(history, timerMap.Keys, f);
      var h := history.(log := history.log + [f]);
      forall t | t in timers.items ensures CountsTo(h, t, t.tickCount) {
        assert CountsTo(history, t, t.tickCount) && t.id != timer.id;
      }
    }

    method Retire(timer: CircTimer)
      requires Between(timer)
      modifies this`timerMap, this`activeTimers
      ensures Valid() && timerMap == old(timerMap) - {timer.id}
    {
      timerMap := timerMap - {timer.id};
      activeTimers := activeTimers - 1;
    }

    method Requeue(timer: CircTimer)
      requires Between(timer) && Live(timer) && !timer.cancelled && CountIs(timer, timer.tickCount)
      modifies timers, timer`index, (set t: CircTimer | t in timers.items)`index
      ensures Valid()
      ensures forall u :: u in timers.items <==> u in old(timers.items) || u == timer
    {
      timers.Push(timer);
    }

    method HandleRecurringTimer(timer: CircTimer, scheduleTimeMs: int)
      requires Between(timer) && Live(timer) && !timer.cancelled && CountIs(timer, timer.tickCount + 1)
      modifies this`timerMap, this`activeTimers, timers, (set t: CircTimer | t in timers.items)`index, timer
      ensures Valid() && timer.tickCount == old(timer.tickCount) + 1
      ensures if timer.maxTickCount > 0 && timer.tickCount >= timer.maxTickCount then
                timers.items == old(timers.items)
              else
                && (forall u :: u in timers.items <==> u in old(timers.items) || u == timer)
                && timer.nextTimeMs == scheduleTimeMs + timer.interval * MILLIS_PER_SECOND
    {
      timer.tickCount := timer.tickCount + 1;
      if timer.maxTickCount > 0 && timer.tickCount >= timer.maxTickCount {
        Retire(timer);
        return;
      }
      timer.nextTimeMs := scheduleTimeMs + timer.interval * MILLIS_PER_SECOND;
      Requeue(timer);
    }

    /** Run a popped timer, and put it back or retire it. */
    method RunPopped(timer: CircTimer, scheduleTimeMs: int)
      requires Between(timer) && Live(timer) && !timer.cancelled && CountIs(timer, timer.tickCount)
      modifies this`timerMap, this`activeTimers, this`history
      modifies timers, (set t: CircTimer | t in timers.items)`index, timer
      ensures Valid() && timer.tickCount == old(timer.tickCount) + 1
      ensures history ==
              old(history).(log := old(history).log + [Fire(timer.id, old(timer.nextTimeMs), scheduleTimeMs)])
      ensures if timer.maxTickCount > 0 && timer.tickCount >= timer.maxTickCount then
                timers.items == old(timers.items)
              else
                && (forall u :: u in timers.items <==> u in old(timers.items) || u == timer)
                && timer.nextTimeMs == scheduleTimeMs + timer.interval * MILLIS_PER_SECOND
    {
      ExecuteTimer(timer, scheduleTimeMs);
      HandleRecurringTimer(timer, scheduleTimeMs);
    }

    /** One turn of the tick loop: pop the least timer, run it, and put it back
      * or retire it. */
    method FireOne(nowMs: int)
      requires Valid() && |timers.items| > 0 && timers.items[0].nextTimeMs <= nowMs
      modifies this`timerMap, this`activeTimers, this`history, timers, (set t: CircTimer | t in timers.items)
      ensures Valid() && old(timers.items[0]).interval > 0
      ensures var t, intervalMs := old(timers.items[0]), old(timers.items[0]).interval * MILLIS_PER_SECOND;
              var s := Schedule(old(t.nextTimeMs), intervalMs, nowMs);
              && t.tickCount == old(t.tickCount) + 1
              && history == old(history).(log := old(history).log + [Fire(t.id, old(t.nextTimeMs), s)])
              && (t in timers.items <==> !(t.maxTickCount > 0 && t.tickCount >= t.maxTickCount))
              && (t in timers.items ==> t.nextTimeMs == s + intervalMs)
              && (forall u :: u in old(timers.items) && u != t ==>
                    u in timers.items && u.nextTimeMs == old(u.nextTimeMs) && u.tickCount == old(u.tickCount))
              && (forall u :: u in timers.items ==> u in old(timers.items))
    {
      var timer := PopLeast();
      if timer.cancelled {
        assert false;
      }
      RunPopped(timer, Schedule(timer.nextTimeMs, timer.interval * MILLIS_PER_SECOND, nowMs));
    }

    /** Relative to `was`, the timers before this tick: those in `fires` have had
      * one callback, and are retired or due later than now; the others are as
      * they were. */
    ghost predicate Progress(was: map<CircTimer, Snapshot>, fires: seq<CircTimer>, nowMs: int)
      reads timers, was.Keys
    {
      && (forall t :: t in timers.items ==> t in was)
      && (forall t :: t in was ==> if t in fires then Served(t, was[t], nowMs) else Untouched(t, was[t]))
    }

    ghost predicate Untouched(t: CircTimer, was: Snapshot)
      reads timers, t
    {
      t in timers.items && t.nextTimeMs == was.dueMs && t.tickCount == was.ticks
    }

    ghost predicate Served(t: CircTimer, was: Snapshot, nowMs: int)
      reads timers, t
    {
      && t.tickCount == was.ticks + 1 && t.interval > 0
      && (t in timers.items <==> !(t.maxTickCount > 0 && t.tickCount >= t.maxTickCount))
      && (t in timers.items ==>
            && t.nextTimeMs == DueFire(t, was.dueMs, nowMs).scheduleMs + t.interval * MILLIS_PER_SECOND
            && nowMs < t.nextTimeMs <= nowMs + t.interval * MILLIS_PER_SECOND)
    }

    /** A timer that ran and stays keeps its phase: its next time is a whole
      * number of intervals after the one it was due at, the least past now. */
    lemma ServedKeepsPhase(t: CircTimer, was: Snapshot, nowMs: int)
      requires was.dueMs <= nowMs && Served(t, was, nowMs) && t in timers.items
      ensures exists periods: nat ::
                periods > 0 && t.nextTimeMs == was.dueMs + periods * (t.interval * 1000)
      ensures nowMs < t.nextTimeMs <= nowMs + t.interval * 1000
    {
      var intervalMs := t.interval * MILLIS_PER_SECOND;
      CatchUp(was.dueMs, intervalMs, nowMs);
      var periods: nat :| Schedule(was.dueMs, intervalMs, nowMs) == was.dueMs + periods * intervalMs;
      assert t.nextTimeMs == was.dueMs + (periods + 1) * intervalMs;
    }

    lemma HeadIsLeast()
      requires timers.Valid() && |timers.items| > 0
      ensures forall t :: t in timers.items ==> timers.items[0].nextTimeMs <= t.nextTimeMs
    {
      forall t | t in timers.items ensures timers.items[0].nextTimeMs <= t.nextTimeMs {
        var i :| 0 <= i < |timers.items| && timers.items[i] == t;
        RootIsLeast(timers.Keys(), i);
      }
    }

    /** The head of the heap, when due, is the next timer to run. */
    lemma HeadIsNext(was: map<CircTimer, Snapshot>, fires: seq<CircTimer>, nowMs: int)
      requires timers.Valid() && |timers.items| > 0 && Progress(was, fires, nowMs)
      ensures var head := timers.items[0];
              if head.nextTimeMs <= nowMs then
                && head in was && head !in fires && was[head].dueMs == head.nextTimeMs
                && forall t :: t in was && t !in fires ==> was[head].dueMs <= was[t].dueMs
              else
                forall t :: t in was && was[t].dueMs <= nowMs ==> t in fires
    {
      HeadIsLeast();
      var head := timers.items[0];
      assert head in was && (head in fires ==> Served(head, was[head], nowMs));
      forall t | t in was && t !in fires ensures head.nextTimeMs <= was[t].dueMs {
        assert Untouched(t, was[t]);
      }
    }

    /** One turn of the loop, for the timer that runs and for the others. */
    method ServeHead(ghost was: Snapshot, nowMs: int)
      requires Valid() && |timers.items| > 0 && timers.items[0].nextTimeMs <= nowMs
      requires Untouched(timers.items[0], was)
      modifies this`timerMap, this`activeTimers, this`history, timers, (set t: CircTimer | t in timers.items)
      ensures Valid() && Served(old(timers.items[0]), was, nowMs)
      ensures forall t :: t in timers.items ==> t in old(timers.items)
      ensures forall t :: t in old(timers.items) && t != old(timers.items[0]) ==>
                t in timers.items && t.nextTimeMs == old(t.nextTimeMs) && t.tickCount == old(t.tickCount)
      ensures history.log == old(history.log) + [DueFire(old(timers.items[0]), was.dueMs, nowMs)]
    {
      ghost var head := timers.items[0];
      assert Live(head);
      CatchUp(head.nextTimeMs, head.interval * MILLIS_PER_SECOND, nowMs);
      FireOne(nowMs);
    }

    /** One turn of the loop, seen from the start of the tick. */
    method RunHead(ghost was: map<CircTimer, Snapshot>, ghost fires: seq<CircTimer>, nowMs: int)
      requires Valid() && |timers.items| > 0 && timers.items[0].nextTimeMs <= nowMs
      requires Progress(was, fires, nowMs) && timers.items[0] in was && timers.items[0] !in fires
      requires was[timers.items[0]].dueMs == timers.items[0].nextTimeMs
      modifies this`timerMap, this`activeTimers, this`history, timers, (set t: CircTimer | t in timers.items)
      ensures Valid() && forall t :: t in timers.items ==> t in old(timers.items)
      ensures Progress(was, fires + [old(timers.items[0])], nowMs)
      ensures history.log == old(history.log) + [DueFire(old(timers.items[0]), old(timers.items[0].nextTimeMs), nowMs)]
    {
      ghost var head := timers.items[0];
      assert Untouched(head, was[head]);
      ServeHead(was[head], nowMs);
      forall t | t in was
        ensures if t in fires + [head] then Served(t, was[t], nowMs) else Untouched(t, was[t])
      {
        assert old(if t in fires then Served(t, was[t], nowMs) else Untouched(t, was[t]));
      }
    }

    /** The tick so far: who has run, in what order, and the log they left. */
    ghost predicate Ticking(was: map<CircTimer, Snapshot>, fires: seq<CircTimer>, start: seq<Fire>, nowMs: int)
      reads this`history, timers, was.Keys
    {
      && FiringOrder(fires, was, nowMs) && Progress(was, fires, nowMs)
      && history.log == start + FireLog(fires, was, nowMs)
    }

    /** One turn of the loop, with the order kept. */
    method RunDue(ghost was: map<CircTimer, Snapshot>, ghost fires: seq<CircTimer>, ghost start: seq<Fire>, nowMs: int)
      requires Valid() && |timers.items| > 0 && timers.items[0].nextTimeMs <= nowMs
      requires Ticking(was, fires, start, nowMs)
      modifies this`timerMap, this`activeTimers, this`history, timers, (set t: CircTimer | t in timers.items)
      ensures Valid() && forall t :: t in timers.items ==> t in old(timers.items)
      ensures old(timers.items[0]) in was && old(timers.items[0]) !in fires
      ensures Ticking(was, fires + [old(timers.items[0])], start, nowMs)
    {
      HeadIsNext(was, fires, nowMs);
      FiringExtends(fires, was, nowMs, timers.items[0], start);
      RunHead(was, fires, nowMs);
    }

    /** When the loop ends, everything that was due has run. */
    lemma NothingLeft(was: map<CircTimer, Snapshot>, fires: seq<CircTimer>, nowMs: int)
      requires timers.Valid() && Progress(was, fires, nowMs)
      requires |timers.items| > 0 ==> timers.items[0].nextTimeMs > nowMs
      ensures forall t :: t in was && was[t].dueMs <= nowMs ==> t in fires
    {
      if |timers.items| > 0 {
        HeadIsNext(was, fires, nowMs);
      } else {
        forall t | t in was ensures t in fires {
          assert if t in fires then true else Untouched(t, was[t]);
        }
      }
    }

    ghost method Observe(nowMs: int) returns (was: map<CircTimer, Snapshot>)
      ensures forall t :: t in was <==> t in timers.items
      ensures forall t :: t in was ==> was[t] == Snapshot(t.nextTimeMs, t.tickCount)
      ensures Ticking(was, [], history.log, nowMs)
    {
      was := map t | t in timers.items :: Snapshot(t.nextTimeMs, t.tickCount);
      assert history.log + FireLog([], was, nowMs) == history.log;
    }

    /** One tick: every timer that was due runs once, earliest first, and what
      * survives is due within one interval from now. */
    method ProcessTickers(nowMs: int) returns (ghost was: map<CircTimer, Snapshot>, ghost fires: seq<CircTimer>)
      requires Valid()
      modifies this`timerMap, this`activeTimers, this`history, this`lastProcessTime
      modifies timers, (set t: CircTimer | t in timers.items)
      ensures Valid() && lastProcessTime == nowMs
      ensures forall t :: t in was <==> t in old(timers.items)
      ensures forall t :: t in was ==> was[t] == old(Snapshot(t.nextTimeMs, t.tickCount))
      ensures forall t :: t in fires <==> t in was && was[t].dueMs <= nowMs
      ensures Ticking(was, fires, old(history.log), nowMs)
    {
      lastProcessTime := nowMs;
      was, fires := RunAllDue(nowMs);
    }

    method RunAllDue(nowMs: int) returns (ghost was: map<CircTimer, Snapshot>, ghost fires: seq<CircTimer>)
      requires Valid()
      modifies this`timerMap, this`activeTimers, this`history
      modifies timers, (set t: CircTimer | t in timers.items)
      ensures Valid()
      ensures forall t :: t in was <==> t in old(timers.items)
      ensures forall t :: t in was ==> was[t] == old(Snapshot(t.nextTimeMs, t.tickCount))
      ensures forall t :: t in fires <==> t in was && was[t].dueMs <= nowMs
      ensures Ticking(was, fires, old(history.log), nowMs)
    {
      fires := [];
      was := Observe(nowMs);
      ghost var due := was.Keys;
      while |timers.items| > 0
        invariant Valid() && forall t :: t in timers.items ==> t in old(timers.items)
        invariant Ticking(was, fires, old(history.log), nowMs)
        invariant forall t :: t in due <==> t in was && t !in fires
        decreases due
      {
        if timers.items[0].nextTimeMs > nowMs { break; }
        ghost var timer := timers.items[0];
        RunDue(was, fires, old(history.log), nowMs);
        fires, due := fires + [timer], due - {timer};
      }
      NothingLeft(was, fires, nowMs);
    }

    method Start()
      modifies this`running
      ensures running
    {
      if running { return; }
      running := true;
    }

    /** Stop cancels the context, for good. */
    method Stop()
      modifies this`running, this`done
      ensures !running && done == (old(done) || old(running))
    {
      if !running { return; }
      running, done := false, true;
    }

    /** AddTimer: checks, then a place in the add channel; when both that and the
      * cancelled context are ready, either is taken. */
    method AddTimer(firstSeconds: int, intervalSeconds: int, tickCount: int, hasFunc: bool, nowMs: int)
      returns (id: int, err: Option<AddError>)
      requires Valid()
      modifies this`timerId, this`addChan
      ensures Valid()
      ensures err == Some(InvalidInterval) <==> running && intervalSeconds <= 0
      ensures err == Some(InvalidTickCount) <==> running && intervalSeconds > 0 && tickCount < 0
      ensures err == Some(NilFunc) <==> running && intervalSeconds > 0 && tickCount >= 0 && !hasFunc
      ensures var offered := running && intervalSeconds > 0 && tickCount >= 0 && hasFunc;
              && timerId == old(timerId) + (if offered then 1 else 0)
              && (err.None? ==> offered && |old(addChan)| < buffer)
              && (err == Some(ManagerStopped) ==> !running || (offered && done))
              && (err == Some(ChannelFull) ==> offered && |old(addChan)| >= buffer && !done)
      ensures err.Some? ==> addChan == old(addChan) && id == 0
      ensures err.None? ==>
                && |addChan| == |old(addChan)| + 1 && addChan[..|old(addChan)|] == old(addChan)
                && fresh(addChan[|old(addChan)|]) && id == addChan[|old(addChan)|].id
                && addChan[|old(addChan)|].maxTickCount == tickCount
                && addChan[|old(addChan)|].interval == intervalSeconds
                && addChan[|old(addChan)|].nextTimeMs == nowMs + firstSeconds * 1000
                && id !in history.limits && forall t :: t in old(addChan) ==> t.id != id
    {
      id, err := 0, None;
      if !running { return 0, Some(ManagerStopped); }
      if intervalSeconds <= 0 { return 0, Some(InvalidInterval); }
      if tickCount < 0 { return 0, Some(InvalidTickCount); }
      if !hasFunc { return 0, Some(NilFunc); }
      timerId := timerId + 1;
      var choice: bool := *;
      err := Offered(|addChan| < buffer, done, choice);
      if err.Some? { return; }
      Enqueue(tickCount, intervalSeconds, nowMs + firstSeconds * MILLIS_PER_SECOND);
      id := timerId;
    }

    /** A timer under the newest id goes into the add channel. */
    method Enqueue(tickCount: nat, intervalSeconds: int, nextTimeMs: int)
      requires Valid() && intervalSeconds > 0 && timerId !in history.limits
      requires forall t: CircTimer :: t in addChan ==> t.id != timerId
      modifies this`addChan
      ensures Valid() && |addChan| == |old(addChan)| + 1 && addChan[..|old(addChan)|] == old(addChan)
      ensures var t := addChan[|old(addChan)|];
              && fresh(t) && t.id == timerId && t.maxTickCount == tickCount && t.interval == intervalSeconds
              && t.nextTimeMs == nextTimeMs
    {
      var timer := new CircTimer(timerId, tickCount, intervalSeconds, nextTimeMs);
      addChan := addChan + [timer];
    }

    method CancelTimer(id: int) returns (err: Option<AddError>)
      modifies this`cancelChan
      ensures !running ==> err == Some(ManagerStopped)
      ensures err.None? ==> running && |old(cancelChan)| < buffer
      ensures err == Some(ManagerStopped) ==> !running || done
      ensures err == Some(ChannelFull) ==> running && |old(cancelChan)| >= buffer && !done
      ensures err.None? || err == Some(ManagerStopped) || err == Some(ChannelFull)
      ensures cancelChan == if err.None? then old(cancelChan) + [id] else old(cancelChan)
    {
      if !running { return Some(ManagerStopped); }
      var choice: bool := *;
      err := Offered(|cancelChan| < buffer, done, choice);
      if err.None? { cancelChan := cancelChan + [id]; }
    }

    /** The main loop takes an add. */
    method AddTimerInternal(nowMs: int)
      requires Valid() && |addChan| > 0
      modifies this`addChan, this`timerMap, this`activeTimers, this`history
      modifies timers, addChan[0], (set t: CircTimer | t in timers.items)`index
      ensures Valid() && addChan == old(addChan)[1..]
      ensures history.log == old(history.log) && history.cancelledAt == old(history.cancelledAt)
      ensures var t := old(addChan[0]);
              && t.nextTimeMs == (if old(t.nextTimeMs) == 0 then nowMs + t.interval * MILLIS_PER_SECOND
                                   else old(t.nextTimeMs))
              && t.tickCount == 0 && timerMap == old(timerMap)[t.id := t]
              && forall u :: u in timers.items <==> u in old(timers.items) || u == t
    {
      var timer := Take(nowMs);
      Install(timer);
    }

    /** A new timer enters history, map and heap. */
    method Install(timer: CircTimer)
      requires Valid() && IsNew(timer)
      modifies this`timerMap, this`activeTimers, this`history
      modifies timers, timer`index, (set t: CircTimer | t in timers.items)`index
      ensures Valid() && timerMap == old(timerMap)[timer.id := timer]
      ensures history == old(history).(limits := old(history).limits[timer.id := timer.maxTickCount])
      ensures forall u :: u in timers.items <==> u in old(timers.items) || u == timer
    {
      Admit(timer);
      Adopt(timer);
      Requeue(timer);
    }

    /** Out of the add channel, with its first time set when it has none. */
    method Take(nowMs: int) returns (timer: CircTimer)
      requires Valid() && |addChan| > 0
      modifies this`addChan, (set t: CircTimer | t in addChan[..1])`nextTimeMs
      ensures Valid() && timer == old(addChan[0]) && addChan == old(addChan)[1..] && IsNew(timer)
      ensures timer.nextTimeMs == if old(addChan[0].nextTimeMs) == 0 then nowMs + timer.interval * MILLIS_PER_SECOND
                                  else old(addChan[0].nextTimeMs)
    {
      timer := Receive();
      if timer.nextTimeMs == 0 { Delay(timer, nowMs); }
    }

    /** A timer nobody has heard of, under an id given out already. */
    ghost predicate IsNew(timer: CircTimer)
      reads this`history, this`timerId, this`addChan, timers, timer
    {
      && timer.id !in history.limits && timer.id <= timerId && timer !in timers.items
      && timer.tickCount == 0 && timer.interval > 0 && !timer.cancelled
      && forall t: CircTimer :: t in addChan ==> t.id != timer.id
    }

    method Receive() returns (timer: CircTimer)
      requires Valid() && |addChan| > 0
      modifies this`addChan
      ensures Valid() && timer == old(addChan[0]) && addChan == old(addChan)[1..] && IsNew(timer)
    {
      timer := addChan[0];
      addChan := addChan[1..];
    }

    method Delay(timer: CircTimer, nowMs: int)
      requires Valid() && IsNew(timer)
      modifies timer`nextTimeMs
      ensures Valid() && IsNew(timer) && timer.nextTimeMs == nowMs + timer.interval * MILLIS_PER_SECOND
    {
      timer.nextTimeMs := nowMs + timer.interval * MILLIS_PER_SECOND;
      timers.Unmoved();
    }

    ghost method Admit(timer: CircTimer)
      requires Valid() && timer.id !in history.limits && timer.id <= timerId
      requires forall t: CircTimer :: t in addChan ==> t.id != timer.id
      modifies this`history
      ensures Valid() && CountIs(timer, 0) && timer.id !in timerMap && timer.id !in history.cancelledAt
      ensures history == old(history).(limits := old(history).limits[timer.id := timer.maxTickCount])
    {
      AdmitRecords(timer);
      history := history.(limits := history.limits[timer.id := timer.maxTickCount]);
    }

    /** The history once `timer` has been admitted is one of the timers too. */
    lemma AdmitRecords(timer: CircTimer)
      requires Valid() && timer.id !in history.limits && timer.id <= timerId
      requires forall t: CircTimer :: t in addChan ==> t.id != timer.id
      ensures var h := history.(limits := history.limits[timer.id := timer.maxTickCount]);
              Recorded(h) && CountsTo(h, timer, 0)
    {
      AddingIsSound(history, timerMap.Keys, timer.id, timer.maxTickCount);
    }

    /** The map entry of a new timer, whose id is never taken already; with the push it is one step under the mutex. */
    method Adopt(timer: CircTimer)
      requires Valid() && CountIs(timer, 0) && timer.id !in timerMap && timer.id !in history.cancelledAt
      requires timer !in timers.items
      modifies this`timerMap, this`activeTimers
      ensures Between(timer) && timerMap == old(timerMap)[timer.id := timer]
    {
      if timer.id in timerMap {
        assert false;
      }
      timerMap := timerMap[timer.id := timer];
      activeTimers := activeTimers + 1;
    }

    /** The main loop takes a cancel. */
    method CancelTimerInternal()
      requires Valid() && |cancelChan| > 0
      modifies this`cancelChan, this`timerMap, this`activeTimers, this`history
      modifies timers, (set t: CircTimer | t in timers.items)`index, (set t: CircTimer | t in timers.items)`cancelled
      ensures Valid() && cancelChan == old(cancelChan)[1..]
      ensures history.log == old(history.log)
      ensures var id := old(cancelChan[0]);
              if id in old(timerMap) then
                && timerMap == old(timerMap) - {id} && old(timerMap)[id].cancelled
                && history.cancelledAt == old(history.cancelledAt)[id := |history.log|]
                && forall t :: t in timers.items <==> t in old(timers.items) && t != old(timerMap)[id]
              else
                timerMap == old(timerMap) && timers.items == old(timers.items) && history == old(history)
    {
      var id := cancelChan[0];
      cancelChan := cancelChan[1..];
      if id !in timerMap { return; }
      Withdraw(timerMap[id]);
    }

    /** A queued add and its own cancel, taken by the main loop in either order:
      * the cancel has its effect exactly when the add is taken first.  Taken
      * first, it is lost, and the timer goes on to run. */
    method TakeAddAndCancel(cancelFirst: bool, nowMs: int)
      requires Valid() && |addChan| > 0 && |cancelChan| > 0 && cancelChan[0] == addChan[0].id
      modifies this`addChan, this`cancelChan, this`timerMap, this`activeTimers, this`history
      modifies timers, addChan[0]
      modifies (set t: CircTimer | t in timers.items)`index, (set t: CircTimer | t in timers.items)`cancelled
      ensures Valid() && addChan == old(addChan)[1..] && cancelChan == old(cancelChan)[1..]
      ensures old(addChan[0]) in timers.items <==> cancelFirst
      ensures old(addChan[0].id) in history.cancelledAt <==> !cancelFirst
    {
      if cancelFirst {
        CancelTimerInternal();
        AddTimerInternal(nowMs);
      } else {
        AddTimerInternal(nowMs);
        CancelTimerInternal();
      }
    }

    method Withdraw(timer: CircTimer)
      requires Valid() && timer in timers.items
      modifies this`timerMap, this`activeTimers, this`history
      modifies timers, (set t: CircTimer | t in timers.items)`index, timer`cancelled
      ensures Valid() && timer.cancelled && timerMap == old(timerMap) - {timer.id}
      ensures history == old(history).(cancelledAt := old(history).cancelledAt[timer.id := |history.log|])
      ensures forall t :: t in timers.items <==> t in old(timers.items) && t != timer
    {
      Delist(timer);
      NoteCancelled(timer.id);
    }

    /** A cancelled timer leaves the heap and the map. */
    method Delist(timer: CircTimer)
      requires Valid() && timer in timers.items
      modifies this`timerMap, this`activeTimers
      modifies timers, (set t: CircTimer | t in timers.items)`index, timer`cancelled
      ensures Valid() && timer.cancelled && timerMap == old(timerMap) - {timer.id} && timer.id in history.limits
      ensures forall t :: t in timers.items <==> t in old(timers.items) && t != timer
    {
      MarkCancelled(timer);
      Unschedule(timer);
      Retire(timer);
    }

    ghost method NoteCancelled(id: int)
      requires Valid() && id in history.limits && id !in timerMap
      modifies this`history
      ensures Valid()
      ensures history == old(history).(cancelledAt := old(history).cancelledAt[id := |history.log|])
    {
      CancellingIsSound(history, timerMap.Keys, id);
      history := history.(cancelledAt := history.cancelledAt[id := |history.log|]);
    }

    method MarkCancelled(timer: CircTimer)
      requires Valid() && timer in timers.items
      modifies timer`cancelled
      ensures Wired() && timer.cancelled && forall t :: t in timers.items && t != timer ==> !t.cancelled
    {
      timer.cancelled := true;
      timers.Unmoved();
    }

    /** The guarded heap.Remove of a cancel; the guard always holds. */
    method Unschedule(timer: CircTimer)
      requires Wired() && timer in timers.items && forall t :: t in timers.items && t != timer ==> !t.cancelled
      modifies timers, (set t: CircTimer | t in timers.items)`index
      ensures Between(timer)
      ensures forall t :: t in timers.items <==> t in old(timers.items) && t != timer
    {
      if 0 <= timer.index < |timers.items| {
        var removed := timers.Remove(timer.index);
      }
    }
  }

  /** A send on a channel with or without room, beside a context done or not;
    * `choice` settles it when both are ready. */
  function Offered(room: bool, done: bool, choice: bool): Option<AddError> {
    if room && (!done || choice) then None
    else if done then Some(ManagerStopped)
    else Some(ChannelFull)
  }

  datatype Snapshot = Snapshot(dueMs: int, ticks: nat)

  function DueFire(t: CircTimer, dueMs: int, nowMs: int): Fire {
    Fire(t.id, dueMs, if t.interval > 0 then Schedule(dueMs, t.interval * MILLIS_PER_SECOND, nowMs) else dueMs)
  }

  function FireLog(fires: seq<CircTimer>, was: map<CircTimer, Snapshot>, nowMs: int): seq<Fire>
    requires forall t :: t in fires ==> t in was
  {
    seq(|fires|, i requires 0 <= i < |fires| => DueFire(fires[i], was[fires[i]].dueMs, nowMs))
  }

  /** Each due timer at most once, in order of the time it was due, and nothing
    * that was due earlier left out. */
  ghost predicate FiringOrder(fires: seq<CircTimer>, was: map<CircTimer, Snapshot>, nowMs: int) {
    && (forall t :: t in fires ==> t in was && was[t].dueMs <= nowMs)
    && (forall i, j :: 0 <= i < j < |fires| ==> fires[i] != fires[j] && was[fires[i]].dueMs <= was[fires[j]].dueMs)
    && (forall f, t :: f in fires && t in was && t !in fires ==> was[f].dueMs <= was[t].dueMs)
  }

  lemma FiringExtends(fires: seq<CircTimer>, was: map<CircTimer, Snapshot>, nowMs: int,
                      timer: CircTimer, start: seq<Fire>)
    requires FiringOrder(fires, was, nowMs) && timer in was && timer !in fires && was[timer].dueMs <= nowMs
    requires forall t :: t in was && t !in fires ==> was[timer].dueMs <= was[t].dueMs
    ensures FiringOrder(fires + [timer], was, nowMs)
    ensures start + FireLog(fires + [timer], was, nowMs)
         == start + FireLog(fires, was, nowMs) + [DueFire(timer, was[timer].dueMs, nowMs)]
  {
    var next := fires + [timer];
    forall i, j | 0 <= i < j < |next|
      ensures next[i] != next[j] && was[next[i]].dueMs <= was[next[j]].dueMs
    {
      assert next[i] in fires;
      if j < |fires| { assert next[j] == fires[j]; }
    }
  }
}
