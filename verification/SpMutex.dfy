/** The spinning read-write lock (deps/xsync/sp_mutex.go): one word, whose low
  * bit is the writer and whose other bits count readers. */
module SpMutex {

  const READ_ADD_MIN := 2

  /** Go's state &^ 1. */
  function ClearWriterBit(state: int): int {
    state - state % 2
  }

  /** The word as one thread at a time sees it. */
  class SPMutex {
    var state: int
    ghost var writer: bool
    ghost var readers: nat

    ghost predicate Valid()
      reads this
    {
      state == (if writer then 1 else 0) + READ_ADD_MIN * readers && !(writer && readers > 0)
    }

    constructor ()
      ensures Valid() && !writer && readers == 0
    {
      state, writer, readers := 0, false, 0;
    }

    method CompareAndSwap(before: int, after: int) returns (ok: bool)
      modifies this`state
      ensures ok == (old(state) == before) && state == if ok then after else old(state)
    {
      ok := state == before;
      if ok { state := after; }
    }

    method TryLock() returns (ok: bool)
      requires Valid()
      modifies this
      ensures Valid() && ok == (!old(writer) && old(readers) == 0)
      ensures writer == (old(writer) || ok) && readers == old(readers)
    {
      ok := CompareAndSwap(0, 1);
      writer := writer || ok;
    }

    /** Reports false, and changes nothing, when no writer holds the lock. */
    method Unlock() returns (ok: bool)
      requires Valid()
      modifies this
      ensures Valid() && ok == old(writer) && !writer && readers == old(readers)
    {
      ok := CompareAndSwap(1, 0);
      if ok { writer := false; }
    }

    method TryRLock() returns (ok: bool)
      requires Valid()
      modifies this
      ensures Valid() && ok == !old(writer)
      ensures writer == old(writer) && readers == old(readers) + if ok then 1 else 0
    {
      var before := ClearWriterBit(state);
      ok := CompareAndSwap(before, before + READ_ADD_MIN);
      if ok { readers := readers + 1; }
    }

    /** A negative result reports an unlock nobody was entitled to; every such
      * call is reported and no other. */
    method RUnlock() returns (v: int)
      requires Valid()
      modifies this
      ensures v == state && (v < 0 <==> old(readers) == 0)
      ensures old(readers) > 0 ==> Valid() && writer == old(writer) && readers == old(readers) - 1
    {
      state := state - READ_ADD_MIN;
      v := state;
      if readers > 0 { readers := readers - 1; }
    }
  }

  // ---------------------------------------------------------------------
  // Any number of threads, with the plain read and the swap apart

  datatype Thread = Idle | Read(seen: int) | Reading | Writing

  datatype Sys = Sys(state: int, threads: map<nat, Thread>)

  datatype Step =
    | Acquire(thread: nat)
    | Release(thread: nat)
    | LoadState(thread: nat)
    | SwapIn(thread: nat)
    | ReadRelease(thread: nat)

  function At(s: Sys, k: nat): Thread {
    if k in s.threads then s.threads[k] else Idle
  }

  function Cas(state: int, before: int, after: int): int {
    if state == before then after else state
  }

  /** Lock discipline: only holders release.  A failed swap leaves the thread
    * where a retry loop, or a Try that gives up, would have it. */
  ghost predicate Next(s: Sys, step: Step, t: Sys) {
    match step
    case Acquire(k) =>
      && At(s, k).Idle?
      && t == Sys(Cas(s.state, 0, 1), s.threads[k := if s.state == 0 then Writing else Idle])
    case Release(k) =>
      && At(s, k).Writing?
      && t == Sys(Cas(s.state, 1, 0), s.threads[k := if s.state == 1 then Idle else Writing])
    case LoadState(k) =>
      && At(s, k).Idle?
      && t == s.(threads := s.threads[k := Read(s.state)])
    case SwapIn(k) =>
      && At(s, k).Read?
      && var before := ClearWriterBit(At(s, k).seen);
         t == Sys(Cas(s.state, before, before + READ_ADD_MIN),
                  s.threads[k := if s.state == before then Reading else Idle])
    case ReadRelease(k) =>
      && At(s, k).Reading?
      && t == Sys(s.state - READ_ADD_MIN, s.threads[k := Idle])
  }

  function Readers(s: Sys): set<nat> {
    set k | k in s.threads && s.threads[k].Reading?
  }

  function Writers(s: Sys): set<nat> {
    set k | k in s.threads && s.threads[k].Writing?
  }

  /** The word is the writer bit plus twice the number of readers, and a writer
    * is alone. */
  ghost predicate Inv(s: Sys) {
    && s.state == |Writers(s)| + READ_ADD_MIN * |Readers(s)|
    && |Writers(s)| <= 1
    && (Writers(s) != {} ==> Readers(s) == {})
  }

  lemma SetsAfter(s: Sys, k: nat, thread: Thread, state: int)
    ensures var t := Sys(state, s.threads[k := thread]);
            && Readers(t) == (if thread.Reading? then Readers(s) + {k} else Readers(s) - {k})
            && Writers(t) == (if thread.Writing? then Writers(s) + {k} else Writers(s) - {k})
  {
  }

  lemma AcquireKeeps(s: Sys, k: nat, t: Sys)
    requires Inv(s) && Next(s, Acquire(k), t)
    ensures Inv(t)
  {
    SetsAfter(s, k, At(t, k), t.state);
    assert k !in Readers(s) && k !in Writers(s);
    if s.state == 0 {
      assert |Writers(s)| == 0 && |Readers(s)| == 0;
    }
  }

  lemma ReleaseKeeps(s: Sys, k: nat, t: Sys)
    requires Inv(s) && Next(s, Release(k), t)
    ensures Inv(t)
  {
    SetsAfter(s, k, At(t, k), t.state);
    assert k in Writers(s) && Readers(s) == {};
    assert |Writers(s)| == 1 && |Readers(s)| == 0;
  }

  lemma EvenIsUnwritten(s: Sys, seen: int)
    requires Inv(s) && s.state == ClearWriterBit(seen)
    ensures Writers(s) == {}
  {
    var w, r := |Writers(s)|, |Readers(s)|;
    assert (w + READ_ADD_MIN * r) % 2 == w;
  }

  lemma SwapInKeeps(s: Sys, k: nat, t: Sys)
    requires Inv(s) && Next(s, SwapIn(k), t)
    ensures Inv(t)
  {
    SetsAfter(s, k, At(t, k), t.state);
    assert k !in Readers(s) && k !in Writers(s);
    if At(t, k).Reading? { EvenIsUnwritten(s, At(s, k).seen); }
  }

  lemma ReadReleaseKeeps(s: Sys, k: nat, t: Sys)
    requires Inv(s) && Next(s, ReadRelease(k), t)
    ensures Inv(t)
  {
    SetsAfter(s, k, Idle, t.state);
    assert k in Readers(s) && k !in Writers(s);
  }

  lemma InvStep(s: Sys, step: Step, t: Sys)
    requires Inv(s) && Next(s, step, t)
    ensures Inv(t)
  {
    match step {
      case Acquire(k) => AcquireKeeps(s, k, t);
      case Release(k) => ReleaseKeeps(s, k, t);
      case LoadState(k) =>
        SetsAfter(s, k, Read(s.state), s.state);
        assert k !in Readers(s) && k !in Writers(s);
      case SwapIn(k) => SwapInKeeps(s, k, t);
      case ReadRelease(k) => ReadReleaseKeeps(s, k, t);
    }
  }

  ghost predicate IsRun(run: seq<Sys>, steps: seq<Step>) {
    && |run| == |steps| + 1 && run[0] == Sys(0, map[])
    && forall i :: 0 <= i < |steps| ==> Next(run[i], steps[i], run[i + 1])
  }

  lemma {:induction false} EveryRun(run: seq<Sys>, steps: seq<Step>, n: nat)
    requires IsRun(run, steps) && n < |run|
    ensures Inv(run[n])
  {
    if n > 0 {
      EveryRun(run, steps, n - 1);
      assert Next(run[n - 1], steps[n - 1], run[n - 1 + 1]);
      InvStep(run[n - 1], steps[n - 1], run[n]);
    }
  }

  lemma TwoMembers(ks: set<nat>, j: nat, k: nat)
    requires j in ks && k in ks && j != k
    ensures |ks| >= 2
  {
    assert ks == ks - {j, k} + {j, k};
  }

  /** In every run: a writer excludes every other holder, the holder's Unlock
    * succeeds, and a reader's RUnlock never reports. */
  lemma Exclusion(run: seq<Sys>, steps: seq<Step>, n: nat, j: nat, k: nat)
    requires IsRun(run, steps) && n < |run|
    ensures At(run[n], j).Writing? && j != k ==> !At(run[n], k).Writing? && !At(run[n], k).Reading?
    ensures At(run[n], j).Writing? ==> run[n].state == 1
    ensures At(run[n], j).Reading? ==> run[n].state - READ_ADD_MIN >= 0
  {
    EveryRun(run, steps, n);
    var s := run[n];
    if At(s, j).Writing? {
      assert j in Writers(s);
      if At(s, k).Writing? && j != k { TwoMembers(Writers(s), j, k); }
      assert k !in Readers(s);
      assert Readers(s) == {} && |Readers(s)| == 0;
      assert |Writers(s)| != 0;
    }
    if At(s, j).Reading? {
      assert j in Readers(s);
      assert |Readers(s)| != 0;
    }
  }

  /** What a thread has read stays with it until it swaps. */
  lemma {:induction false} SeenIsKept(run: seq<Sys>, steps: seq<Step>, i: nat, n: nat, k: nat)
    requires IsRun(run, steps) && i < n <= |steps| && steps[i] == LoadState(k)
    requires forall m :: i < m < n ==> steps[m].thread != k
    ensures At(run[n], k) == Read(run[i].state)
    decreases n
  {
    assert Next(run[n - 1], steps[n - 1], run[n - 1 + 1]);
    if i + 1 < n {
      SeenIsKept(run, steps, i, n - 1, k);
      assert steps[n - 1].thread != k;
    }
  }

  /** A read lock is got by a read and a swap, with others in between, if and
    * only if at the swap there is no writer and there are as many readers as at
    * the read. */
  lemma ReadLockIff(run: seq<Sys>, steps: seq<Step>, i: nat, n: nat, k: nat)
    requires IsRun(run, steps) && i < n < |steps| && steps[i] == LoadState(k) && steps[n] == SwapIn(k)
    requires forall m :: i < m < n ==> steps[m].thread != k
    ensures At(run[n + 1], k).Reading? <==> Writers(run[n]) == {} && |Readers(run[n])| == |Readers(run[i])|
  {
    SeenIsKept(run, steps, i, n, k);
    EveryRun(run, steps, i);
    EveryRun(run, steps, n);
    assert Next(run[n], steps[n], run[n + 1]);
    BitsOf(run[i]);
    BitsOf(run[n]);
  }

  /** The write lock is got by its one swap if and only if nobody holds the lock. */
  lemma WriteLockIff(run: seq<Sys>, steps: seq<Step>, n: nat, k: nat)
    requires IsRun(run, steps) && n < |steps| && steps[n] == Acquire(k)
    ensures At(run[n + 1], k).Writing? <==> Writers(run[n]) == {} && Readers(run[n]) == {}
  {
    EveryRun(run, steps, n);
    assert Next(run[n], steps[n], run[n + 1]);
    if run[n].state == 0 {
      assert |Writers(run[n])| == 0 && |Readers(run[n])| == 0;
    }
  }

  /** A release gives the lock back: a writer leaves nobody holding it, and a
    * reader leaves the other readers. */
  lemma ReleaseFrees(run: seq<Sys>, steps: seq<Step>, n: nat, k: nat)
    requires IsRun(run, steps) && n < |steps|
    ensures steps[n] == Release(k) ==> Writers(run[n + 1]) == {} && Readers(run[n + 1]) == {}
    ensures steps[n] == ReadRelease(k) ==>
              Readers(run[n + 1]) == Readers(run[n]) - {k} && |Readers(run[n + 1])| == |Readers(run[n])| - 1
  {
    EveryRun(run, steps, n);
    assert Next(run[n], steps[n], run[n + 1]);
    if steps[n] == Release(k) || steps[n] == ReadRelease(k) {
      SetsAfter(run[n], k, At(run[n + 1], k), run[n + 1].state);
      assert run[n + 1] == Sys(run[n + 1].state, run[n].threads[k := At(run[n + 1], k)]);
      if steps[n] == Release(k) {
        OnlyWriter(run[n], k);
      } else {
        assert k in Readers(run[n]);
      }
    }
  }

  lemma OnlyWriter(s: Sys, k: nat)
    requires Inv(s) && At(s, k).Writing?
    ensures s.state == 1 && Writers(s) == {k} && Readers(s) == {}
  {
    assert k in Writers(s);
    forall j | j in Writers(s) ensures j == k {
      if j != k { TwoMembers(Writers(s), j, k); }
    }
    assert |Writers(s)| == 1 && |Readers(s)| == 0 by { assert Writers(s) == {k}; }
  }

  lemma BitsOf(s: Sys)
    requires Inv(s)
    ensures ClearWriterBit(s.state) == READ_ADD_MIN * |Readers(s)|
    ensures s.state == READ_ADD_MIN * |Readers(s)| <==> Writers(s) == {}
  {
    if Writers(s) == {} { assert |Writers(s)| == 0; } else { assert |Writers(s)| == 1; }
  }

  /** A reader that slips in between another reader's read and swap makes the
    * swap fail: TryRLock can fail with no writer ever about. */
  lemma ReadersMayFail()
    ensures exists run: seq<Sys>, steps: seq<Step> ::
              && IsRun(run, steps) && |steps| == 4 && steps[3] == SwapIn(1) && At(run[4], 1).Idle?
              && forall i :: 0 <= i < |run| ==> Writers(run[i]) == {}
  {
    var s0, s1 := Sys(0, map[]), Sys(0, map[1 := Read(0)]);
    var s2 := s1.(threads := s1.threads[2 := Read(0)]);
    var s3 := Sys(2, s2.threads[2 := Reading]);
    var s4 := s3.(threads := s3.threads[1 := Idle]);
    SlipIn(s0, s1, s2, s3, s4);
    var run, steps := [s0, s1, s2, s3, s4], [LoadState(1), LoadState(2), SwapIn(2), SwapIn(1)];
    FourSteps(run, steps);
    assert run[4] == s4 && steps[3] == SwapIn(1);
    forall i | 0 <= i < |run| ensures Writers(run[i]) == {} {
      assert run[i] in {s0, s1, s2, s3, s4};
    }
  }

  lemma FourSteps(run: seq<Sys>, steps: seq<Step>)
    requires |run| == 5 && |steps| == 4 && run[0] == Sys(0, map[])
    requires Next(run[0], steps[0], run[1]) && Next(run[1], steps[1], run[2])
    requires Next(run[2], steps[2], run[3]) && Next(run[3], steps[3], run[4])
    ensures IsRun(run, steps)
  {
  }

  lemma SlipIn(s0: Sys, s1: Sys, s2: Sys, s3: Sys, s4: Sys)
    requires s0 == Sys(0, map[]) && s1 == Sys(0, s0.threads[1 := Read(0)]) && s2 == Sys(0, s1.threads[2 := Read(0)])
    requires s3 == Sys(2, s2.threads[2 := Reading]) && s4 == Sys(2, s3.threads[1 := Idle])
    ensures Next(s0, LoadState(1), s1) && Next(s1, LoadState(2), s2)
    ensures Next(s2, SwapIn(2), s3) && Next(s3, SwapIn(1), s4) && At(s4, 1).Idle?
    ensures Writers(s0) == Writers(s1) == Writers(s2) == Writers(s3) == Writers(s4) == {}
  {
  }
}
