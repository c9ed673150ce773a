/** The lock-free id generator (deps/fastid/fastid.go).
  *
  * Shifts and masks of int64 values are written as products, Euclidean
  * quotients and remainders by powers of two, which is what they are for
  * two's complement. */
module FastId {
  import opened Basics

  const TICK_NANOS := 0x10_0000        // 2^20
  const DEFAULT_START_NANO := 1527811200000000000
  const INT32_SPAN := 0x8000_0000
  const INT64_SPAN := 0x8000_0000_0000_0000
  const NANOS_PER_MILLI := 1_000_000

  function Pow2(n: nat): (p: nat)
    ensures p > 0
  {
    if n == 0 then 1 else 2 * Pow2(n - 1)
  }

  /** Field widths as spans: 2^bits. */
  datatype Config = Config(times: nat, seqs: nat, machines: nat, machineId: int, startNano: int) {
    ghost predicate Valid() {
      && times > 0 && seqs > 0 && machines > 0 && 0 <= machineId < machines
      && times * seqs * machines <= INT64_SPAN
    }

    function GetSeqFromID(id: int): int
      requires seqs > 0 && machines > 0
    {
      id / machines % seqs
    }

    function GetTimeFromID(id: int): int
      requires seqs > 0 && machines > 0
    {
      id / (machines * seqs)
    }

    function GetMachineIDFromFastID(id: int): int
      requires machines > 0
    {
      Int32(id % machines)
    }

    /** Go's division truncates; the value is negative only for times before 1970. */
    function GetTimeMillFromFastID(id: int): int
      requires seqs > 0 && machines > 0
    {
      var nanos := id / (machines * seqs) * TICK_NANOS + startNano;
      if nanos >= 0 then nanos / NANOS_PER_MILLI else -(-nanos / NANOS_PER_MILLI)
    }

    /** getCurrentTimestamp at a clock reading. */
    function Tick(nanos: int): int
      requires times > 0
    {
      (nanos - startNano) / TICK_NANOS % times
    }

    function MinFastIdAt(unixMs: int): int
      requires times > 0
    {
      (unixMs * NANOS_PER_MILLI - startNano) / TICK_NANOS % times * (machines * seqs)
    }

    function Compose(now: int, nth: int): int {
      now * (machines * seqs) + nth * machines + machineId
    }

    /** One turn of the generating loop, from the last id it loaded and the tick
      * it then read; None when the tick's sequence numbers are used up. */
    function Attempt(last: int, now: int): Option<int>
      requires seqs > 0 && machines > 0
    {
      if now > GetTimeFromID(last) then Some(Compose(now, 0))
      else if GetSeqFromID(last) >= seqs - 1 then None
      else Some(Compose(now, GetSeqFromID(last) + 1))
    }

    /** The clock stays within the time field. */
    predicate InRange(nanos: int) {
      0 <= (nanos - startNano) / TICK_NANOS < times
    }
  }

  function ConstructConfigWithMachineID(timeBits: nat, seqBits: nat, machineBits: nat,
                                        machineId: int, startNano: int): Config {
    Config(Pow2(timeBits), Pow2(seqBits), Pow2(machineBits), machineId % Pow2(machineBits), startNano)
  }

  function CommonConfig(machineId: int): Config {
    ConstructConfigWithMachineID(40, 10, 13, machineId, DEFAULT_START_NANO)
  }

  lemma {:induction false} Pow2Add(a: nat, b: nat)
    ensures Pow2(a) * Pow2(b) == Pow2(a + b)
    decreases b
  {
    if b > 0 {
      Pow2Add(a, b - 1);
      assert Pow2(a) * Pow2(b) == 2 * (Pow2(a) * Pow2(b - 1));
    }
  }

  lemma {:induction false} Pow2Monotone(a: nat, b: nat)
    requires a <= b
    ensures Pow2(a) <= Pow2(b)
    decreases b
  {
    if a < b { Pow2Monotone(a, b - 1); }
  }

  lemma Pow2Of63()
    ensures Pow2(63) == INT64_SPAN
  {
    assert Pow2(10) == 1024;
    assert Pow2(20) == 1024 * 1024 by { Pow2Add(10, 10); }
    assert Pow2(40) == 1024 * 1024 * (1024 * 1024) by { Pow2Add(20, 20); }
    assert Pow2(60) == 1024 * 1024 * (1024 * 1024) * (1024 * 1024) by { Pow2Add(40, 20); }
    assert Pow2(3) == 8;
    Pow2Add(60, 3);
  }

  /** Any split of at most 63 bits is a valid layout; so is the common one. */
  lemma ConstructedIsValid(timeBits: nat, seqBits: nat, machineBits: nat, machineId: int, startNano: int)
    requires timeBits + seqBits + machineBits <= 63
    ensures ConstructConfigWithMachineID(timeBits, seqBits, machineBits, machineId, startNano).Valid()
  {
    Pow2Add(timeBits, seqBits);
    Pow2Add(timeBits + seqBits, machineBits);
    Pow2Monotone(timeBits + seqBits + machineBits, 63);
    Pow2Of63();
  }

  // ---------------------------------------------------------------------
  // Fields

  lemma Divides(x: int, q: int, d: int, r: int)
    requires x == q * d + r && 0 <= r < d
    ensures x / d == q && x % d == r
  {
    var e := x / d - q;
    assert e * d == r - x % d;
    assert e >= 1 ==> e * d >= d;
    assert e <= -1 ==> e * d <= -d;
  }

  /** Two-digit numbers in base d, in order and in range. */
  lemma DigitsOrdered(q: int, r: int, q': int, r': int, d: int)
    requires 0 <= r < d && 0 <= r' < d && (q < q' || (q == q' && r < r'))
    ensures q * d + r < q' * d + r'
  {
    var e := q' - q;
    assert q' * d - q * d == e * d;
    assert e >= 1 ==> e * d >= d;
  }

  lemma DigitsInRange(q: int, r: int, n: int, d: int)
    requires 0 <= q < n && 0 <= r < d
    ensures 0 <= q * d + r < n * d
  {
    DigitsOrdered(q, r, n, 0, d);
    assert 0 <= q * d;
  }

  lemma Compositions(c: Config, now: int, nth: int)
    ensures c.Compose(now, nth) == (now * c.seqs + nth) * c.machines + c.machineId
  {
    assert now * (c.machines * c.seqs) == now * c.seqs * c.machines;
  }

  /** Every field reads back what was composed; the machine id's getter narrows
    * to int32, which loses nothing exactly for ids below 2^31. */
  lemma FieldsDecode(c: Config, now: int, nth: int)
    requires c.Valid() && 0 <= nth < c.seqs
    ensures c.GetTimeFromID(c.Compose(now, nth)) == now
    ensures c.GetSeqFromID(c.Compose(now, nth)) == nth
    ensures c.Compose(now, nth) % c.machines == c.machineId
    ensures c.GetMachineIDFromFastID(c.Compose(now, nth)) == Int32(c.machineId)
    ensures c.GetMachineIDFromFastID(c.Compose(now, nth)) == c.machineId <==> c.machineId < INT32_SPAN
  {
    var id := c.Compose(now, nth);
    Compositions(c, now, nth);
    Divides(id, now * c.seqs + nth, c.machines, c.machineId);
    Divides(now * c.seqs + nth, now, c.seqs, nth);
    var low := nth * c.machines + c.machineId;
    DigitsInRange(nth, c.machineId, c.seqs, c.machines);
    Divides(id, now, c.machines * c.seqs, low);
  }

  /** The package's own layout: 40 bits of time, 10 of sequence, 13 of machine id,
    * whose machine id always reads back. */
  lemma CommonReadsBack(machineId: int, now: int, nth: int)
    requires 0 <= nth < 1024
    ensures var c := CommonConfig(machineId);
            && c.Valid() && c.seqs == 1024 && c.machines == 8192 && c.startNano == 1527811200000000000
            && c.GetMachineIDFromFastID(c.Compose(now, nth)) == machineId % 8192
  {
    var c := CommonConfig(machineId);
    ConstructedIsValid(40, 10, 13, machineId, DEFAULT_START_NANO);
    assert Pow2(10) == 1024;
    assert Pow2(13) == 8192 by { assert Pow2(3) == 8; Pow2Add(10, 3); }
    FieldsDecode(c, now, nth);
  }

  /** Ids of one machine are ordered by (tick, sequence number). */
  lemma ComposeOrdered(c: Config, now: int, nth: int, now': int, nth': int)
    requires c.Valid() && 0 <= nth < c.seqs && 0 <= nth' < c.seqs
    requires now < now' || (now == now' && nth < nth')
    ensures c.Compose(now, nth) < c.Compose(now', nth')
  {
    Compositions(c, now, nth);
    Compositions(c, now', nth');
    DigitsOrdered(now, nth, now', nth', c.seqs);
    DigitsOrdered(now * c.seqs + nth, c.machineId, now' * c.seqs + nth', c.machineId, c.machines);
  }

  lemma ComposeInRange(c: Config, now: int, nth: int)
    requires c.Valid() && 0 <= now < c.times && 0 <= nth < c.seqs
    ensures 0 <= c.Compose(now, nth) < INT64_SPAN
  {
    Compositions(c, now, nth);
    DigitsInRange(now, nth, c.times, c.seqs);
    DigitsInRange(now * c.seqs + nth, c.machineId, c.times * c.seqs, c.machines);
  }

  /** A last id is zero, as at the start, or an id this generator made. */
  ghost predicate Own(c: Config, id: int) {
    id == 0 || exists now, nth {:trigger c.Compose(now, nth)} ::
                 0 <= now < c.times && 0 <= nth < c.seqs && id == c.Compose(now, nth)
  }

  lemma OwnFields(c: Config, id: int)
    requires c.Valid() && Own(c, id)
    ensures 0 <= c.GetTimeFromID(id) < c.times && 0 <= c.GetSeqFromID(id) < c.seqs
    ensures id != 0 ==> id == c.Compose(c.GetTimeFromID(id), c.GetSeqFromID(id))
  {
    if id == 0 {
      Divides(0, 0, c.machines, 0);
      Divides(0, 0, c.seqs, 0);
      assert c.machines * c.seqs > 0;
      Divides(0, 0, c.machines * c.seqs, 0);
    } else {
      var now, nth :| 0 <= now < c.times && 0 <= nth < c.seqs && id == c.Compose(now, nth);
      FieldsDecode(c, now, nth);
    }
  }

  /** An attempt gives up exactly when the tick is not past the last id's and that
    * id has the tick's last sequence number; otherwise its id carries the tick
    * read, and sequence number 0 on a new tick or the next one on an old. */
  lemma AttemptFields(c: Config, last: int, now: int)
    requires c.Valid() && Own(c, last) && 0 <= now < c.times
    ensures c.Attempt(last, now).None? <==> now <= c.GetTimeFromID(last) && c.GetSeqFromID(last) == c.seqs - 1
    ensures c.Attempt(last, now).Some? ==>
              var id := c.Attempt(last, now).value;
              && c.GetTimeFromID(id) == now
              && c.GetSeqFromID(id) == if now > c.GetTimeFromID(last) then 0 else c.GetSeqFromID(last) + 1
  {
    OwnFields(c, last);
    if c.Attempt(last, now).Some? {
      FieldsDecode(c, now, if now > c.GetTimeFromID(last) then 0 else c.GetSeqFromID(last) + 1);
    }
  }

  /** A new id is larger than the one it replaces exactly when the tick read is
    * not before that id's tick. */
  lemma GrowsIffClockDidNotGoBack(c: Config, last: int, now: int)
    requires c.Valid() && Own(c, last) && 0 <= now < c.times && c.Attempt(last, now).Some?
    ensures Own(c, c.Attempt(last, now).value) && 0 < c.Attempt(last, now).value < INT64_SPAN
    ensures c.Attempt(last, now).value > last <==> now >= c.GetTimeFromID(last)
  {
    OwnFields(c, last);
    var t, q := c.GetTimeFromID(last), c.GetSeqFromID(last);
    var nth := if now > t then 0 else q + 1;
    var id := c.Compose(now, nth);
    assert c.Attempt(last, now) == Some(id);
    ComposeInRange(c, now, nth);
    Compositions(c, now, nth);
    Compositions(c, 0, 0);
    ComposeOrdered(c, 0, 0, now, nth);
    if last == 0 {
    } else if now < t {
      ComposeOrdered(c, now, nth, t, q);
    } else {
      ComposeOrdered(c, t, q, now, nth);
    }
  }

  /** A clock that steps back can hand out an id a second time. */
  lemma BackwardClockRepeats()
    ensures exists c: Config, a: int, b: int, d: int ::
              c.Valid() && c.Attempt(0, 4) == Some(a) && c.Attempt(a, 4) == Some(b) && c.Attempt(b, 5) == Some(d)
              && c.Attempt(d, 4) == Some(b)
  {
    var c := Config(16, 8, 4, 3, 0);
    var a, b, d := 131, 135, 163;
    assert c.Valid() && c.Attempt(0, 4) == Some(a) && c.Attempt(a, 4) == Some(b) && c.Attempt(b, 5) == Some(d);
    assert c.Attempt(d, 4) == Some(b);
  }

  /** Generators with different machine ids never make the same id. */
  lemma MachinesNeverClash(c: Config, d: Config, now: int, nth: int, now': int, nth': int)
    requires c.Valid() && d.Valid() && c.machines == d.machines && c.machineId != d.machineId
    requires 0 <= nth < c.seqs && 0 <= nth' < d.seqs
    ensures c.Compose(now, nth) != d.Compose(now', nth')
  {
    FieldsDecode(c, now, nth);
    FieldsDecode(d, now', nth');
  }

  lemma TickMonotone(c: Config, a: int, b: int)
    requires c.times > 0 && a <= b && c.InRange(a) && c.InRange(b)
    ensures 0 <= c.Tick(a) <= c.Tick(b) < c.times
    ensures c.Tick(a) == (a - c.startNano) / TICK_NANOS
  {
    Divides((a - c.startNano) / TICK_NANOS, 0, c.times, (a - c.startNano) / TICK_NANOS);
    Divides((b - c.startNano) / TICK_NANOS, 0, c.times, (b - c.startNano) / TICK_NANOS);
  }

  /** MinFastIdAt separates exactly: an id stamped at `readAt` is at or above it
    * if and only if its tick is not before the millisecond's. */
  lemma MinFastIdSeparates(c: Config, readAt: int, nth: int, unixMs: int)
    requires c.Valid() && 0 <= nth < c.seqs && c.InRange(readAt) && c.InRange(unixMs * NANOS_PER_MILLI)
    ensures c.Compose(c.Tick(readAt), nth) >= c.MinFastIdAt(unixMs)
       <==> c.Tick(readAt) >= c.Tick(unixMs * NANOS_PER_MILLI)
    ensures readAt >= unixMs * NANOS_PER_MILLI ==> c.Compose(c.Tick(readAt), nth) >= c.MinFastIdAt(unixMs)
  {
    var t, m := c.Tick(readAt), c.Tick(unixMs * NANOS_PER_MILLI);
    DigitsInRange(nth, c.machineId, c.seqs, c.machines);
    var low := nth * c.machines + c.machineId;
    if t < m {
      DigitsOrdered(t, low, m, 0, c.machines * c.seqs);
    } else if m < t {
      DigitsOrdered(m, 0, t, low, c.machines * c.seqs);
    }
    if readAt >= unixMs * NANOS_PER_MILLI { TickMonotone(c, unixMs * NANOS_PER_MILLI, readAt); }
  }

  /** The time read back from an id is at most two milliseconds behind. */
  lemma TimeReadsBack(c: Config, readAt: int, nth: int)
    requires c.Valid() && 0 <= nth < c.seqs && c.InRange(readAt) && c.startNano >= 0
    ensures var ms := c.GetTimeMillFromFastID(c.Compose(c.Tick(readAt), nth));
            ms <= readAt / NANOS_PER_MILLI <= ms + 2
  {
    FieldsDecode(c, c.Tick(readAt), nth);
    TickMonotone(c, readAt, readAt);
    var nanos := c.Tick(readAt) * TICK_NANOS + c.startNano;
    assert nanos <= readAt < nanos + TICK_NANOS;
  }

  // ---------------------------------------------------------------------
  // Any number of goroutines on one generator: the atomic load, the clock
  // reading and the compare-and-swap are separate steps

  datatype Thread = Ready | Loaded(last: int) | Stamped(last: int, newId: int, readAt: int)

  /** A successful call: its id and the clock when it read it. */
  datatype Issue = Issue(id: int, readAt: int)

  datatype Sys = Sys(lastId: int, threads: map<nat, Thread>, nanos: int, issued: seq<Issue>)

  datatype Step = Advance(nanos: int) | Load(thread: nat) | ReadClock(thread: nat) | Swap(thread: nat)

  ghost predicate Next(c: Config, s: Sys, step: Step, t: Sys)
    requires c.Valid()
  {
    match step
    case Advance(nanos) => s.nanos <= nanos && c.InRange(nanos) && t == s.(nanos := nanos)
    case Load(k) =>
      && (k in s.threads ==> s.threads[k].Ready?)
      && t == s.(threads := s.threads[k := Loaded(s.lastId)])
    case ReadClock(k) =>
      && k in s.threads && s.threads[k].Loaded?
      && var last := s.threads[k].last;
         var attempt := c.Attempt(last, c.Tick(s.nanos));
         t == s.(threads := s.threads[k := if attempt.None? then Ready else Stamped(last, attempt.value, s.nanos)])
    case Swap(k) =>
      && k in s.threads && s.threads[k].Stamped?
      && var id := s.threads[k].newId;
         var after := s.(threads := s.threads[k := Ready]);
         t == if s.lastId != s.threads[k].last then after
              else after.(lastId := id, issued := s.issued + [Issue(id, s.threads[k].readAt)])
  }

  ghost predicate GoodIssue(c: Config, issue: Issue, nanos: int)
    requires c.Valid()
  {
    && Own(c, issue.id) && 0 < issue.id < INT64_SPAN
    && c.InRange(issue.readAt) && issue.readAt <= nanos
    && c.GetTimeFromID(issue.id) == c.Tick(issue.readAt)
    && issue.id % c.machines == c.machineId
  }

  ghost predicate GoodThread(c: Config, thread: Thread, nanos: int)
    requires c.Valid()
  {
    match thread
    case Ready => true
    case Loaded(last) => Own(c, last) && c.GetTimeFromID(last) <= c.Tick(nanos)
    case Stamped(last, newId, readAt) => last < newId && GoodIssue(c, Issue(newId, readAt), nanos)
  }

  predicate Increasing(issued: seq<Issue>) {
    forall i, j :: 0 <= i < j < |issued| ==> issued[i].id < issued[j].id
  }

  ghost predicate Inv(c: Config, s: Sys)
    requires c.Valid()
  {
    && c.InRange(s.nanos)
    && Own(c, s.lastId) && c.GetTimeFromID(s.lastId) <= c.Tick(s.nanos)
    && (forall k :: k in s.threads ==> GoodThread(c, s.threads[k], s.nanos))
    && s.lastId == (if s.issued == [] then 0 else s.issued[|s.issued| - 1].id)
    && Increasing(s.issued)
    && forall i :: 0 <= i < |s.issued| ==> GoodIssue(c, s.issued[i], s.nanos)
  }

  ghost predicate Initial(c: Config, s: Sys)
    requires c.Valid()
  {
    c.InRange(s.nanos) && s == Sys(0, map[], s.nanos, [])
  }

  /** What the clock reading stamps is larger than what was loaded: the clock is
    * read after the load, so it is not behind the loaded id. */
  lemma StampIsGood(c: Config, last: int, nanos: int)
    requires c.Valid() && Own(c, last) && c.InRange(nanos) && c.GetTimeFromID(last) <= c.Tick(nanos)
    requires c.Attempt(last, c.Tick(nanos)).Some?
    ensures GoodThread(c, Stamped(last, c.Attempt(last, c.Tick(nanos)).value, nanos), nanos)
  {
    TickMonotone(c, nanos, nanos);
    GrowsIffClockDidNotGoBack(c, last, c.Tick(nanos));
    OwnFields(c, last);
    var t := c.GetTimeFromID(last);
    FieldsDecode(c, c.Tick(nanos), if c.Tick(nanos) > t then 0 else c.GetSeqFromID(last) + 1);
  }

  lemma InvAdvance(c: Config, s: Sys, nanos: int, t: Sys)
    requires c.Valid() && Inv(c, s) && Next(c, s, Advance(nanos), t)
    ensures Inv(c, t)
  {
    TickMonotone(c, s.nanos, nanos);
    forall k | k in t.threads ensures GoodThread(c, t.threads[k], t.nanos) {
      assert GoodThread(c, s.threads[k], s.nanos);
    }
  }

  lemma InvStep(c: Config, s: Sys, step: Step, t: Sys)
    requires c.Valid() && Inv(c, s) && Next(c, s, step, t)
    ensures Inv(c, t)
  {
    match step {
      case Advance(nanos) => InvAdvance(c, s, nanos, t);
      case Load(k) =>
      case ReadClock(k) =>
        if c.Attempt(s.threads[k].last, c.Tick(s.nanos)).Some? { StampIsGood(c, s.threads[k].last, s.nanos); }
      case Swap(k) =>
        assert GoodThread(c, s.threads[k], s.nanos);
        TickMonotone(c, s.threads[k].readAt, s.nanos);
    }
  }

  ghost predicate IsRun(c: Config, run: seq<Sys>, steps: seq<Step>)
    requires c.Valid()
  {
    && |run| == |steps| + 1 && Initial(c, run[0])
    && forall i :: 0 <= i < |steps| ==> Next(c, run[i], steps[i], run[i + 1])
  }

  lemma {:induction false} EveryRun(c: Config, run: seq<Sys>, steps: seq<Step>, n: nat)
    requires c.Valid() && IsRun(c, run, steps) && n < |run|
    ensures Inv(c, run[n])
  {
    if n == 0 {
      OwnFields(c, 0);
      TickMonotone(c, run[0].nanos, run[0].nanos);
      Divides(0, 0, c.machines * c.seqs, 0);
    } else {
      EveryRun(c, run, steps, n - 1);
      assert Next(c, run[n - 1], steps[n - 1], run[n - 1 + 1]);
      InvStep(c, run[n - 1], steps[n - 1], run[n]);
    }
  }

  /** For every interleaving: ids strictly increase in the order they succeed,
    * stay in [0, 2^63), and an id whose call read the clock at or after a
    * millisecond is at least MinFastIdAt of it. */
  lemma IdsIncrease(c: Config, run: seq<Sys>, steps: seq<Step>, n: nat, i: nat, unixMs: int)
    requires c.Valid() && IsRun(c, run, steps) && n < |run| && i < |run[n].issued|
    requires c.InRange(unixMs * NANOS_PER_MILLI)
    ensures var id := run[n].issued[i].id;
            && 0 < id < INT64_SPAN && (forall j :: 0 <= j < i ==> run[n].issued[j].id < id)
            && (id >= c.MinFastIdAt(unixMs) <==> c.Tick(run[n].issued[i].readAt) >= c.Tick(unixMs * NANOS_PER_MILLI))
            && (run[n].issued[i].readAt >= unixMs * NANOS_PER_MILLI ==> id >= c.MinFastIdAt(unixMs))
  {
    EveryRun(c, run, steps, n);
    var issue := run[n].issued[i];
    assert GoodIssue(c, issue, run[n].nanos);
    OwnFields(c, issue.id);
    MinFastIdSeparates(c, issue.readAt, c.GetSeqFromID(issue.id), unixMs);
  }

  /** In every interleaving, a clock reading gives up exactly when its tick is not
    * past the loaded id's and that has the last sequence number; otherwise it
    * stamps the tick and the sequence number that is due. */
  lemma StampsUnlessFull(c: Config, run: seq<Sys>, steps: seq<Step>, i: nat, k: nat)
    requires c.Valid() && IsRun(c, run, steps) && i < |steps| && steps[i] == ReadClock(k)
    ensures k in run[i].threads && run[i].threads[k].Loaded? && k in run[i + 1].threads
    ensures var last, tick, thread := run[i].threads[k].last, c.Tick(run[i].nanos), run[i + 1].threads[k];
            if tick <= c.GetTimeFromID(last) && c.GetSeqFromID(last) == c.seqs - 1 then thread.Ready?
            else
              && thread.Stamped? && thread.last == last && thread.readAt == run[i].nanos
              && c.GetTimeFromID(thread.newId) == tick
              && c.GetSeqFromID(thread.newId) == if tick > c.GetTimeFromID(last) then 0 else c.GetSeqFromID(last) + 1
  {
    EveryRun(c, run, steps, i);
    assert Next(c, run[i], steps[i], run[i + 1]);
    assert GoodThread(c, run[i].threads[k], run[i].nanos);
    TickMonotone(c, run[i].nanos, run[i].nanos);
    AttemptFields(c, run[i].threads[k].last, c.Tick(run[i].nanos));
  }

  lemma {:induction false} IssuedGrows(c: Config, run: seq<Sys>, steps: seq<Step>, i: nat, n: nat)
    requires c.Valid() && IsRun(c, run, steps) && i <= n < |run|
    ensures run[i].issued <= run[n].issued
    decreases n
  {
    if i < n {
      IssuedGrows(c, run, steps, i, n - 1);
      assert Next(c, run[n - 1], steps[n - 1], run[n - 1 + 1]);
    }
  }

  /** What a goroutine has loaded stays with it until it swaps. */
  lemma {:induction false} LoadedIsKept(c: Config, run: seq<Sys>, steps: seq<Step>, i: nat, n: nat, k: nat)
    requires c.Valid() && IsRun(c, run, steps) && i < n < |run| && steps[i] == Load(k)
    requires forall m :: i < m < n ==> steps[m] != Load(k) && steps[m] != Swap(k)
    ensures k in run[n].threads
    ensures run[n].threads[k].Loaded? ==> run[n].threads[k].last == run[i].lastId
    ensures run[n].threads[k].Stamped? ==> run[n].threads[k].last == run[i].lastId
    decreases n
  {
    assert Next(c, run[n - 1], steps[n - 1], run[n - 1 + 1]);
    if i + 1 < n { LoadedIsKept(c, run, steps, i, n - 1, k); }
  }

  /** In every interleaving, a load and its swap issue the id that was stamped if
    * and only if no id has been issued in between. */
  lemma SwapIssuesIff(c: Config, run: seq<Sys>, steps: seq<Step>, i: nat, n: nat, k: nat)
    requires c.Valid() && IsRun(c, run, steps) && i < n < |steps| && steps[i] == Load(k) && steps[n] == Swap(k)
    requires forall m :: i < m < n ==> steps[m] != Load(k) && steps[m] != Swap(k)
    ensures k in run[n].threads && run[n].threads[k].Stamped?
    ensures var stamped := run[n].threads[k];
            run[n + 1].issued ==
            if |run[n].issued| == |run[i].issued| then run[n].issued + [Issue(stamped.newId, stamped.readAt)]
            else run[n].issued
  {
    LoadedIsKept(c, run, steps, i, n, k);
    IssuedGrows(c, run, steps, i, n);
    EveryRun(c, run, steps, i);
    EveryRun(c, run, steps, n);
    assert Next(c, run[n], steps[n], run[n + 1]);
    LastTells(c, run[i], run[n]);
  }

  /** The last id tells whether anything was issued between two states of a run. */
  lemma LastTells(c: Config, s: Sys, t: Sys)
    requires c.Valid() && Inv(c, s) && Inv(c, t) && s.issued <= t.issued
    ensures s.lastId == t.lastId <==> |s.issued| == |t.issued|
  {
    if |s.issued| < |t.issued| {
      var a, b := |s.issued| - 1, |t.issued| - 1;
      assert GoodIssue(c, t.issued[b], t.nanos);
      if s.issued != [] { assert s.issued[a] == t.issued[a]; }
    } else {
      assert s.issued == t.issued;
    }
  }

  /** Two generators with different machine ids never issue the same id. */
  lemma RunsNeverClash(c: Config, run: seq<Sys>, steps: seq<Step>, n: nat, i: nat,
                       d: Config, run': seq<Sys>, steps': seq<Step>, n': nat, i': nat)
    requires c.Valid() && IsRun(c, run, steps) && n < |run| && i < |run[n].issued|
    requires d.Valid() && IsRun(d, run', steps') && n' < |run'| && i' < |run'[n'].issued|
    requires c.machines == d.machines && c.machineId != d.machineId
    ensures run[n].issued[i].id != run'[n'].issued[i'].id
  {
    EveryRun(c, run, steps, n);
    EveryRun(d, run', steps', n');
    assert GoodIssue(c, run[n].issued[i], run[n].nanos) && GoodIssue(d, run'[n'].issued[i'], run'[n'].nanos);
  }
}
