/** Service registration under an etcd lease (deps/etcd/registrar.go): any
  * number of registrars race on one key.  Every atomic load or store of a
  * registrar's lease id and every etcd request is a step of its own; the etcd
  * lock around registration is not relied on. */
module Registrar {
  import opened Basics

  /** Service data: the fields Equal compares, and those it leaves out, the
    * online count and the update time. */
  datatype Data = Data(compared: int, uncompared: int)

  /** A registrar's own service data, with the registrar it describes. */
  datatype Value = Value(author: nat, data: Data) {
    predicate Equal(other: Value) {
      author == other.author && data.compared == other.data.compared
    }
  }

  datatype KeyValue = KeyValue(value: Value, lease: nat)

  datatype Task =
    | Grant(reg: nat, data: Data)                                   // registerWithNewLease, value marshalled
    | PutAbsent(reg: nat, data: Data, lease: nat)
    | StoreLease(reg: nat, lease: nat)
    | RevokeUnused(reg: nat, lease: nat)
    | LoadCurrent(reg: nat, again: bool)                           // revokeCurrentLease, then register again or not
    | ClearCurrent(reg: nat, lease: nat, again: bool)
    | RevokeOld(reg: nat, lease: nat, again: bool)
    | LoadForUpdate(reg: nat)                                      // updateValueToEtcd
    | GetForUpdate(reg: nat, lease: nat, first: bool)              // updateValueWithLease
    | Compare(reg: nat, lease: nat, first: bool, seen: Option<KeyValue>)
    | PutSame(reg: nat, data: Data, lease: nat, first: bool)
    | PutMissing(reg: nat, data: Data, lease: nat, first: bool)
    | Reload(reg: nat, lease: nat)
    | ClearIf(reg: nat, lease: nat)                                // keep-alive lost
    | Finished(reg: nat, ok: bool)

  datatype Sys = Sys(
    key: Option<KeyValue>,
    owners: map<nat, nat>,       // every lease ever granted, and to whom
    live: set<nat>,              // leases neither expired nor revoked
    current: map<nat, nat>,      // each registrar's leaseID; 0 or absent for none
    held: map<nat, Data>,        // each registrar's own data, as it stands in memory
    tasks: map<nat, Task>)

  /** How a request ends: answered, refused by its condition, or failed from the
    * caller's point of view, whether or not etcd applied it. */
  datatype Reply = Acked | Refused | Failed(applied: bool)

  datatype Step =
    | Spawn(id: nat, task: Task)
    | Run(id: nat, reply: Reply, lease: nat, decodes: bool)
    | Hold(reg: nat, data: Data)          // UpdateInstanceData, before it writes to etcd
    | Expire(lease: nat)
    | DeleteKey

  function CurrentOf(s: Sys, reg: nat): nat {
    if reg in s.current then s.current[reg] else 0
  }

  function HeldBy(s: Sys, reg: nat): Data {
    if reg in s.held then s.held[reg] else Data(0, 0)
  }

  /** What may be started from outside: a registration, a re-registration or
    * Close, an update, and the keep-alive loop losing the lease it had loaded. */
  predicate MayStart(s: Sys, task: Task) {
    match task
    case Grant(reg, data) => data == HeldBy(s, reg)
    case LoadCurrent(_, _) => true
    case LoadForUpdate(_) => true
    case ClearIf(reg, lease) => lease == CurrentOf(s, reg)
    case _ => false
  }

  /** Losing a lease deletes the key bound to it. */
  function Revoked(s: Sys, lease: nat): Sys {
    s.(live := s.live - {lease}, key := if s.key.Some? && s.key.value.lease == lease then None else s.key)
  }

  function Put(s: Sys, reg: nat, data: Data, lease: nat): Sys {
    s.(key := Some(KeyValue(Value(reg, data), lease)))
  }

  /** A transaction that puts under a lease if `cond` holds of the key.  etcd
    * rejects a put under a lease that is gone. */
  ghost predicate Txn(s: Sys, cond: bool, reg: nat, data: Data, lease: nat, reply: Reply, t: Sys) {
    match reply
    case Acked => cond && lease in s.live && t == Put(s, reg, data, lease)
    case Refused => !cond && t == s
    case Failed(applied) => if applied then cond && lease in s.live && t == Put(s, reg, data, lease) else t == s
  }

  predicate BoundTo(key: Option<KeyValue>, lease: nat) {
    key.Some? && key.value.lease == lease
  }

  /** After a refused update: errLeaseChanged, retried once. */
  function AfterRefusal(reg: nat, lease: nat, first: bool): Task {
    if first then Reload(reg, lease) else Finished(reg, false)
  }

  function Then(s: Sys, id: nat, task: Task): Sys {
    s.(tasks := s.tasks[id := task])
  }

  /** One step of a task, as it goes from s to t with `task` next.  `lease` is
    * what Grant hands out, and `decodes` whether the stored value can be read
    * back. */
  ghost predicate Runs(s: Sys, task: Task, reply: Reply, lease: nat, decodes: bool, t: Sys, next: Task) {
    match task
    case Grant(reg, val) =>
      if reply.Acked? then
        && lease != 0 && lease !in s.owners
        && t == s.(owners := s.owners[lease := reg], live := s.live + {lease})
        && next == PutAbsent(reg, val, lease)
      else t == s && next == Finished(reg, false)
    case PutAbsent(reg, val, own) =>
      && Txn(s, s.key.None?, reg, val, own, reply, t)
      && next == if reply.Acked? then StoreLease(reg, own) else RevokeUnused(reg, own)
    case StoreLease(reg, own) =>
      t == s.(current := s.current[reg := own]) && next == Finished(reg, true)
    case RevokeUnused(reg, own) =>
      t == (if reply == Failed(false) then s else Revoked(s, own)) && next == Finished(reg, false)
    case LoadCurrent(reg, again) =>
      t == s && next == ClearCurrent(reg, CurrentOf(s, reg), again)
    case ClearCurrent(reg, own, again) =>
      && t == s.(current := s.current[reg := 0])
      && next == if own != 0 then RevokeOld(reg, own, again)
                 else if again then Grant(reg, HeldBy(s, reg)) else Finished(reg, true)
    case RevokeOld(reg, own, again) =>
      && t == (if reply == Failed(false) then s else Revoked(s, own))
      && next == if again then Grant(reg, HeldBy(s, reg)) else Finished(reg, reply.Acked?)
    case LoadForUpdate(reg) =>
      && t == s
      && next == if CurrentOf(s, reg) == 0 then Finished(reg, false) else GetForUpdate(reg, CurrentOf(s, reg), true)
    case GetForUpdate(reg, own, first) =>
      t == s && next == if reply.Acked? then Compare(reg, own, first, s.key) else Finished(reg, false)
    case Compare(reg, own, first, seen) =>
      && t == s
      && next == if seen.None? then PutMissing(reg, HeldBy(s, reg), own, first)
                 else if seen.value.lease != own then AfterRefusal(reg, own, first)
                 else if decodes && seen.value.value.Equal(Value(reg, HeldBy(s, reg))) then Finished(reg, true)
                 else PutSame(reg, HeldBy(s, reg), own, first)
    case PutSame(reg, val, own, first) =>
      && Txn(s, BoundTo(s.key, own), reg, val, own, reply, t)
      && next == if reply.Refused? then AfterRefusal(reg, own, first) else Finished(reg, reply.Acked?)
    case PutMissing(reg, val, own, first) =>
      && Txn(s, s.key.None?, reg, val, own, reply, t)
      && next == if reply.Refused? then AfterRefusal(reg, own, first) else Finished(reg, reply.Acked?)
    case Reload(reg, own) =>
      && t == s
      && next == if CurrentOf(s, reg) == 0 || CurrentOf(s, reg) == own then Finished(reg, false)
                 else GetForUpdate(reg, CurrentOf(s, reg), false)
    case ClearIf(reg, own) =>
      && t == (if CurrentOf(s, reg) == own then s.(current := s.current[reg := 0]) else s)
      && next == Finished(reg, true)
    case Finished(reg, ok) => false
  }

  ghost predicate Next(s: Sys, step: Step, t: Sys) {
    match step
    case Spawn(id, task) => id !in s.tasks && MayStart(s, task) && t == Then(s, id, task)
    case Run(id, reply, lease, decodes) =>
      && id in s.tasks && id in t.tasks
      && Runs(s, s.tasks[id], reply, lease, decodes, t.(tasks := s.tasks), t.tasks[id])
      && t.tasks == s.tasks[id := t.tasks[id]]
    case Hold(reg, data) => t == s.(held := s.held[reg := data])
    case Expire(lease) => lease in s.live && t == Revoked(s, lease)
    case DeleteKey => t == s.(key := None)
  }

  // ---------------------------------------------------------------------

  /** The lease was granted to this registrar. */
  ghost predicate Owns(s: Sys, reg: nat, lease: nat) {
    lease != 0 && lease in s.owners && s.owners[lease] == reg
  }

  /** A task only ever carries leases of its own registrar. */
  ghost predicate GoodTask(s: Sys, task: Task) {
    match task
    case Grant(_, _) => true
    case PutAbsent(reg, _, lease) => Owns(s, reg, lease)
    case StoreLease(reg, lease) => Owns(s, reg, lease)
    case RevokeUnused(reg, lease) => Owns(s, reg, lease)
    case LoadCurrent(_, _) => true
    case ClearCurrent(reg, lease, _) => lease == 0 || Owns(s, reg, lease)
    case RevokeOld(reg, lease, _) => Owns(s, reg, lease)
    case LoadForUpdate(_) => true
    case GetForUpdate(reg, lease, _) => Owns(s, reg, lease)
    case Compare(reg, lease, _, _) => Owns(s, reg, lease)
    case PutSame(reg, _, lease, _) => Owns(s, reg, lease)
    case PutMissing(reg, _, lease, _) => Owns(s, reg, lease)
    case Reload(reg, lease) => Owns(s, reg, lease)
    case ClearIf(reg, lease) => lease == 0 || Owns(s, reg, lease)
    case Finished(_, _) => true
  }

  /** The key is bound to a live lease and carries the data of that lease's
    * registrar; nobody holds a lease of someone else. */
  ghost predicate Inv(s: Sys) {
    && s.live <= s.owners.Keys && 0 !in s.owners
    && (s.key.Some? ==> s.key.value.lease in s.live && Owns(s, s.key.value.value.author, s.key.value.lease))
    && (forall reg :: reg in s.current ==> s.current[reg] == 0 || Owns(s, reg, s.current[reg]))
    && (forall id :: id in s.tasks ==> GoodTask(s, s.tasks[id]))
  }

  /** What one step may do to the key: nothing, delete it, or put the stepping
    * registrar's data under a lease of its own, on a key that is absent or
    * already bound to that very lease. */
  ghost predicate KeyStep(s: Sys, step: Step, t: Sys) {
    t.key == s.key || t.key.None?
    || (step.Run? && step.id in s.tasks
        && var reg := s.tasks[step.id].reg;
           && t.key.value.value.author == reg && Owns(s, reg, t.key.value.lease)
           && t.key.value.lease in s.live
           && (s.key.None? || s.key.value.lease == t.key.value.lease))
  }

  lemma RunKeeps(s: Sys, task: Task, reply: Reply, lease: nat, decodes: bool, t: Sys, next: Task)
    requires Inv(s) && GoodTask(s, task) && Runs(s, task, reply, lease, decodes, t, next)
    ensures t.tasks == s.tasks
    ensures forall l :: l in s.owners ==> l in t.owners && t.owners[l] == s.owners[l]
    ensures t.live <= t.owners.Keys && 0 !in t.owners
    ensures t.key.Some? ==> t.key.value.lease in t.live && Owns(t, t.key.value.value.author, t.key.value.lease)
    ensures forall reg :: reg in t.current ==> t.current[reg] == 0 || Owns(t, reg, t.current[reg])
  {
  }

  lemma RunContinues(s: Sys, task: Task, reply: Reply, lease: nat, decodes: bool, t: Sys, next: Task)
    requires Inv(s) && GoodTask(s, task) && Runs(s, task, reply, lease, decodes, t, next)
    ensures GoodTask(t, next) && next.reg == task.reg
  {
  }

  lemma RunWrites(s: Sys, task: Task, reply: Reply, lease: nat, decodes: bool, t: Sys, next: Task)
    requires Inv(s) && GoodTask(s, task) && Runs(s, task, reply, lease, decodes, t, next)
    ensures t.key == s.key || t.key.None?
         || (&& t.key.value.value.author == task.reg && Owns(s, task.reg, t.key.value.lease)
             && t.key.value.lease in s.live && (s.key.None? || s.key.value.lease == t.key.value.lease))
  {
  }

  lemma InvStep(s: Sys, step: Step, t: Sys)
    requires Inv(s) && Next(s, step, t)
    ensures Inv(t) && KeyStep(s, step, t)
    ensures forall l :: l in s.owners ==> l in t.owners && t.owners[l] == s.owners[l]
  {
    if step.Run? {
      var mid := t.(tasks := s.tasks);
      RunKeeps(s, s.tasks[step.id], step.reply, step.lease, step.decodes, mid, t.tasks[step.id]);
      RunContinues(s, s.tasks[step.id], step.reply, step.lease, step.decodes, mid, t.tasks[step.id]);
      RunWrites(s, s.tasks[step.id], step.reply, step.lease, step.decodes, mid, t.tasks[step.id]);
      forall id | id in t.tasks ensures GoodTask(t, t.tasks[id]) {
        if id != step.id { TaskKeeps(s, s.tasks[id], t); }
      }
    } else if step.Spawn? {
      forall id | id in t.tasks ensures GoodTask(t, t.tasks[id]) {
        if id != step.id { TaskKeeps(s, s.tasks[id], t); }
      }
    } else {
      forall id | id in t.tasks ensures GoodTask(t, t.tasks[id]) {
        TaskKeeps(s, s.tasks[id], t);
      }
    }
  }

  lemma TaskKeeps(s: Sys, task: Task, t: Sys)
    requires GoodTask(s, task)
    requires forall l :: l in s.owners ==> l in t.owners && t.owners[l] == s.owners[l]
    ensures GoodTask(t, task)
  {
  }

  ghost predicate IsRun(run: seq<Sys>, steps: seq<Step>) {
    && |run| == |steps| + 1 && run[0] == Sys(None, map[], {}, map[], map[], map[])
    && forall i :: 0 <= i < |steps| ==> Next(run[i], steps[i], run[i + 1])
  }

  lemma {:induction false} EveryRun(run: seq<Sys>, steps: seq<Step>, n: nat)
    requires IsRun(run, steps) && n < |run|
    ensures Inv(run[n])
  {
    if n > 0 {
      EveryRun(run, steps, n - 1);
      assert Next(run[n - 1], steps[n - 1], run[n - 1 + 1]);
      InvStep(run[n - 1], steps[n - 1], run[n]);
    }
  }

  function OwnerOf(s: Sys): Option<nat> {
    if s.key.Some? && s.key.value.lease in s.owners then Some(s.owners[s.key.value.lease]) else None
  }

  /** In every run, a write to the key comes from a registrar that puts its own
    * data under its own live lease, and never replaces another's registration. */
  lemma WritesAreOwn(run: seq<Sys>, steps: seq<Step>, i: nat)
    requires IsRun(run, steps) && i < |steps| && run[i + 1].key.Some? && run[i + 1].key != run[i].key
    ensures steps[i].Run? && steps[i].id in run[i].tasks
    ensures var reg, kv := run[i].tasks[steps[i].id].reg, run[i + 1].key.value;
            && kv.value.author == reg && Owns(run[i], reg, kv.lease) && kv.lease in run[i].live
            && (run[i].key.Some? ==> run[i].key.value.lease == kv.lease && OwnerOf(run[i]) == Some(reg))
  {
    EveryRun(run, steps, i);
    InvStep(run[i], steps[i], run[i + 1]);
  }

  /** The key's lease, and with it its owner, changes only across a deletion:
    * while the key stays present it stays with one registrar. */
  lemma {:induction false} OwnerChangesAcrossDeletion(run: seq<Sys>, steps: seq<Step>, i: nat, j: nat)
    requires IsRun(run, steps) && i <= j < |run| && forall k :: i <= k <= j ==> run[k].key.Some?
    ensures run[j].key.value.lease == run[i].key.value.lease
    ensures OwnerOf(run[i]).Some? && OwnerOf(run[j]) == OwnerOf(run[i])
    decreases j
  {
    EveryRun(run, steps, j);
    if i < j {
      OwnerChangesAcrossDeletion(run, steps, i, j - 1);
      EveryRun(run, steps, j - 1);
      InvStep(run[j - 1], steps[j - 1], run[j]);
    }
  }

  /** What is registered is always its owner's own data under a live lease. */
  lemma RegisteredIsLive(run: seq<Sys>, steps: seq<Step>, n: nat)
    requires IsRun(run, steps) && n < |run| && run[n].key.Some?
    ensures run[n].key.value.lease in run[n].live && OwnerOf(run[n]) == Some(run[n].key.value.value.author)
  {
    EveryRun(run, steps, n);
  }

  // ---------------------------------------------------------------------
  // What a task that reports success has done since it was started

  ghost predicate SpawnedAt(run: seq<Sys>, steps: seq<Step>, a: nat, id: nat, origin: Task)
    requires IsRun(run, steps)
  {
    a < |steps| && steps[a] == Spawn(id, origin)
  }

  /** Somewhere from a to n the registrar held this data. */
  ghost predicate HeldSince(run: seq<Sys>, a: nat, n: nat, reg: nat, data: Data)
    requires n < |run|
  {
    exists g: nat :: a <= g <= n && HeldBy(run[g], reg) == data
  }

  /** Step i put the registrar's data, as it held it since a, where there was no
    * key, under this lease. */
  ghost predicate PutAt(run: seq<Sys>, a: nat, i: nat, reg: nat, lease: nat) {
    && i + 1 < |run| && run[i].key.None? && run[i + 1].key.Some?
    && var kv := run[i + 1].key.value;
       kv.lease == lease && kv.value.author == reg && HeldSince(run, a, i, reg, kv.value.data)
  }

  ghost predicate PutSince(run: seq<Sys>, a: nat, n: nat, reg: nat, lease: nat) {
    exists i: nat :: a <= i < n && PutAt(run, a, i, reg, lease)
  }

  /** The registration put the key and then made the lease the current one. */
  ghost predicate Registered(run: seq<Sys>, a: nat, n: nat, reg: nat) {
    exists m: nat :: a <= m <= n < |run| && CurrentOf(run[m], reg) != 0
                  && Owns(run[m], reg, CurrentOf(run[m], reg)) && PutSince(run, a, m, reg, CurrentOf(run[m], reg))
  }

  /** The registrar had this lease at some time since a. */
  ghost predicate LoadedSince(run: seq<Sys>, a: nat, n: nat, reg: nat, lease: nat)
    requires n < |run|
  {
    exists l: nat :: a <= l <= n && CurrentOf(run[l], reg) == lease
  }

  ghost predicate DeadSince(run: seq<Sys>, a: nat, n: nat, lease: nat)
    requires n < |run|
  {
    exists m: nat :: a <= m <= n && lease !in run[m].live
  }

  /** The lease the registrar had has died, and it has had none. */
  ghost predicate Closed(run: seq<Sys>, a: nat, n: nat, reg: nat)
    requires n < |run|
  {
    && LoadedSince(run, a, n, reg, 0)
    && exists lease :: LoadedSince(run, a, n, reg, lease) && DeadSince(run, a, n, lease)
  }

  /** The registrar has had another lease, or none. */
  ghost predicate LeftSince(run: seq<Sys>, a: nat, n: nat, reg: nat, lease: nat)
    requires n < |run|
  {
    exists m: nat :: a <= m <= n && CurrentOf(run[m], reg) != lease
  }

  /** Step c is this task comparing what is stored with what the registrar holds. */
  ghost predicate ComparedAt(run: seq<Sys>, steps: seq<Step>, a: nat, n: nat, id: nat, c: nat)
    requires IsRun(run, steps)
  {
    a < c < n <= |steps| && steps[c].Run? && steps[c].id == id && id in run[c].tasks && run[c].tasks[id].Compare?
  }

  /** In state m the key is bound to the registrar's own lease and carries what it
    * held at the comparison c: exactly that when it was put afterwards, and up to
    * what Equal leaves out when it was found there. */
  ghost predicate StoredAt(run: seq<Sys>, steps: seq<Step>, a: nat, n: nat, id: nat, reg: nat, c: nat, m: nat)
    requires IsRun(run, steps)
  {
    && ComparedAt(run, steps, a, n, id, c) && a < m <= n
    && run[m].key.Some? && Owns(run[m], reg, run[m].key.value.lease)
    && var value, held := run[m].key.value.value, Value(reg, HeldBy(run[c], reg));
       value.Equal(held) && (c < m ==> value == held)
  }

  ghost predicate Stored(run: seq<Sys>, steps: seq<Step>, a: nat, n: nat, id: nat, reg: nat)
    requires IsRun(run, steps)
  {
    exists c: nat, m: nat :: StoredAt(run, steps, a, n, id, reg, c, m)
  }

  ghost predicate HeldAtCompare(run: seq<Sys>, steps: seq<Step>, a: nat, n: nat, id: nat, reg: nat, data: Data)
    requires IsRun(run, steps)
  {
    exists c: nat :: ComparedAt(run, steps, a, n, id, c) && HeldBy(run[c], reg) == data
  }

  ghost predicate SeenSince(run: seq<Sys>, a: nat, n: nat, seen: Option<KeyValue>)
    requires n < |run|
  {
    exists g: nat :: a < g <= n && run[g].key == seen
  }

  /** Step k, of this task, failed it: a request that was not acknowledged; or, in
    * an update, no lease to update under, a second refusal, or after a first one no
    * new lease to try again with. */
  ghost predicate Obstructs(run: seq<Sys>, steps: seq<Step>, a: nat, n: nat, id: nat, k: nat)
    requires IsRun(run, steps)
  {
    && a < k < n <= |steps| && steps[k].Run? && steps[k].id == id && id in run[k].tasks
    && var task, reply := run[k].tasks[id], steps[k].reply;
       match task
       case Grant(_, _) => reply != Acked
       case PutAbsent(_, _, _) => reply != Acked
       case RevokeOld(_, _, again) => !again && reply != Acked
       case LoadForUpdate(reg) => CurrentOf(run[k], reg) == 0
       case GetForUpdate(_, _, _) => reply != Acked
       case Compare(_, lease, first, seen) => !first && seen.Some? && seen.value.lease != lease
       case PutSame(_, _, _, first) => reply.Failed? || (reply.Refused? && !first)
       case PutMissing(_, _, _, first) => reply.Failed? || (reply.Refused? && !first)
       case Reload(reg, lease) => CurrentOf(run[k], reg) == 0 || CurrentOf(run[k], reg) == lease
       case _ => false
  }

  ghost predicate Obstructed(run: seq<Sys>, steps: seq<Step>, a: nat, n: nat, id: nat)
    requires IsRun(run, steps)
  {
    exists k: nat :: Obstructs(run, steps, a, n, id, k)
  }

  predicate IsRegistration(origin: Task) {
    origin.Grant? || (origin.LoadCurrent? && origin.again)
  }

  /** What success means, by what was started. */
  ghost predicate Achieved(run: seq<Sys>, steps: seq<Step>, a: nat, n: nat, id: nat, origin: Task)
    requires IsRun(run, steps) && n < |run|
  {
    match origin
    case Grant(reg, _) => Registered(run, a, n, reg)
    case LoadCurrent(reg, again) => if again then Registered(run, a, n, reg) else Closed(run, a, n, reg)
    case LoadForUpdate(reg) => Stored(run, steps, a, n, id, reg)
    case ClearIf(reg, lease) => lease == 0 || LeftSince(run, a, n, reg, lease)
    case _ => true
  }

  /** What has been done for each stage a task can be at. */
  ghost predicate Done(run: seq<Sys>, steps: seq<Step>, a: nat, n: nat, id: nat, origin: Task, task: Task)
    requires IsRun(run, steps) && n < |run|
  {
    && task.reg == origin.reg
    && match task
       case Grant(reg, data) => IsRegistration(origin) && HeldSince(run, a, n, reg, data)
       case PutAbsent(reg, data, lease) => IsRegistration(origin) && HeldSince(run, a, n, reg, data)
       case StoreLease(reg, lease) => IsRegistration(origin) && PutSince(run, a, n, reg, lease)
       case RevokeUnused(_, _) => IsRegistration(origin) && Obstructed(run, steps, a, n, id)
       case LoadCurrent(_, _) => origin == task
       case ClearCurrent(reg, lease, again) =>
         origin == LoadCurrent(reg, again) && LoadedSince(run, a, n, reg, lease)
       case RevokeOld(reg, lease, again) =>
         && origin == LoadCurrent(reg, again) && LoadedSince(run, a, n, reg, lease)
         && LoadedSince(run, a, n, reg, 0)
       case LoadForUpdate(_) => origin == task
       case GetForUpdate(_, _, _) => origin.LoadForUpdate?
       case Compare(_, _, _, seen) => origin.LoadForUpdate? && SeenSince(run, a, n, seen)
       case PutSame(reg, data, _, _) => origin.LoadForUpdate? && HeldAtCompare(run, steps, a, n, id, reg, data)
       case PutMissing(reg, data, _, _) => origin.LoadForUpdate? && HeldAtCompare(run, steps, a, n, id, reg, data)
       case Reload(_, _) => origin.LoadForUpdate?
       case ClearIf(_, _) => origin == task
       case Finished(_, ok) =>
         if ok then Achieved(run, steps, a, n, id, origin) else Obstructed(run, steps, a, n, id)
  }

  lemma HeldLater(run: seq<Sys>, a: nat, n: nat, reg: nat, data: Data)
    requires n + 1 < |run| && HeldSince(run, a, n, reg, data)
    ensures HeldSince(run, a, n + 1, reg, data)
  {
    var g: nat :| a <= g <= n && HeldBy(run[g], reg) == data;
    assert a <= g <= n + 1;
  }

  lemma LoadedLater(run: seq<Sys>, a: nat, n: nat, reg: nat, lease: nat)
    requires n + 1 < |run| && LoadedSince(run, a, n, reg, lease)
    ensures LoadedSince(run, a, n + 1, reg, lease)
  {
    var l: nat :| a <= l <= n && CurrentOf(run[l], reg) == lease;
    assert a <= l <= n + 1;
  }

  lemma PutLater(run: seq<Sys>, a: nat, n: nat, reg: nat, lease: nat)
    requires PutSince(run, a, n, reg, lease)
    ensures PutSince(run, a, n + 1, reg, lease)
  {
    var i: nat :| a <= i < n && PutAt(run, a, i, reg, lease);
    assert a <= i < n + 1;
  }

  lemma SeenLater(run: seq<Sys>, a: nat, n: nat, seen: Option<KeyValue>)
    requires n + 1 < |run| && SeenSince(run, a, n, seen)
    ensures SeenSince(run, a, n + 1, seen)
  {
    var g: nat :| a < g <= n && run[g].key == seen;
    assert a < g <= n + 1;
  }

  lemma ComparedLater(run: seq<Sys>, steps: seq<Step>, a: nat, n: nat, id: nat, reg: nat, data: Data)
    requires IsRun(run, steps) && n + 1 < |run| && HeldAtCompare(run, steps, a, n, id, reg, data)
    ensures HeldAtCompare(run, steps, a, n + 1, id, reg, data)
  {
    var c: nat :| ComparedAt(run, steps, a, n, id, c) && HeldBy(run[c], reg) == data;
    assert ComparedAt(run, steps, a, n + 1, id, c);
  }

  lemma RegisteredLater(run: seq<Sys>, a: nat, n: nat, reg: nat)
    requires n + 1 < |run| && Registered(run, a, n, reg)
    ensures Registered(run, a, n + 1, reg)
  {
    var m: nat :| a <= m <= n < |run| && CurrentOf(run[m], reg) != 0
               && Owns(run[m], reg, CurrentOf(run[m], reg)) && PutSince(run, a, m, reg, CurrentOf(run[m], reg));
    assert a <= m <= n + 1;
  }

  lemma ClosedLater(run: seq<Sys>, a: nat, n: nat, reg: nat)
    requires n + 1 < |run| && Closed(run, a, n, reg)
    ensures Closed(run, a, n + 1, reg)
  {
    var lease :| LoadedSince(run, a, n, reg, lease) && DeadSince(run, a, n, lease);
    var m: nat :| a <= m <= n && lease !in run[m].live;
    assert a <= m <= n + 1;
    LoadedLater(run, a, n, reg, lease);
    LoadedLater(run, a, n, reg, 0);
  }

  lemma LeftLater(run: seq<Sys>, a: nat, n: nat, reg: nat, lease: nat)
    requires n + 1 < |run| && LeftSince(run, a, n, reg, lease)
    ensures LeftSince(run, a, n + 1, reg, lease)
  {
    var m: nat :| a <= m <= n && CurrentOf(run[m], reg) != lease;
    assert a <= m <= n + 1;
  }

  lemma StoredLater(run: seq<Sys>, steps: seq<Step>, a: nat, n: nat, id: nat, reg: nat)
    requires IsRun(run, steps) && n + 1 < |run| && Stored(run, steps, a, n, id, reg)
    ensures Stored(run, steps, a, n + 1, id, reg)
  {
    var c: nat, m: nat :| StoredAt(run, steps, a, n, id, reg, c, m);
    assert StoredAt(run, steps, a, n + 1, id, reg, c, m);
  }

  lemma ObstructedLater(run: seq<Sys>, steps: seq<Step>, a: nat, n: nat, id: nat)
    requires IsRun(run, steps) && n + 1 < |run| && Obstructed(run, steps, a, n, id)
    ensures Obstructed(run, steps, a, n + 1, id)
  {
    var k: nat :| Obstructs(run, steps, a, n, id, k);
    assert Obstructs(run, steps, a, n + 1, id, k);
  }

  lemma AchievedLater(run: seq<Sys>, steps: seq<Step>, a: nat, n: nat, id: nat, origin: Task)
    requires IsRun(run, steps) && n + 1 < |run| && Achieved(run, steps, a, n, id, origin)
    ensures Achieved(run, steps, a, n + 1, id, origin)
  {
    match origin
    case Grant(reg, _) => RegisteredLater(run, a, n, reg);
    case LoadCurrent(reg, again) =>
      if again { RegisteredLater(run, a, n, reg); } else { ClosedLater(run, a, n, reg); }
    case LoadForUpdate(reg) => StoredLater(run, steps, a, n, id, reg);
    case ClearIf(reg, lease) => if lease != 0 { LeftLater(run, a, n, reg, lease); }
    case _ =>
  }

  /** What has been done stays done. */
  lemma DoneLater(run: seq<Sys>, steps: seq<Step>, a: nat, n: nat, id: nat, origin: Task, task: Task)
    requires IsRun(run, steps) && n + 1 < |run| && Done(run, steps, a, n, id, origin, task)
    ensures Done(run, steps, a, n + 1, id, origin, task)
  {
    match task
    case Grant(reg, data) => HeldLater(run, a, n, reg, data);
    case PutAbsent(reg, data, _) => HeldLater(run, a, n, reg, data);
    case StoreLease(reg, lease) => PutLater(run, a, n, reg, lease);
    case ClearCurrent(reg, lease, _) => LoadedLater(run, a, n, reg, lease);
    case RevokeOld(reg, lease, _) =>
      LoadedLater(run, a, n, reg, lease);
      LoadedLater(run, a, n, reg, 0);
    case Compare(_, _, _, seen) => SeenLater(run, a, n, seen);
    case PutSame(reg, data, _, _) => ComparedLater(run, steps, a, n, id, reg, data);
    case PutMissing(reg, data, _, _) => ComparedLater(run, steps, a, n, id, reg, data);
    case RevokeUnused(_, _) => ObstructedLater(run, steps, a, n, id);
    case Finished(_, ok) =>
      if ok { AchievedLater(run, steps, a, n, id, origin); } else { ObstructedLater(run, steps, a, n, id); }
    case _ =>
  }

  /** Step n runs this task, which then stands at `next`. */
  ghost predicate Ran(run: seq<Sys>, steps: seq<Step>, a: nat, n: nat, id: nat, origin: Task, next: Task)
    requires IsRun(run, steps)
  {
    && a < n < |steps| && steps[n].Run? && steps[n].id == id && id in run[n].tasks && id in run[n + 1].tasks
    && run[n + 1].tasks[id] == next && Done(run, steps, a, n, id, origin, run[n].tasks[id])
    && Next(run[n], steps[n], run[n + 1])
  }

  lemma RegistrationRan(run: seq<Sys>, steps: seq<Step>, a: nat, n: nat, id: nat, origin: Task, next: Task)
    requires IsRun(run, steps) && Ran(run, steps, a, n, id, origin, next)
    requires var task := run[n].tasks[id];
             task.Grant? || task.PutAbsent? || task.StoreLease? || task.RevokeUnused?
    ensures Done(run, steps, a, n + 1, id, origin, next)
  {
    EveryRun(run, steps, n);
    var task := run[n].tasks[id];
    assert GoodTask(run[n], task);
    match task {
      case Grant(reg, data) =>
        HeldLater(run, a, n, reg, data);
        if next.Finished? { assert Obstructs(run, steps, a, n + 1, id, n); }
      case PutAbsent(reg, data, lease) =>
        if next.StoreLease? {
          assert PutAt(run, a, n, reg, lease);
        } else {
          assert Obstructs(run, steps, a, n + 1, id, n);
        }
      case StoreLease(reg, lease) =>
        PutLater(run, a, n, reg, lease);
        assert CurrentOf(run[n + 1], reg) == lease;
      case RevokeUnused(reg, lease) => ObstructedLater(run, steps, a, n, id);
    }
  }

  lemma RevocationRan(run: seq<Sys>, steps: seq<Step>, a: nat, n: nat, id: nat, origin: Task, next: Task)
    requires IsRun(run, steps) && Ran(run, steps, a, n, id, origin, next)
    requires var task := run[n].tasks[id]; task.LoadCurrent? || task.ClearCurrent? || task.RevokeOld? || task.ClearIf?
    ensures Done(run, steps, a, n + 1, id, origin, next)
  {
    EveryRun(run, steps, n);
    var task := run[n].tasks[id];
    match task {
      case LoadCurrent(reg, again) =>
        assert CurrentOf(run[n + 1], reg) == CurrentOf(run[n], reg);
      case ClearCurrent(reg, lease, again) =>
        LoadedLater(run, a, n, reg, lease);
        assert CurrentOf(run[n + 1], reg) == 0;
        if lease == 0 { assert 0 !in run[n].live; }
        if next.Grant? { assert HeldBy(run[n], reg) == next.data; }
      case RevokeOld(reg, lease, again) =>
        LoadedLater(run, a, n, reg, lease);
        LoadedLater(run, a, n, reg, 0);
        if next.Grant? { assert HeldBy(run[n], reg) == next.data; }
        if next == Finished(reg, true) { assert lease !in run[n + 1].live; }
        if next == Finished(reg, false) { assert Obstructs(run, steps, a, n + 1, id, n); }
      case ClearIf(reg, lease) =>
        if lease != 0 { assert CurrentOf(run[n + 1], reg) != lease; }
    }
  }

  lemma CompareRan(run: seq<Sys>, steps: seq<Step>, a: nat, n: nat, id: nat, origin: Task, next: Task)
    requires IsRun(run, steps) && Ran(run, steps, a, n, id, origin, next) && run[n].tasks[id].Compare?
    ensures Done(run, steps, a, n + 1, id, origin, next)
  {
    EveryRun(run, steps, n);
    var task := run[n].tasks[id];
    assert GoodTask(run[n], task) && ComparedAt(run, steps, a, n + 1, id, n);
    if next == Finished(task.reg, true) {
      var g: nat :| a < g <= n && run[g].key == task.seen;
      EveryRun(run, steps, g);
      assert StoredAt(run, steps, a, n + 1, id, task.reg, n, g);
    } else if next.Finished? {
      assert Obstructs(run, steps, a, n + 1, id, n);
    }
  }

  lemma UpdateRan(run: seq<Sys>, steps: seq<Step>, a: nat, n: nat, id: nat, origin: Task, next: Task)
    requires IsRun(run, steps) && Ran(run, steps, a, n, id, origin, next)
    requires var task := run[n].tasks[id];
             || task.LoadForUpdate? || task.GetForUpdate? || task.Compare?
             || task.PutSame? || task.PutMissing? || task.Reload?
    ensures Done(run, steps, a, n + 1, id, origin, next)
  {
    var task := run[n].tasks[id];
    match task {
      case LoadForUpdate(reg) =>
        if next.Finished? { assert Obstructs(run, steps, a, n + 1, id, n); }
      case GetForUpdate(reg, lease, first) =>
        if next.Compare? {
          assert a < n + 1 && run[n + 1].key == next.seen;
        } else {
          assert Obstructs(run, steps, a, n + 1, id, n);
        }
      case Compare(reg, lease, first, seen) => CompareRan(run, steps, a, n, id, origin, next);
      case PutSame(reg, data, lease, first) => PutRan(run, steps, a, n, id, origin, next);
      case PutMissing(reg, data, lease, first) => PutRan(run, steps, a, n, id, origin, next);
      case Reload(reg, lease) =>
        if next.Finished? { assert Obstructs(run, steps, a, n + 1, id, n); }
    }
  }

  lemma PutRan(run: seq<Sys>, steps: seq<Step>, a: nat, n: nat, id: nat, origin: Task, next: Task)
    requires IsRun(run, steps) && Ran(run, steps, a, n, id, origin, next)
    requires run[n].tasks[id].PutSame? || run[n].tasks[id].PutMissing?
    ensures Done(run, steps, a, n + 1, id, origin, next)
  {
    var task := run[n].tasks[id];
    ComparedLater(run, steps, a, n, id, task.reg, task.data);
    if next == Finished(task.reg, true) {
      PutIsStored(run, steps, a, n, id, task.reg, task.data);
    } else if next.Finished? {
      assert Obstructs(run, steps, a, n + 1, id, n);
    }
  }

  lemma PutIsStored(run: seq<Sys>, steps: seq<Step>, a: nat, n: nat, id: nat, reg: nat, data: Data)
    requires IsRun(run, steps) && n + 1 < |run| && HeldAtCompare(run, steps, a, n, id, reg, data)
    requires run[n + 1].key.Some? && run[n + 1].key.value.value == Value(reg, data)
    ensures Stored(run, steps, a, n + 1, id, reg)
  {
    EveryRun(run, steps, n + 1);
    var c: nat :| ComparedAt(run, steps, a, n, id, c) && HeldBy(run[c], reg) == data;
    assert StoredAt(run, steps, a, n + 1, id, reg, c, n + 1);
  }

  lemma DoneNext(run: seq<Sys>, steps: seq<Step>, a: nat, n: nat, id: nat, origin: Task)
    requires IsRun(run, steps) && a < n < |steps| && id in run[n].tasks
    requires Done(run, steps, a, n, id, origin, run[n].tasks[id])
    ensures id in run[n + 1].tasks && Done(run, steps, a, n + 1, id, origin, run[n + 1].tasks[id])
  {
    var task := run[n].tasks[id];
    assert Next(run[n], steps[n], run[n + 1]);
    if steps[n].Run? && steps[n].id == id {
      var next := run[n + 1].tasks[id];
      assert Ran(run, steps, a, n, id, origin, next);
      if task.Grant? || task.PutAbsent? || task.StoreLease? || task.RevokeUnused? {
        RegistrationRan(run, steps, a, n, id, origin, next);
      } else if task.LoadCurrent? || task.ClearCurrent? || task.RevokeOld? || task.ClearIf? {
        RevocationRan(run, steps, a, n, id, origin, next);
      } else {
        UpdateRan(run, steps, a, n, id, origin, next);
      }
    } else {
      assert id in run[n + 1].tasks && run[n + 1].tasks[id] == task;
      DoneLater(run, steps, a, n, id, origin, task);
    }
  }

  lemma {:induction false} EverythingDone(run: seq<Sys>, steps: seq<Step>, a: nat, n: nat, id: nat, origin: Task)
    requires IsRun(run, steps) && SpawnedAt(run, steps, a, id, origin) && a < n < |run|
    ensures id in run[n].tasks && Done(run, steps, a, n, id, origin, run[n].tasks[id])
    decreases n
  {
    if n == a + 1 {
      assert Next(run[a], steps[a], run[a + 1]);
      if origin.Grant? { assert HeldBy(run[a], origin.reg) == origin.data; }
    } else {
      EverythingDone(run, steps, a, n - 1, id, origin);
      DoneNext(run, steps, a, n - 1, id, origin);
    }
  }

  lemma {:induction false} WasStarted(run: seq<Sys>, steps: seq<Step>, n: nat, id: nat) returns (a: nat, origin: Task)
    requires IsRun(run, steps) && n < |run| && id in run[n].tasks
    ensures a < n && SpawnedAt(run, steps, a, id, origin)
  {
    assert n > 0;
    assert Next(run[n - 1], steps[n - 1], run[n - 1 + 1]);
    if id in run[n - 1].tasks {
      a, origin := WasStarted(run, steps, n - 1, id);
    } else {
      a, origin := n - 1, steps[n - 1].task;
    }
  }

  /** In every run, a registration about to store a lease as its own has put the
    * key under that lease, on an absent key, with data it held since it was
    * started, and the lease was granted to it. */
  lemma RegisteredAfterPut(run: seq<Sys>, steps: seq<Step>, n: nat, id: nat)
    requires IsRun(run, steps) && n < |run| && id in run[n].tasks && run[n].tasks[id].StoreLease?
    ensures var task := run[n].tasks[id];
            && Owns(run[n], task.reg, task.lease)
            && exists a: nat, i: nat :: a <= i < n && PutAt(run, a, i, task.reg, task.lease)
  {
    EveryRun(run, steps, n);
    var task := run[n].tasks[id];
    assert GoodTask(run[n], task);
    var a, origin := WasStarted(run, steps, n, id);
    EverythingDone(run, steps, a, n, id, origin);
    var i: nat :| a <= i < n && PutAt(run, a, i, task.reg, task.lease);
  }

  /** In every run, a registration, first or repeated, that reports success has
    * since put the data it held under a lease of its own, where there was no key,
    * and made that lease the current one. */
  lemma RegistrationSucceeds(run: seq<Sys>, steps: seq<Step>, a: nat, n: nat, id: nat, origin: Task)
    requires IsRun(run, steps) && SpawnedAt(run, steps, a, id, origin) && IsRegistration(origin)
    requires a < n < |run| && id in run[n].tasks && run[n].tasks[id] == Finished(origin.reg, true)
    ensures exists m: nat, i: nat ::
              && a <= i < m <= n && CurrentOf(run[m], origin.reg) != 0
              && Owns(run[m], origin.reg, CurrentOf(run[m], origin.reg))
              && PutAt(run, a, i, origin.reg, CurrentOf(run[m], origin.reg))
  {
    EverythingDone(run, steps, a, n, id, origin);
    var reg := origin.reg;
    var m: nat :| a <= m <= n < |run| && CurrentOf(run[m], reg) != 0
               && Owns(run[m], reg, CurrentOf(run[m], reg)) && PutSince(run, a, m, reg, CurrentOf(run[m], reg));
    var i: nat :| a <= i < m && PutAt(run, a, i, reg, CurrentOf(run[m], reg));
  }

  /** In every run, an update that reports success has since its start seen the
    * key under the registrar's own lease with the data it held when it compared:
    * exactly that if it put it, and up to what Equal leaves out if it found it. */
  lemma UpdateSucceeds(run: seq<Sys>, steps: seq<Step>, a: nat, n: nat, id: nat, reg: nat)
    requires IsRun(run, steps) && SpawnedAt(run, steps, a, id, LoadForUpdate(reg))
    requires a < n < |run| && id in run[n].tasks && run[n].tasks[id] == Finished(reg, true)
    ensures exists c: nat, m: nat :: StoredAt(run, steps, a, n, id, reg, c, m)
  {
    EverythingDone(run, steps, a, n, id, LoadForUpdate(reg));
  }

  /** In every run, a task that reports failure has met an obstacle since its
    * start: nothing fails on its own. */
  lemma FailureHasACause(run: seq<Sys>, steps: seq<Step>, a: nat, n: nat, id: nat, origin: Task)
    requires IsRun(run, steps) && SpawnedAt(run, steps, a, id, origin)
    requires a < n < |run| && id in run[n].tasks && run[n].tasks[id] == Finished(origin.reg, false)
    ensures exists k: nat :: Obstructs(run, steps, a, n, id, k)
  {
    EverythingDone(run, steps, a, n, id, origin);
  }

  /** In every run, a Close that reports success has left the registrar without a
    * lease, and the one it had is dead. */
  lemma CloseSucceeds(run: seq<Sys>, steps: seq<Step>, a: nat, n: nat, id: nat, reg: nat)
    requires IsRun(run, steps) && SpawnedAt(run, steps, a, id, LoadCurrent(reg, false))
    requires a < n < |run| && id in run[n].tasks && run[n].tasks[id] == Finished(reg, true)
    ensures LoadedSince(run, a, n, reg, 0)
    ensures exists lease :: LoadedSince(run, a, n, reg, lease) && DeadSince(run, a, n, lease)
  {
    EverythingDone(run, steps, a, n, id, LoadCurrent(reg, false));
  }

  /** In every run, once the keep-alive loop has dealt with a lost lease the
    * registrar has not had it any more. */
  lemma LossIsNoted(run: seq<Sys>, steps: seq<Step>, a: nat, n: nat, id: nat, reg: nat, lease: nat)
    requires IsRun(run, steps) && SpawnedAt(run, steps, a, id, ClearIf(reg, lease)) && lease != 0
    requires a < n < |run| && id in run[n].tasks && run[n].tasks[id] == Finished(reg, true)
    ensures LeftSince(run, a, n, reg, lease)
  {
    EverythingDone(run, steps, a, n, id, ClearIf(reg, lease));
  }

  /** Of what it found under its own lease, an update writes nothing exactly when
    * it can be read back and Equal finds no difference; it has then stored what
    * the registrar holds exactly when the fields Equal leaves out agree too. */
  lemma SkipsIffEqual(s: Sys, reg: nat, own: nat, first: bool, found: KeyValue, reply: Reply, lease: nat, decodes: bool,
                      t: Sys, next: Task)
    requires Runs(s, Compare(reg, own, first, Some(found)), reply, lease, decodes, t, next) && found.lease == own
    ensures next == Finished(reg, true) <==>
            decodes && found.value.author == reg && found.value.data.compared == HeldBy(s, reg).compared
    ensures next == Finished(reg, true) ==>
              (found.value == Value(reg, HeldBy(s, reg)) <==>
               found.value.data.uncompared == HeldBy(s, reg).uncompared)
    ensures next != Finished(reg, true) ==> next == PutSame(reg, HeldBy(s, reg), own, first)
  {
  }

  // ---------------------------------------------------------------------
  // A registrar registers, its online count changes, and it updates

  ghost predicate IsChain(run: seq<Sys>, steps: seq<Step>) {
    |run| == |steps| + 1 && forall i :: 0 <= i < |steps| ==> Next(run[i], steps[i], run[i + 1])
  }

  lemma JoinChains(run: seq<Sys>, steps: seq<Step>, more: seq<Sys>, moreSteps: seq<Step>)
    requires IsChain(run, steps) && IsChain(more, moreSteps) && run[|steps|] == more[0]
    ensures IsChain(run + more[1..], steps + moreSteps)
  {
    var all, allSteps := run + more[1..], steps + moreSteps;
    forall i | 0 <= i < |allSteps| ensures Next(all[i], allSteps[i], all[i + 1]) {
      if i < |steps| {
        assert Next(run[i], steps[i], run[i + 1]);
      } else {
        var k := i - |steps|;
        assert Next(more[k], moreSteps[k], more[k + 1]);
        assert all[i] == more[k] && all[i + 1] == more[k + 1];
      }
    }
  }

  /** The key, if there is one, carries the data from before the change. */
  ghost predicate OldData(s: Sys) {
    s.key.Some? ==> s.key.value.value.data == Data(0, 0)
  }

  function RegisteredState(): Sys {
    Sys(Some(KeyValue(Value(1, Data(0, 0)), 5)), map[5 := 1], {5}, map[1 := 5], map[], map[0 := Finished(1, true)])
  }

  lemma Registers() returns (run: seq<Sys>, steps: seq<Step>)
    ensures IsRun(run, steps) && |steps| == 4 && run[4] == RegisteredState()
    ensures forall i :: 0 <= i < |run| ==> OldData(run[i])
  {
    var s0 := Sys(None, map[], {}, map[], map[], map[]);
    var s1 := s0.(tasks := map[0 := Grant(1, Data(0, 0))]);
    var s2 := s1.(owners := map[5 := 1], live := {5}, tasks := map[0 := PutAbsent(1, Data(0, 0), 5)]);
    var s3 := s2.(key := Some(KeyValue(Value(1, Data(0, 0)), 5)), tasks := map[0 := StoreLease(1, 5)]);
    FirstRegistration(s0, s1, s2, s3, RegisteredState());
    run := [s0, s1, s2, s3, RegisteredState()];
    steps := [Spawn(0, Grant(1, Data(0, 0))), Run(0, Acked, 5, true), Run(0, Acked, 0, true), Run(0, Acked, 0, true)];
    FourSteps(run, steps);
  }

  lemma FourSteps(run: seq<Sys>, steps: seq<Step>)
    requires |run| == 5 && |steps| == 4 && Next(run[0], steps[0], run[1]) && Next(run[1], steps[1], run[2])
    requires Next(run[2], steps[2], run[3]) && Next(run[3], steps[3], run[4])
    ensures IsChain(run, steps)
  {
  }

  lemma FirstRegistration(s0: Sys, s1: Sys, s2: Sys, s3: Sys, s4: Sys)
    requires s0 == Sys(None, map[], {}, map[], map[], map[])
    requires s1 == s0.(tasks := map[0 := Grant(1, Data(0, 0))])
    requires s2 == s1.(owners := map[5 := 1], live := {5}, tasks := map[0 := PutAbsent(1, Data(0, 0), 5)])
    requires s3 == s2.(key := Some(KeyValue(Value(1, Data(0, 0)), 5)), tasks := map[0 := StoreLease(1, 5)])
    requires s4 == s3.(current := map[1 := 5], tasks := map[0 := Finished(1, true)])
    ensures Next(s0, Spawn(0, Grant(1, Data(0, 0))), s1) && Next(s1, Run(0, Acked, 5, true), s2)
    ensures Next(s2, Run(0, Acked, 0, true), s3) && Next(s3, Run(0, Acked, 0, true), s4)
  {
    assert s0.tasks[0 := s1.tasks[0]] == s1.tasks;
    assert s1.owners[5 := 1] == s2.owners && s1.live + {5} == s2.live && s1.tasks[0 := s2.tasks[0]] == s2.tasks;
    assert s2.tasks[0 := s3.tasks[0]] == s3.tasks;
    assert s3.current[1 := 5] == s4.current && s3.tasks[0 := s4.tasks[0]] == s4.tasks;
  }

  lemma UpdatesIdly() returns (run: seq<Sys>, steps: seq<Step>)
    ensures IsChain(run, steps) && |steps| == 5 && run[0] == RegisteredState()
    ensures steps[0] == Hold(1, Data(0, 1)) && steps[1] == Spawn(1, LoadForUpdate(1))
    ensures 1 in run[5].tasks && run[5].tasks[1] == Finished(1, true) && HeldBy(run[5], 1) == Data(0, 1)
    ensures forall i :: 0 <= i < |run| ==> OldData(run[i])
  {
    var s4 := RegisteredState();
    var s5 := s4.(held := map[1 := Data(0, 1)]);
    var s6 := Then(s5, 1, LoadForUpdate(1));
    var s7 := Then(s6, 1, GetForUpdate(1, 5, true));
    var s8 := Then(s7, 1, Compare(1, 5, true, s4.key));
    var s9 := Then(s8, 1, Finished(1, true));
    IdleUpdate(s4, s5, s6, s7, s8, s9);
    run := [s4, s5, s6, s7, s8, s9];
    steps := [Hold(1, Data(0, 1)), Spawn(1, LoadForUpdate(1)), Run(1, Acked, 0, true), Run(1, Acked, 0, true),
              Run(1, Acked, 0, true)];
    FiveSteps(run, steps);
    assert run[5] == s9;
    forall i | 0 <= i < |run| ensures OldData(run[i]) {
      assert run[i] in {s4, s5, s6, s7, s8, s9};
    }
  }

  lemma IdleUpdate(s4: Sys, s5: Sys, s6: Sys, s7: Sys, s8: Sys, s9: Sys)
    requires CurrentOf(s4, 1) == 5 && s4.held == map[] && 1 !in s4.tasks
    requires s4.key == Some(KeyValue(Value(1, Data(0, 0)), 5))
    requires s5 == s4.(held := map[1 := Data(0, 1)])
    requires s6 == Then(s5, 1, LoadForUpdate(1)) && s7 == Then(s6, 1, GetForUpdate(1, 5, true))
    requires s8 == Then(s7, 1, Compare(1, 5, true, s4.key)) && s9 == Then(s8, 1, Finished(1, true))
    ensures Next(s4, Hold(1, Data(0, 1)), s5) && Next(s5, Spawn(1, LoadForUpdate(1)), s6)
    ensures Next(s6, Run(1, Acked, 0, true), s7) && Next(s7, Run(1, Acked, 0, true), s8)
    ensures Next(s8, Run(1, Acked, 0, true), s9)
  {
    assert s4.held[1 := Data(0, 1)] == s5.held;
  }

  lemma FiveSteps(run: seq<Sys>, steps: seq<Step>)
    requires |run| == 6 && |steps| == 5 && Next(run[0], steps[0], run[1]) && Next(run[1], steps[1], run[2])
    requires Next(run[2], steps[2], run[3]) && Next(run[3], steps[3], run[4]) && Next(run[4], steps[4], run[5])
    ensures IsChain(run, steps)
  {
  }

  /** A run in which the update reports success and the key never carries the new
    * count. */
  lemma UpdateMayNotStore()
    ensures exists run: seq<Sys>, steps: seq<Step> ::
              && IsRun(run, steps) && |steps| == 9
              && steps[4] == Hold(1, Data(0, 1)) && steps[5] == Spawn(1, LoadForUpdate(1))
              && 1 in run[9].tasks && run[9].tasks[1] == Finished(1, true) && HeldBy(run[9], 1) == Data(0, 1)
              && forall i :: 0 <= i < |run| ==> OldData(run[i])
  {
    var first, firstSteps := Registers();
    var second, secondSteps := UpdatesIdly();
    JoinChains(first, firstSteps, second, secondSteps);
    var run, steps := first + second[1..], firstSteps + secondSteps;
    assert run[9] == second[5] && steps[4] == secondSteps[0] && steps[5] == secondSteps[1];
    forall i | 0 <= i < |run| ensures OldData(run[i]) {
      assert run[i] == if i < 5 then first[i] else second[i - 4];
    }
    assert IsRun(run, steps);
  }
}
