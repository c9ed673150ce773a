/** One service's instances: a published slice, an index into it, and a hash
  * ring over the ids (deps/service_mgr/store.go, deps/service_mgr/instance.go). */
module ServiceStore {
  import opened Basics
  import CH = ConsistentHash

  /** The fields that Equal compares, apart from the id. */
  datatype Spec = Spec(serviceName: string, clusterName: string, host: string, port: int, healthy: string,
                       enable: bool, weight: int, proVersion: int, confVersion: int, metaData: map<string, string>)

  class ServiceInstance {
    const instanceId: int
    const spec: Spec
    const updateTime: string
    var onlineCount: int
    var netStatus: int
    var load: int

    constructor (instanceId: int, spec: Spec, updateTime: string, onlineCount: int)
      ensures this.instanceId == instanceId && this.spec == spec && netStatus == 0 && load == 0
      ensures this.updateTime == updateTime && this.onlineCount == onlineCount
    {
      this.instanceId, this.spec, this.updateTime := instanceId, spec, updateTime;
      this.onlineCount, netStatus, load := onlineCount, 0, 0;
    }

    predicate Equal(other: ServiceInstance?) {
      other != null && instanceId == other.instanceId && spec == other.spec
    }
  }

  /** A Go slice: the first `len` slots of an array. */
  datatype Slice = Slice(arr: array<ServiceInstance>, len: nat)

  // ---------------------------------------------------------------------

  /** The index names each instance's slot and nothing else; so ids are
    * distinct and the two are inverse to each other. */
  ghost predicate Inverse(contents: seq<ServiceInstance>, index: map<int, nat>) {
    && (forall i :: 0 <= i < |contents| ==> contents[i].instanceId in index && index[contents[i].instanceId] == i)
    && (forall id :: id in index ==> index[id] < |contents| && contents[index[id]].instanceId == id)
  }

  function Reindexed(contents: seq<ServiceInstance>, index: map<int, nat>, i: nat): map<int, nat>
    requires i < |contents|
  {
    var last := |contents| - 1;
    (if i != last then index[contents[last].instanceId := i] else index) - {contents[i].instanceId}
  }

  lemma SwapRemoveKeepsInverse(contents: seq<ServiceInstance>, index: map<int, nat>, i: nat)
    requires Inverse(contents, index) && i < |contents|
    ensures Inverse(SwapRemoved(contents, i), Reindexed(contents, index, i))
  {
    var after, last := SwapRemoved(contents, i), |contents| - 1;
    forall k | 0 <= k < |after|
      ensures after[k].instanceId in Reindexed(contents, index, i)
          && Reindexed(contents, index, i)[after[k].instanceId] == k
    {
      assert after[k] == contents[if k == i then last else k];
    }
  }

  lemma SetKeepsInverse(contents: seq<ServiceInstance>, index: map<int, nat>, inst: ServiceInstance)
    requires Inverse(contents, index)
    ensures inst.instanceId in index ==> Inverse(contents[index[inst.instanceId] := inst], index)
    ensures inst.instanceId !in index ==> Inverse(contents + [inst], index[inst.instanceId := |contents|])
  {
  }

  /** What the store means: who is registered under each id. */
  ghost function ById(contents: seq<ServiceInstance>, index: map<int, nat>): (m: map<int, ServiceInstance>)
    requires Inverse(contents, index)
    ensures m.Keys == index.Keys
  {
    map id | id in index :: contents[index[id]]
  }

  /** The slice holds exactly the registered instances, each once. */
  lemma StoreIsContents(contents: seq<ServiceInstance>, index: map<int, nat>)
    requires Inverse(contents, index)
    ensures forall inst: ServiceInstance :: inst in contents <==>
              inst.instanceId in ById(contents, index) && ById(contents, index)[inst.instanceId] == inst
    ensures forall i, j :: 0 <= i < j < |contents| ==> contents[i] != contents[j]
    ensures |contents| == |index|
  {
    OneSlotPerId(contents, index.Keys);
  }

  lemma {:induction false} OneSlotPerId(contents: seq<ServiceInstance>, ids: set<int>)
    requires forall i, j :: 0 <= i < j < |contents| ==> contents[i].instanceId != contents[j].instanceId
    requires forall id :: id in ids <==> exists i :: 0 <= i < |contents| && contents[i].instanceId == id
    ensures |contents| == |ids|
  {
    if contents == [] {
      forall id | id in ids ensures false { }
      assert ids == {};
    } else {
      var n := |contents| - 1;
      var rest := ids - {contents[n].instanceId};
      forall id ensures id in rest <==> exists i :: 0 <= i < n && contents[i].instanceId == id { }
      OneSlotPerId(contents[..n], rest);
    }
  }

  lemma SwapRemoveById(contents: seq<ServiceInstance>, index: map<int, nat>, i: nat)
    requires Inverse(contents, index) && i < |contents|
    ensures Inverse(SwapRemoved(contents, i), Reindexed(contents, index, i))
    ensures ById(SwapRemoved(contents, i), Reindexed(contents, index, i))
         == ById(contents, index) - {contents[i].instanceId}
  {
    SwapRemoveKeepsInverse(contents, index, i);
    var before, after := ById(contents, index), ById(SwapRemoved(contents, i), Reindexed(contents, index, i));
    assert after.Keys == before.Keys - {contents[i].instanceId};
    forall id | id in after ensures after[id] == before[id] {
      assert index[id] != i;
    }
  }

  lemma SetById(contents: seq<ServiceInstance>, index: map<int, nat>, inst: ServiceInstance)
    requires Inverse(contents, index)
    ensures inst.instanceId in index ==>
              var after := contents[index[inst.instanceId] := inst];
              Inverse(after, index) && ById(after, index) == ById(contents, index)[inst.instanceId := inst]
    ensures inst.instanceId !in index ==>
              var after := index[inst.instanceId := |contents|];
              && Inverse(contents + [inst], after)
              && ById(contents + [inst], after) == ById(contents, index)[inst.instanceId := inst]
  {
    SetKeepsInverse(contents, index, inst);
    var before: map<int, ServiceInstance> := ById(contents, index)[inst.instanceId := inst];
    if inst.instanceId in index {
      var after := ById(contents[index[inst.instanceId] := inst], index);
      assert after.Keys == before.Keys && forall id :: id in after ==> after[id] == before[id];
      SameMap(after, before);
    } else {
      var after := ById(contents + [inst], index[inst.instanceId := |contents|]);
      assert after.Keys == before.Keys && forall id :: id in after ==> after[id] == before[id];
      SameMap(after, before);
    }
  }

  predicate Inherits(inst: ServiceInstance, netStatus: int, load: int)
    reads inst
  {
    inst.netStatus == netStatus && inst.load == load
  }

  /** What a filter can see of an instance. */
  datatype Seen = Seen(instanceId: int, spec: Spec, updateTime: string, onlineCount: int, netStatus: int, load: int)

  function Look(inst: ServiceInstance): Seen
    reads inst
  {
    Seen(inst.instanceId, inst.spec, inst.updateTime, inst.onlineCount, inst.netStatus, inst.load)
  }

  function Kept(s: seq<ServiceInstance>, filter: Seen -> bool): seq<ServiceInstance>
    reads s
  {
    if s == [] then []
    else Kept(s[..|s| - 1], filter) + if filter(Look(s[|s| - 1])) then [s[|s| - 1]] else []
  }

  /** `kept` is what the filter keeps of `s`, in the order of its slots. */
  ghost predicate KeepsInOrder(s: seq<ServiceInstance>, index: map<int, nat>, filter: Seen -> bool,
                               kept: seq<ServiceInstance>)
    reads s
  {
    && (forall i :: 0 <= i < |kept| ==> kept[i] in s && filter(Look(kept[i])) && kept[i].instanceId in index)
    && (forall i :: 0 <= i < |s| && filter(Look(s[i])) ==> s[i] in kept)
    && (forall i, j :: 0 <= i < j < |kept| ==> index[kept[i].instanceId] < index[kept[j].instanceId])
  }

  lemma {:induction false} KeptMeans(s: seq<ServiceInstance>, index: map<int, nat>, filter: Seen -> bool)
    requires forall i :: 0 <= i < |s| ==> s[i].instanceId in index && index[s[i].instanceId] == i
    ensures KeepsInOrder(s, index, filter, Kept(s, filter))
  {
    if s != [] {
      var front := s[..|s| - 1];
      KeptMeans(front, index, filter);
      forall inst | inst in front ensures index[inst.instanceId] < |front| {
        var i :| 0 <= i < |front| && front[i] == inst;
      }
    }
  }

  class Service {
    const chash: CH.ConsistentHash<int>
    var instances: Slice
    var index: map<int, nat>
    ghost var contents: seq<ServiceInstance>                            // what `instances` holds
    ghost var published: map<array<ServiceInstance>, seq<ServiceInstance>>   // every array ever handed out

    ghost predicate Valid()
      reads this, chash, published.Keys
    {
      && instances.arr in published && instances.len == |contents| <= instances.arr.Length
      && instances.arr[..instances.len] == contents
      && Inverse(contents, index)
      && chash.Valid() && chash.nodeSet == index.Keys
      && Unchanged()
    }

    /** No array a reader may hold has changed since it was published. */
    ghost predicate Unchanged()
      reads this`published, published.Keys
    {
      forall a :: a in published ==> a[..] == published[a]
    }

    ghost function Store(): map<int, ServiceInstance>
      reads this, chash, published.Keys
      requires Valid()
    {
      ById(contents, index)
    }

    constructor (hashFunc: string -> nat, virtualKey: (int, nat) -> string)
      ensures Valid() && Store() == map[] && fresh(chash) && fresh(published.Keys)
    {
      chash := new CH.ConsistentHash<int>(0, hashFunc, virtualKey);
      var arr: array<ServiceInstance> := new ServiceInstance[0];
      instances, index, contents := Slice(arr, 0), map[], [];
      published := map[arr := []];
    }

    /** newSlice: a private copy with one slot written, then published. */
    method Publish(n: nat, at: nat, inst: ServiceInstance, keep: nat)
      requires Valid() && at < n && keep <= n && |contents| <= n <= |contents| + 1
      requires n > |contents| ==> at == |contents|
      modifies this`instances, this`contents, this`published
      ensures fresh(instances.arr) && instances.len == keep && instances.arr.Length == n
      ensures contents == (if at < |old(contents)| then old(contents)[at := inst] else old(contents) + [inst])[..keep]
      ensures instances.arr[..keep] == contents
      ensures Unchanged() && published.Keys == old(published.Keys) + {instances.arr}
      ensures forall a :: a in old(published) ==> published[a] == old(published)[a]
    {
      var newSlice: array<ServiceInstance> := new ServiceInstance[n](_ => inst);
      forall i | 0 <= i < instances.len && i != at { newSlice[i] := instances.arr[i]; }
      instances := Slice(newSlice, keep);
      contents := (if at < |contents| then contents[at := inst] else contents + [inst])[..keep];
      published := published[newSlice := newSlice[..]];
    }

    /** The ring follows the index. */
    method Join(id: int)
      requires chash.Valid() && id !in chash.nodeSet
      modifies chash
      ensures chash.Valid() && chash.nodeSet == old(chash.nodeSet) + {id}
    {
      var added := chash.AddNode(id);
    }

    method Leave(id: int)
      requires chash.Valid() && id in chash.nodeSet
      modifies chash
      ensures chash.Valid() && chash.nodeSet == old(chash.nodeSet) - {id}
    {
      var removed := chash.RemoveNode(id);
    }

    method SetInstance(inst: ServiceInstance?) returns (prev: ServiceInstance?, replaced: bool)
      requires Valid()
      modifies this, chash, if inst != null then {inst} else {}
      ensures Valid() && fresh(published.Keys - old(published.Keys))
      ensures inst == null ==> prev == null && !replaced && Store() == old(Store())
      ensures inst != null ==>
                && Store() == old(Store())[inst.instanceId := inst]
                && replaced == (inst.instanceId in old(Store())) && (prev == null <==> !replaced)
                && inst.onlineCount == old(inst.onlineCount)
                && (replaced ==>
                      prev == old(Store())[inst.instanceId] && Inherits(inst, old(prev.netStatus), old(prev.load)))
      ensures forall a :: a in old(published) ==> a in published && published[a] == old(published)[a]
    {
      if inst == null { return null, false; }
      SetById(contents, index, inst);
      if inst.instanceId in index {
        prev := Replace(inst);
        return prev, true;
      }
      Append(inst);
      return null, false;
    }

    method Replace(inst: ServiceInstance) returns (prev: ServiceInstance)
      requires Valid() && inst.instanceId in index
      modifies this`instances, this`contents, this`published, inst`netStatus, inst`load
      ensures fresh(instances.arr) && Unchanged() && published.Keys == old(published.Keys) + {instances.arr}
      ensures forall a :: a in old(published) ==> published[a] == old(published)[a]
      ensures instances.len == |contents| <= instances.arr.Length && instances.arr[..instances.len] == contents
      ensures contents == old(contents)[index[inst.instanceId] := inst]
      ensures prev == old(contents)[index[inst.instanceId]] && Inherits(inst, old(prev.netStatus), old(prev.load))
    {
      var idx := index[inst.instanceId];
      prev := instances.arr[idx];
      inst.netStatus := prev.netStatus;
      inst.load := prev.load;
      Publish(instances.len, idx, inst, instances.len);
    }

    method Append(inst: ServiceInstance)
      requires Valid() && inst.instanceId !in index
      modifies this, chash
      ensures fresh(instances.arr) && Unchanged() && published.Keys == old(published.Keys) + {instances.arr}
      ensures forall a :: a in old(published) ==> published[a] == old(published)[a]
      ensures instances.len == |contents| <= instances.arr.Length && instances.arr[..instances.len] == contents
      ensures contents == old(contents) + [inst] && index == old(index)[inst.instanceId := |old(contents)|]
      ensures chash.Valid() && chash.nodeSet == index.Keys
    {
      Publish(instances.len + 1, instances.len, inst, instances.len + 1);
      index := index[inst.instanceId := instances.len - 1];
      Join(inst.instanceId);
    }

    method RemoveInstance(instanceId: int) returns (removed: ServiceInstance?)
      requires Valid()
      modifies this, chash
      ensures Valid() && fresh(published.Keys - old(published.Keys))
      ensures Store() == old(Store()) - {instanceId}
      ensures if instanceId in old(Store()) then removed == old(Store())[instanceId] else removed == null
      ensures forall a :: a in old(published) ==> a in published && published[a] == old(published)[a]
    {
      if instanceId !in index { return null; }
      if instances.len == 0 {
        assert false;
      }
      SwapRemoveById(contents, index, index[instanceId]);
      removed := SwapRemove(instanceId);
    }

    method SwapRemove(instanceId: int) returns (removed: ServiceInstance)
      requires Valid() && instanceId in index
      modifies this, chash
      ensures fresh(instances.arr) && Unchanged() && published.Keys == old(published.Keys) + {instances.arr}
      ensures forall a :: a in old(published) ==> published[a] == old(published)[a]
      ensures instances.len == |contents| <= instances.arr.Length && instances.arr[..instances.len] == contents
      ensures removed == old(contents[index[instanceId]])
      ensures contents == SwapRemoved(old(contents), old(index[instanceId]))
      ensures index == Reindexed(old(contents), old(index), old(index[instanceId]))
      ensures chash.Valid() && chash.nodeSet == index.Keys
    {
      var idx := index[instanceId];
      removed := instances.arr[idx];
      var lastIdx := instances.len - 1;
      var lastInst := instances.arr[lastIdx];
      Publish(instances.len, idx, lastInst, lastIdx);
      if idx != lastIdx {
        index := index[lastInst.instanceId := idx];
      }
      index := index - {instanceId};
      Leave(instanceId);
    }

    method GetInstance(instanceId: int) returns (inst: ServiceInstance?)
      requires Valid()
      ensures inst == if instanceId in Store() then Store()[instanceId] else null
    {
      if instanceId !in index { return null; }
      return instances.arr[index[instanceId]];
    }

    /** With no filter the published slice itself is handed out. */
    method Snapshot(filter: Option<Seen -> bool>) returns (result: Slice)
      requires Valid()
      ensures result.len <= result.arr.Length
      ensures filter.None? ==> result.arr in published && result.arr[..result.len] == contents
      ensures filter.Some? ==>
                fresh(result.arr) && KeepsInOrder(contents, index, filter.value, result.arr[..result.len])
    {
      if filter.None? { return instances; }
      var kept := Filter(filter.value);
      var arr := new ServiceInstance[|kept|](i requires 0 <= i < |kept| => kept[i]);
      assert arr[..|kept|] == kept;
      return Slice(arr, |kept|);
    }

    method Filter(filter: Seen -> bool) returns (kept: seq<ServiceInstance>)
      requires Valid()
      ensures KeepsInOrder(contents, index, filter, kept)
    {
      kept := [];
      var i := 0;
      while i < instances.len
        invariant 0 <= i <= instances.len && kept == Kept(contents[..i], filter)
      {
        assert contents[..i + 1][..i] == contents[..i];
        if filter(Look(instances.arr[i])) { kept := kept + [instances.arr[i]]; }
        i := i + 1;
      }
      assert contents[..i] == contents;
      KeptMeans(contents, index, filter);
    }

    /** Consistent-hash lookup: only ever a stored instance, and the two guards
      * after the ring lookup never fail. */
    method GetByHashKey(key: CH.Key) returns (inst: ServiceInstance?)
      requires Valid()
      ensures inst == null <==> chash.ring == [] || CH.KeyToString(key).None?
      ensures inst != null ==>
                && inst.instanceId in Store() && Store()[inst.instanceId] == inst && chash.nodes.Keys != {}
                && inst.instanceId == CH.Owner(chash.nodes, chash.placement.hashFunc(CH.KeyToString(key).value))
    {
      var nodeId := chash.GetNode(key);
      if nodeId.None? { return null; }
      var id: int := nodeId.value;
      if id !in index || index[id] >= instances.len {
        assert false;
      }
      return instances.arr[index[id]];
    }
  }
}
