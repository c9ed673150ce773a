/** The sections of the rpc manager that run under its mutex, as they change the
  * table of pending calls; each is a step of the protocol in module Rpc. */
module RpcTable {
  import opened Basics
  import opened Rpc

  class RpcCallInfo {
    const rpcId: int
    const expireAt: int
    const blocking: bool
    const hasHandler: bool
    const hasFailed: bool
    var free: bool

    constructor (rpcId: int, call: Call)
      ensures this.rpcId == rpcId && expireAt == call.expireAt && blocking == call.blocking
      ensures hasHandler == call.hasHandler && hasFailed == call.hasFailed && !free
    {
      this.rpcId, expireAt, blocking, hasHandler, hasFailed :=
        rpcId, call.expireAt, call.blocking, call.hasHandler, call.hasFailed;
      free := false;
    }

    ghost predicate Is(id: int, call: Call)
      reads this
    {
      && rpcId == id && expireAt == call.expireAt && blocking == call.blocking
      && hasHandler == call.hasHandler && hasFailed == call.hasFailed && free == call.free
    }
  }

  class RpcMgr {
    var rpcm: map<int, RpcCallInfo>
    var stopped: bool

    /** The table and the flag are those of the protocol state. */
    ghost predicate Shows(s: Sys)
      reads this, rpcm.Values
    {
      && rpcm.Keys == s.table && s.table <= s.calls.Keys && stopped == s.stopped
      && forall id :: id in rpcm ==> rpcm[id].Is(id, s.calls[id])
    }

    constructor ()
      ensures rpcm == map[] && !stopped
    {
      rpcm, stopped := map[], false;
    }

    /** The locked part of a request, after the first look at `stopped`. */
    method Enter(id: int, call: Call, ghost s: Sys) returns (entered: bool)
      requires Shows(s) && id in s.entering && s.entering[id] == call && Fresh(call) && id !in s.calls
      modifies this`rpcm
      ensures entered == !stopped
      ensures if entered then id in rpcm && rpcm == old(rpcm)[id := rpcm[id]] && rpcm[id].Is(id, call)
              else rpcm == old(rpcm)
      ensures exists t :: Next(s, Insert(id), t) && Shows(t)
    {
      ghost var out := s.(entering := s.entering - {id});
      if stopped {
        assert Next(s, Insert(id), out) && Shows(out);
        return false;
      }
      var info := new RpcCallInfo(id, call);
      rpcm := rpcm[id := info];
      ghost var t := out.(table := s.table + {id}, calls := s.calls[id := call]);
      assert Next(s, Insert(id), t) && Shows(t);
      return true;
    }

    /** removeRpcCall: used with `markFree` by send failures and timeouts, and
      * spelled out without it in the response handler. */
    method RemoveRpcCall(id: int, markFree: bool, ghost s: Sys, ghost duty: Duty) returns (rpc: RpcCallInfo?)
      requires Shows(s)
      modifies this`rpcm, (set r: RpcCallInfo | r in rpcm.Values)`free
      ensures Shows(RemoveOne(s, id, markFree, duty)) && rpcm == old(rpcm) - {id}
      ensures if id in old(rpcm) then rpc == old(rpcm)[id] && rpc.free == (old(rpcm[id].free) || markFree)
              else rpc == null
    {
      if id !in rpcm { return null; }
      rpc := rpcm[id];
      rpcm := rpcm - {id};
      if markFree { rpc.free := true; }
    }

    /** The sweep's locked section. */
    method Sweep(since: int, until: int, ghost s: Sys) returns (rs: seq<RpcCallInfo>, ghost expired: set<int>)
      requires Shows(s) && since <= until == s.now
      modifies this`rpcm, (set r: RpcCallInfo | r in rpcm.Values)`free
      ensures expired <= s.table && Next(s, Step.Sweep(since, expired), Swept(s, expired, false))
      ensures Shows(Swept(s, expired, false))
      ensures Lists(rs, old(rpcm), expired)
    {
      rs, expired := TakeExpired(since, until);
      forall id | id in s.table && s.calls[id].expireAt < since ensures id in expired {
        assert old(rpcm[id].Is(id, s.calls[id]));
        assert id in rpcm || id in expired;
      }
      forall id | id in expired ensures s.calls[id].expireAt < s.now {
        assert old(rpcm[id].Is(id, s.calls[id]));
      }
    }

    /** Its loop.  The clock is read for every entry, somewhere from `since` to
      * `until`. */
    method TakeExpired(since: int, until: int) returns (rs: seq<RpcCallInfo>, ghost expired: set<int>)
      requires since <= until && forall id :: id in rpcm ==> rpcm[id].rpcId == id
      modifies this`rpcm, (set r: RpcCallInfo | r in rpcm.Values)`free
      ensures rpcm == old(rpcm) - expired && Lists(rs, old(rpcm), expired)
      ensures forall id :: id in expired ==> old(rpcm)[id].expireAt < until
      ensures forall id :: id in rpcm ==> rpcm[id].expireAt >= since
      ensures forall id :: id in old(rpcm) ==> old(rpcm)[id].free == (old(rpcm[id].free) || id in expired)
    {
      rs, expired := [], {};
      var rest := rpcm.Keys;
      while rest != {}
        invariant rest <= rpcm.Keys && expired <= old(rpcm).Keys && rpcm == old(rpcm) - expired
        invariant forall id :: id in expired ==> old(rpcm)[id].expireAt < until
        invariant forall id :: id in rpcm && id !in rest ==> rpcm[id].expireAt >= since
        invariant forall id :: id in old(rpcm) ==> old(rpcm)[id].free == (old(rpcm[id].free) || id in expired)
        invariant Lists(rs, old(rpcm), expired)
        decreases rest
      {
        Inhabited(rest);
        var rpcId :| rpcId in rest;
        var now :| since <= now <= until;
        rest := rest - {rpcId};
        if rpcm[rpcId].expireAt < now {
          ListsMore(rs, old(rpcm), expired, rpcId);
          rs := rs + [rpcm[rpcId]];
          TakeOne(rpcId, rpcm[rpcId]);
          expired := expired + {rpcId};
        }
      }
    }

    method TakeOne(id: int, rpc: RpcCallInfo)
      requires id in rpcm && rpcm[id] == rpc
      modifies this`rpcm, rpc`free
      ensures rpcm == old(rpcm) - {id} && rpc.free
    {
      rpcm := rpcm - {id};
      rpc.free := true;
    }

    method StopSwap(ghost s: Sys) returns (already: bool)
      requires Shows(s)
      modifies this`stopped
      ensures already == old(stopped) && stopped
      ensures exists t :: Next(s, Step.StopSwap, t) && Shows(t)
    {
      already := stopped;
      stopped := true;
      ghost var t := s.(stopped := true, stop := if s.stopped then s.stop else Swapped);
      assert Next(s, Step.StopSwap, t) && Shows(t);
    }

    /** Stop's locked section: everything is listed and the table replaced. */
    method StopLock(ghost s: Sys) returns (rs: seq<RpcCallInfo>)
      requires Shows(s) && s.stop.Swapped?
      modifies this`rpcm, (set r: RpcCallInfo | r in rpcm.Values)`free
      ensures Next(s, Step.StopLock, Swept(s, s.table, true).(stop := Cleared))
      ensures Shows(Swept(s, s.table, true).(stop := Cleared))
      ensures rpcm == map[] && Lists(rs, old(rpcm), old(rpcm).Keys)
      ensures forall id :: id in old(rpcm) ==> old(rpcm)[id].free
    {
      rs := FreeAll();
      rpcm := map[];
    }

    method FreeAll() returns (rs: seq<RpcCallInfo>)
      modifies (set r: RpcCallInfo | r in rpcm.Values)`free
      ensures Lists(rs, rpcm, rpcm.Keys)
      ensures forall id :: id in rpcm ==> rpcm[id].free
    {
      rs := [];
      ghost var listed: set<int> := {};
      var rest := rpcm.Keys;
      while rest != {}
        invariant rest !! listed && rest + listed == rpcm.Keys
        invariant forall id :: id in listed ==> rpcm[id].free
        invariant Lists(rs, rpcm, listed)
        decreases rest
      {
        Inhabited(rest);
        var rpcId :| rpcId in rest;
        ListsMore(rs, rpcm, listed, rpcId);
        rpcm[rpcId].free := true;
        rs := rs + [rpcm[rpcId]];
        rest, listed := rest - {rpcId}, listed + {rpcId};
      }
    }
  }

  /** The protocol's effect of emptying `ids` out of the table. */
  ghost function Swept(s: Sys, ids: set<int>, notify: bool): Sys {
    Removed(s, ids, true, set id | id in ids :: Fail(id, notify))
  }

  /** `rs` is the calls under `ids`, each once. */
  ghost predicate Lists(rs: seq<RpcCallInfo>, calls: map<int, RpcCallInfo>, ids: set<int>) {
    && ids <= calls.Keys && |rs| == |ids|
    && (forall r :: r in rs ==> exists id :: id in ids && calls[id] == r)
    && (forall id :: id in ids ==> calls[id] in rs)
  }

  lemma ListsMore(rs: seq<RpcCallInfo>, calls: map<int, RpcCallInfo>, ids: set<int>, id: int)
    requires Lists(rs, calls, ids) && id in calls && id !in ids
    ensures Lists(rs + [calls[id]], calls, ids + {id})
  {
  }
}
