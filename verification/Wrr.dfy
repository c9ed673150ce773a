/** Smooth weighted round robin (deps/selector/wrr/wrr.go).
  *
  * Weights are integers here; the source uses float64, where the exact
  * statements hold as long as no rounding happens. */
module Wrr {
  import opened Basics

  datatype Node = Node(address: string, weight: int)

  /** A Go map read: absent keys are zero. */
  function At(m: map<string, int>, key: string): int {
    if key in m then m[key] else 0
  }

  function Sum(s: seq<int>): int {
    if s == [] then 0 else Sum(s[..|s| - 1]) + s[|s| - 1]
  }

  function Weights(nodes: seq<Node>): seq<int> {
    seq(|nodes|, i requires 0 <= i < |nodes| => nodes[i].weight)
  }

  function TotalWeight(nodes: seq<Node>): int {
    Sum(Weights(nodes))
  }

  predicate Distinct(nodes: seq<Node>) {
    forall i, j :: 0 <= i < j < |nodes| ==> nodes[i].address != nodes[j].address
  }

  /** The weight the first k entries add to one address. */
  function Accrued(nodes: seq<Node>, address: string, k: nat): int
    requires k <= |nodes|
  {
    if k == 0 then 0
    else Accrued(nodes, address, k - 1) + if nodes[k - 1].address == address then nodes[k - 1].weight else 0
  }

  /** What entry i's address stands at when the loop has reached it. */
  function Raised(m: map<string, int>, nodes: seq<Node>, i: nat): int
    requires i < |nodes|
  {
    At(m, nodes[i].address) + Accrued(nodes, nodes[i].address, i + 1)
  }

  /** Among the first k, `best` is the first with the highest raised weight. */
  predicate FirstOf(m: map<string, int>, nodes: seq<Node>, k: nat, best: nat)
    requires k <= |nodes|
  {
    && best < k
    && (forall i {:trigger Raised(m, nodes, i)} :: 0 <= i < k ==> Raised(m, nodes, i) <= Raised(m, nodes, best))
    && (forall i {:trigger Raised(m, nodes, i)} :: 0 <= i < best ==> Raised(m, nodes, i) < Raised(m, nodes, best))
  }

  /** `best` is the first node with the highest raised weight. */
  predicate FirstMaximum(m: map<string, int>, nodes: seq<Node>, best: nat) {
    FirstOf(m, nodes, |nodes|, best)
  }

  /** One turn of the loop, for the node selected so far. */
  lemma SelectStep(m: map<string, int>, nodes: seq<Node>, k: nat, best: nat)
    requires k < |nodes| && (k > 0 ==> FirstOf(m, nodes, k, best))
    ensures FirstOf(m, nodes, k + 1, if k == 0 || Raised(m, nodes, best) < Raised(m, nodes, k) then k else best)
  {
  }

  /** Every address has gained the weights of the first k entries. */
  ghost predicate Gained(before: map<string, int>, current: map<string, int>, nodes: seq<Node>, k: nat)
    requires k <= |nodes|
  {
    forall a :: At(current, a) == At(before, a) + Accrued(nodes, a, k)
  }

  /** One turn of the loop, for the weights. */
  lemma RaiseStep(before: map<string, int>, current: map<string, int>, nodes: seq<Node>, k: nat)
    requires k < |nodes| && Gained(before, current, nodes, k)
    ensures At(current, nodes[k].address) + nodes[k].weight == Raised(before, nodes, k)
    ensures Gained(before, current[nodes[k].address := Raised(before, nodes, k)], nodes, k + 1)
  {
  }

  /** Every address gained its weights, and the picked one then paid the total. */
  ghost predicate Settled(before: map<string, int>, after: map<string, int>, nodes: seq<Node>, picked: nat)
    requires picked < |nodes|
  {
    forall a {:trigger At(after, a)} ::
      At(after, a) ==
      if a == nodes[picked].address then Raised(before, nodes, picked) - TotalWeight(nodes)
      else At(before, a) + Accrued(nodes, a, |nodes|)
  }

  lemma SumStep(s: seq<int>, k: nat)
    requires k < |s|
    ensures Sum(s[..k + 1]) == Sum(s[..k]) + s[k]
  {
    assert s[..k + 1][..k] == s[..k];
  }

  class Balancer {
    var currentWeight: map<string, int>

    constructor ()
      ensures currentWeight == map[]
    {
      currentWeight := map[];
    }

    /** One pick; None is the no-available error. */
    method Pick(nodes: seq<Node>) returns (picked: Option<nat>)
      modifies this
      ensures picked.None? <==> nodes == []
      ensures picked.None? ==> currentWeight == old(currentWeight)
      ensures picked.Some? ==>
                && FirstMaximum(old(currentWeight), nodes, picked.value)
                && Settled(old(currentWeight), currentWeight, nodes, picked.value)
    {
      if |nodes| == 0 { return None; }
      var totalWeight, selectWeight, selected := RaiseAll(nodes);
      currentWeight := currentWeight[nodes[selected.value].address := selectWeight - totalWeight];
      return selected;
    }

    /** The loop of a pick: everyone gains its weight, and the first of the
      * highest is selected. */
    method RaiseAll(nodes: seq<Node>) returns (totalWeight: int, selectWeight: int, selected: Option<nat>)
      requires nodes != []
      modifies this
      ensures Gained(old(currentWeight), currentWeight, nodes, |nodes|) && totalWeight == TotalWeight(nodes)
      ensures selected.Some? && FirstMaximum(old(currentWeight), nodes, selected.value)
      ensures selectWeight == Raised(old(currentWeight), nodes, selected.value)
    {
      ghost var before := currentWeight;
      totalWeight, selectWeight, selected := 0, 0, None;
      for k := 0 to |nodes|
        invariant totalWeight == Sum(Weights(nodes)[..k]) && Gained(before, currentWeight, nodes, k)
        invariant selected.None? <==> k == 0
        invariant selected.Some? ==>
                    FirstOf(before, nodes, k, selected.value) && selectWeight == Raised(before, nodes, selected.value)
      {
        SumStep(Weights(nodes), k);
        RaiseStep(before, currentWeight, nodes, k);
        SelectStep(before, nodes, k, if selected.Some? then selected.value else 0);
        totalWeight := totalWeight + nodes[k].weight;
        var cwt := At(currentWeight, nodes[k].address) + nodes[k].weight;
        currentWeight := currentWeight[nodes[k].address := cwt];
        if selected == None || selectWeight < cwt {
          selectWeight, selected := cwt, Some(k);
        }
      }
      assert Weights(nodes)[..|nodes|] == Weights(nodes);
    }

    /** k picks in a row from the same pool, by a balancer that starts even. */
    method Serve(nodes: seq<Node>, k: nat) returns (picks: seq<int>, ghost run: seq<State>, ghost chosen: seq<nat>)
      requires Distinct(nodes) && nodes != [] && Positive(Weights(nodes))
      requires Tracks(currentWeight, nodes, Zero(|nodes|))
      modifies this
      ensures |chosen| == k && IsRun(Weights(nodes), run, chosen)
      ensures picks == run[k].picks && Tracks(currentWeight, nodes, run[k].current)
      ensures k == TotalWeight(nodes) ==> picks == Weights(nodes) && Tracks(currentWeight, nodes, Zero(|nodes|))
    {
      picks := Zero(|nodes|);
      run, chosen := [Start(|nodes|)], [];
      for j := 0 to k
        invariant |chosen| == j && IsRun(Weights(nodes), run, chosen)
        invariant |picks| == |nodes| && picks == run[j].picks && Tracks(currentWeight, nodes, run[j].current)
      {
        ghost var before := currentWeight;
        var picked := Pick(nodes);
        picks := picks[picked.value := picks[picked.value] + 1];
        ghost var after := currentWeight;
        ghost var t := State(seq(|nodes|, i requires 0 <= i < |nodes| => At(after, nodes[i].address)), picks);
        PickIsTurn(before, after, nodes, picked.value, run[j], t);
        ExtendRun(Weights(nodes), run, chosen, picked.value, t);
        run, chosen := run + [t], chosen + [picked.value];
      }
      if k == TotalWeight(nodes) { ExactFairness(Weights(nodes), run, chosen); }
    }
  }

  // ---------------------------------------------------------------------
  // Runs over a fixed pool, as vectors indexed by node

  /** Current weights, and how often each node has been picked. */
  datatype State = State(current: seq<int>, picks: seq<int>)

  function Zero(n: nat): (z: seq<int>)
    ensures |z| == n && forall i :: 0 <= i < n ==> z[i] == 0
  {
    seq(n, i => 0)
  }

  function Start(n: nat): State { State(Zero(n), Zero(n)) }

  predicate Positive(w: seq<int>) {
    forall i :: 0 <= i < |w| ==> w[i] > 0
  }

  predicate Shaped(w: seq<int>, s: State) {
    0 < |w| && |w| == |s.current| && |w| == |s.picks|
  }

  /** One pick over weights `w`: everyone gains its weight, and `b`, the first
    * of the highest, pays the total. */
  predicate Turned(w: seq<int>, s: State, b: nat, t: State) {
    && Shaped(w, s) && Shaped(w, t) && b < |w|
    && (forall i :: 0 <= i < |w| ==> s.current[i] + w[i] <= s.current[b] + w[b])
    && (forall i :: 0 <= i < b ==> s.current[i] + w[i] < s.current[b] + w[b])
    && (forall i :: 0 <= i < |w| ==> t.current[i] == s.current[i] + w[i] - if i == b then Sum(w) else 0)
    && (forall i :: 0 <= i < |w| ==> t.picks[i] == s.picks[i] + if i == b then 1 else 0)
  }

  predicate IsRun(w: seq<int>, run: seq<State>, chosen: seq<nat>) {
    && |run| == |chosen| + 1 && run[0] == Start(|w|) && |w| > 0
    && forall k :: 0 <= k < |chosen| ==> Turned(w, run[k], chosen[k], run[k + 1])
  }

  lemma ExtendRun(w: seq<int>, run: seq<State>, chosen: seq<nat>, b: nat, t: State)
    requires IsRun(w, run, chosen) && Turned(w, run[|chosen|], b, t)
    ensures IsRun(w, run + [t], chosen + [b])
  {
    var run', chosen' := run + [t], chosen + [b];
    forall k | 0 <= k < |chosen'| ensures Turned(w, run'[k], chosen'[k], run'[k + 1]) {
      if k < |chosen| { assert Turned(w, run[k], chosen[k], run[k + 1]); }
    }
  }

  predicate Tracks(m: map<string, int>, nodes: seq<Node>, c: seq<int>) {
    |c| == |nodes| && forall i :: 0 <= i < |nodes| ==> At(m, nodes[i].address) == c[i]
  }

  lemma {:induction false} AccruedDistinct(nodes: seq<Node>, i: nat, k: nat)
    requires Distinct(nodes) && i < |nodes| && k <= |nodes|
    ensures Accrued(nodes, nodes[i].address, k) == if i < k then nodes[i].weight else 0
  {
    if k > 0 { AccruedDistinct(nodes, i, k - 1); }
  }

  lemma RaisedDistinct(m: map<string, int>, nodes: seq<Node>, i: nat)
    requires Distinct(nodes) && i < |nodes|
    ensures Raised(m, nodes, i) == At(m, nodes[i].address) + nodes[i].weight
    ensures Accrued(nodes, nodes[i].address, |nodes|) == nodes[i].weight
  {
    AccruedDistinct(nodes, i, i + 1);
    AccruedDistinct(nodes, i, |nodes|);
  }

  /** With distinct addresses the map-based pick is the vector turn. */
  lemma PickIsTurn(before: map<string, int>, after: map<string, int>, nodes: seq<Node>, picked: nat, s: State, t: State)
    requires Shaped(Weights(nodes), s) && Tracks(before, nodes, s.current)
    requires Shaped(Weights(nodes), t) && Tracks(after, nodes, t.current)
    requires FirstMaximum(before, nodes, picked) && Distinct(nodes)
    requires t.picks == s.picks[picked := s.picks[picked] + 1]
    requires Settled(before, after, nodes, picked)
    ensures Turned(Weights(nodes), s, picked, t)
  {
    var w := Weights(nodes);
    RaisedDistinct(before, nodes, picked);
    forall i | 0 <= i < |nodes|
      ensures s.current[i] + w[i] <= s.current[picked] + w[picked]
      ensures i < picked ==> s.current[i] + w[i] < s.current[picked] + w[picked]
      ensures t.current[i] == s.current[i] + w[i] - if i == picked then Sum(w) else 0
    {
      RaisedDistinct(before, nodes, i);
      assert i != picked ==> nodes[i].address != nodes[picked].address;
      assert At(after, nodes[i].address) == t.current[i];
    }
  }

  lemma {:induction false} SumNonnegative(s: seq<int>, i: nat)
    requires i < |s| && forall j :: 0 <= j < |s| ==> s[j] >= 0
    ensures 0 <= s[i] <= Sum(s)
    decreases |s|
  {
    var n := |s| - 1;
    if i < n {
      SumNonnegative(s[..n], i);
    } else if n > 0 {
      SumNonnegative(s[..n], 0);
    }
  }

  lemma {:induction false} SumZero(n: nat)
    ensures Sum(Zero(n)) == 0
  {
    if n > 0 {
      SumZero(n - 1);
      assert Zero(n)[..n - 1] == Zero(n - 1);
    }
  }

  lemma {:induction false} SumTurned(w: seq<int>, c: seq<int>, d: seq<int>, b: nat, paid: int, k: nat)
    requires |w| == |c| == |d| && k <= |w|
    requires forall i :: 0 <= i < |w| ==> d[i] == c[i] + w[i] - if i == b then paid else 0
    ensures Sum(d[..k]) == Sum(c[..k]) + Sum(w[..k]) - if b < k then paid else 0
    decreases k
  {
    if k > 0 {
      SumTurned(w, c, d, b, paid, k - 1);
      SumStep(d, k - 1);
      SumStep(c, k - 1);
      SumStep(w, k - 1);
    }
  }

  lemma {:induction false} SumsNotPositive(c: seq<int>, w: seq<int>, k: nat)
    requires |c| == |w| && k <= |w| && forall i :: 0 <= i < |w| ==> c[i] + w[i] <= 0
    ensures Sum(c[..k]) + Sum(w[..k]) <= 0
    decreases k
  {
    if k > 0 {
      SumsNotPositive(c, w, k - 1);
      SumStep(c, k - 1);
      SumStep(w, k - 1);
    }
  }

  /** The picked node stood above zero: the raised weights sum to the total. */
  lemma PickedIsPositive(w: seq<int>, s: State, b: nat, t: State)
    requires Turned(w, s, b, t) && Positive(w) && Sum(s.current) == 0
    ensures Sum(t.current) == 0 && s.current[b] + w[b] > 0
  {
    SumTurned(w, s.current, t.current, b, Sum(w), |w|);
    assert w[..|w|] == w && s.current[..|w|] == s.current && t.current[..|w|] == t.current;
    SumNonnegative(w, 0);
    if s.current[b] + w[b] <= 0 {
      SumsNotPositive(s.current, w, |w|);
      assert false;
    }
  }

  /** After any number of picks the current weights sum to zero and each stays
    * above minus the total. */
  lemma {:induction false} Balanced(w: seq<int>, run: seq<State>, chosen: seq<nat>, k: nat)
    requires IsRun(w, run, chosen) && Positive(w) && k <= |chosen|
    ensures Shaped(w, run[k]) && Sum(run[k].current) == 0
    ensures forall i :: 0 <= i < |w| ==> run[k].current[i] > -Sum(w)
  {
    SumNonnegative(w, 0);
    if k == 0 {
      SumZero(|w|);
    } else {
      Balanced(w, run, chosen, k - 1);
      assert Turned(w, run[k - 1], chosen[k - 1], run[k - 1 + 1]);
      PickedIsPositive(w, run[k - 1], chosen[k - 1], run[k]);
    }
  }

  /** A node's current weight is what it is owed: k shares of its weight, less
    * the total for each time it was picked. */
  lemma {:induction false} Owed(w: seq<int>, run: seq<State>, chosen: seq<nat>, k: nat, i: nat)
    requires IsRun(w, run, chosen) && k <= |chosen| && i < |w|
    ensures Shaped(w, run[k]) && run[k].current[i] == k * w[i] - Sum(w) * run[k].picks[i]
  {
    if k > 0 {
      Owed(w, run, chosen, k - 1, i);
      var s, b := run[k - 1], chosen[k - 1];
      assert Turned(w, s, b, run[k - 1 + 1]);
      OwedStep(k, w[i], Sum(w), s.current[i], s.picks[i], i == b);
    }
  }

  lemma OwedStep(k: int, wi: int, total: int, ci: int, picks: int, chosen: bool)
    requires ci == (k - 1) * wi - total * picks
    ensures ci + wi - (if chosen then total else 0) == k * wi - total * (picks + if chosen then 1 else 0)
  {
  }

  lemma OwedIsMultiple(total: int, wi: int, picks: int, ci: int)
    requires ci == total * wi - total * picks && 0 < total && ci > -total
    ensures ci >= 0 && (ci == 0 ==> picks == wi)
  {
    var d := wi - picks;
    assert ci == total * d;
    assert d < 0 ==> total * (d + 1) <= 0;
    assert d > 0 ==> total * (d - 1) >= 0;
  }

  /** W picks from the zero state choose node i exactly w_i times and bring
    * every current weight back to zero. */
  lemma ExactFairness(w: seq<int>, run: seq<State>, chosen: seq<nat>)
    requires IsRun(w, run, chosen) && Positive(w) && 0 <= Sum(w) <= |chosen|
    ensures run[Sum(w)] == State(Zero(|w|), w)
  {
    var W := Sum(w);
    SumNonnegative(w, 0);
    Balanced(w, run, chosen, W);
    var s := run[W];
    forall i | 0 <= i < |w|
      ensures s.current[i] >= 0 && (s.current[i] == 0 ==> s.picks[i] == w[i])
    {
      Owed(w, run, chosen, W, i);
      OwedIsMultiple(W, w[i], s.picks[i], s.current[i]);
    }
    forall i | 0 <= i < |w| ensures s.current[i] == 0 { SumNonnegative(s.current, i); }
    assert s.current == Zero(|w|) && s.picks == w;
  }

  /** Every window of W consecutive picks, wherever it starts, is exactly fair. */
  lemma {:induction false} EveryWindowFair(w: seq<int>, run: seq<State>, chosen: seq<nat>, t: nat, i: nat)
    requires IsRun(w, run, chosen) && Positive(w) && 0 <= Sum(w) && t + Sum(w) <= |chosen| && i < |w|
    ensures Shaped(w, run[t]) && Shaped(w, run[t + Sum(w)])
    ensures run[t + Sum(w)].current == run[t].current
    ensures run[t + Sum(w)].picks[i] == run[t].picks[i] + w[i]
    decreases t
  {
    if t == 0 {
      ExactFairness(w, run, chosen);
    } else {
      EveryWindowFair(w, run, chosen, t - 1, i);
      var u := t - 1 + Sum(w);
      assert Turned(w, run[t - 1], chosen[t - 1], run[t - 1 + 1]) && Turned(w, run[u], chosen[u], run[u + 1]);
      TurnDetermined(w, run[t - 1], chosen[t - 1], run[t], run[u], chosen[u], run[u + 1]);
    }
  }

  lemma TurnDetermined(w: seq<int>, s: State, b: nat, t: State, s': State, b': nat, t': State)
    requires Turned(w, s, b, t) && Turned(w, s', b', t') && s.current == s'.current
    ensures b == b' && t.current == t'.current
  {
    assert s.current[b'] + w[b'] <= s.current[b] + w[b] && s'.current[b] + w[b] <= s'.current[b'] + w[b'];
  }
}
