/** The weighted pick among healthy instances (pickWeight in
  * deps/service_mgr/service_mgr.go). */
module ServicePick {
  import opened Basics
  import opened Sampling

  ghost predicate NonNegative<T>(ws: seq<Weighted<T>>) {
    forall i :: 0 <= i < |ws| ==> ws[i].weight >= 0
  }

  lemma {:induction false} PrefixRises<T>(ws: seq<Weighted<T>>, i: nat, j: nat)
    requires NonNegative(ws) && i <= j <= |ws|
    ensures 0 <= Prefix(ws, i) <= Prefix(ws, j)
    decreases j
  {
    if i < j {
      PrefixRises(ws, i, j - 1);
    } else if i > 0 {
      PrefixRises(ws, 0, i - 1);
    }
  }

  /** The weight is an int32 field. */
  ghost predicate Int32Weights<T>(ws: seq<Weighted<T>>) {
    forall i :: 0 <= i < |ws| ==> -INT32_MAX - 1 <= ws[i].weight <= INT32_MAX
  }

  /** The draw falls to the first entry whose running total reaches it. */
  ghost predicate Falls<T>(ws: seq<Weighted<T>>, i: nat, draw: int) {
    i < |ws| && draw <= Prefix(ws, i + 1) && forall k :: 0 < k <= i ==> Prefix(ws, k) < draw
  }

  /** What is left of the draw after k entries, in an int32. */
  function Left<T>(ws: seq<Weighted<T>>, draw: int, k: nat): int
    requires k <= |ws|
  {
    Int32(draw - Prefix(ws, k))
  }

  /** The first entry at which nothing is left of the draw. */
  ghost predicate Stops<T>(ws: seq<Weighted<T>>, i: nat, draw: int) {
    i < |ws| && Left(ws, draw, i + 1) <= 0 && forall k :: 0 < k <= i ==> Left(ws, draw, k) > 0
  }

  lemma Int32Subtracts(a: int, b: int)
    ensures Int32(Int32(a) - b) == Int32(a - b)
  {
    var m := (Int32(a) - a) / 0x1_0000_0000;
    assert Int32(a) == a + m * 0x1_0000_0000;
    SameInt32(a - b, m);
  }

  lemma SameInt32(x: int, m: int)
    ensures Int32(x + m * 0x1_0000_0000) == Int32(x)
  {
  }

  /** A draw below the total, cut to an int32, is always used up. */
  lemma UsedUp(draw: int, total: int)
    requires 0 <= draw < Int32(total)
    ensures Int32(draw - total) < 0
  {
    var m := (Int32(total) - total) / 0x1_0000_0000;
    assert Int32(total) == total + m * 0x1_0000_0000;
    SameInt32(draw - Int32(total), m);
  }

  /** Subtracts weights, of any sign, until the draw is used up; None is the error for no
    * instance or no weight.  The draw is the generator's, below the total cut to an int32. */
  method PickWeight<T>(ins: seq<Weighted<T>>, draw: int) returns (picked: Option<nat>)
    requires Total(ins) == 0 || 0 <= draw < Int32(Total(ins))
    ensures picked.None? <==> Total(ins) == 0
    ensures picked.Some? ==> Stops(ins, picked.value, draw)
  {
    var allWeight := 0;
    for i := 0 to |ins|
      invariant allWeight == Prefix(ins, i)
    {
      allWeight := allWeight + ins[i].weight;
    }
    if |ins| == 0 || allWeight == 0 { return None; }
    var randWeight, i := draw, 0;
    while i < |ins|
      invariant 0 <= i <= |ins| && randWeight == Left(ins, draw, i)
      invariant forall k :: 0 < k <= i ==> Left(ins, draw, k) > 0
    {
      Int32Subtracts(draw - Prefix(ins, i), ins[i].weight);
      randWeight := Int32(randWeight - ins[i].weight);
      if randWeight <= 0 { return Some(i); }
      i := i + 1;
    }
    UsedUp(draw, Total(ins));
    assert false;
  }

  /** As long as something is left and no remainder has exceeded an int32, what
    * is left is exact. */
  lemma LeftIsExact<T>(ws: seq<Weighted<T>>, draw: int, k: nat)
    requires Int32Weights(ws) && 0 <= draw <= INT32_MAX && k <= |ws|
    requires forall j :: 0 < j < k ==> 0 < draw - Prefix(ws, j) <= INT32_MAX
    ensures Left(ws, draw, k) == if draw - Prefix(ws, k) <= INT32_MAX then draw - Prefix(ws, k)
                                 else draw - Prefix(ws, k) - 0x1_0000_0000
    ensures draw - Prefix(ws, k) > INT32_MAX ==> Left(ws, draw, k) < 0
  {
    var before := if k == 0 then draw else draw - Prefix(ws, k - 1);
    assert 0 <= before <= INT32_MAX;
    if draw - Prefix(ws, k) > INT32_MAX { SameInt32(draw - Prefix(ws, k), -1); }
  }

  /** The entry picked is the one the draw falls to if and only if no remainder
    * before it exceeds an int32, which takes a negative weight: such a remainder
    * turns negative, and the entry that caused it is picked instead. */
  lemma StopsIffNoneExceeds<T>(ws: seq<Weighted<T>>, i: nat, draw: int)
    requires Int32Weights(ws) && 0 <= draw <= INT32_MAX && Falls(ws, i, draw)
    ensures Stops(ws, i, draw) <==> forall k :: 0 < k <= i ==> draw - Prefix(ws, k) <= INT32_MAX
  {
    if forall k :: 0 < k <= i ==> draw - Prefix(ws, k) <= INT32_MAX {
      forall k: nat | 0 < k <= i + 1 ensures Left(ws, draw, k) == draw - Prefix(ws, k) { LeftIsExact(ws, draw, k); }
    } else {
      var k := FirstExceeding(ws, i, draw);
      LeftIsExact(ws, draw, k);
    }
  }

  lemma {:induction false} FirstExceeding<T>(ws: seq<Weighted<T>>, i: nat, draw: int) returns (k: nat)
    requires i <= |ws| && exists k :: 0 < k <= i && draw - Prefix(ws, k) > INT32_MAX
    ensures 0 < k <= i && draw - Prefix(ws, k) > INT32_MAX
    ensures forall j :: 0 < j < k ==> draw - Prefix(ws, j) <= INT32_MAX
  {
    if exists k :: 0 < k <= i - 1 && draw - Prefix(ws, k) > INT32_MAX {
      k := FirstExceeding(ws, i - 1, draw);
    } else {
      k := i;
    }
  }

  /** The wrap at work: the draw 0 falls to the last entry and picks the first. */
  lemma WrapPicksEarly()
    ensures var ws := [Weighted(-0x8000_0000, "a"), Weighted(0x7FFF_FFFF, "b"), Weighted(2, "c")];
            Int32Weights(ws) && Total(ws) == 1 && Falls(ws, 2, 0) && Stops(ws, 0, 0) && !Falls(ws, 0, 0)
  {
    var ws := [Weighted(-0x8000_0000, "a"), Weighted(0x7FFF_FFFF, "b"), Weighted(2, "c")];
    assert Prefix(ws, 1) == -0x8000_0000 && Prefix(ws, 2) == -1 && Prefix(ws, 3) == 1;
  }

  /** With no negative weight nothing wraps, and only the entry just before
    * matters. */
  lemma StopsPast<T>(ws: seq<Weighted<T>>, i: nat, draw: int)
    requires NonNegative(ws) && Int32Weights(ws) && i < |ws| && 0 <= draw <= INT32_MAX
    ensures Stops(ws, i, draw) <==> draw <= Prefix(ws, i + 1) && (i > 0 ==> Prefix(ws, i) < draw)
  {
    forall k: nat | k <= |ws| ensures 0 <= Prefix(ws, k) { PrefixRises(ws, 0, k); }
    forall k: nat | k <= i ensures Prefix(ws, k) <= Prefix(ws, i) { PrefixRises(ws, k, i); }
    if i == 0 || Prefix(ws, i) < draw {
      forall k: nat | 0 < k <= i + 1 ensures Left(ws, draw, k) == draw - Prefix(ws, k) { LeftIsExact(ws, draw, k); }
    } else {
      var k := FirstReached(ws, i, draw);
      LeftIsExact(ws, draw, k);
    }
  }

  lemma {:induction false} FirstReached<T>(ws: seq<Weighted<T>>, i: nat, draw: int) returns (k: nat)
    requires 0 < i <= |ws| && Prefix(ws, i) >= draw
    ensures 0 < k <= i && Prefix(ws, k) >= draw && forall j :: 0 < j < k ==> Prefix(ws, j) < draw
  {
    if exists k :: 0 < k <= i - 1 && Prefix(ws, k) >= draw {
      var j: nat :| 0 < j <= i - 1 && Prefix(ws, j) >= draw;
      k := FirstReached(ws, j, draw);
    } else {
      k := i;
    }
  }

  /** The draws that pick an entry, out of those the generator makes. */
  ghost function Share<T>(ws: seq<Weighted<T>>, i: nat): set<int> {
    set draw | 0 <= draw < Int32(Total(ws)) && Stops(ws, i, draw)
  }

  /** How many draws an entry gets.  The comparison is off by one, so for a total
    * that fits the first entry is given one draw too many and the entry that
    * completes the total one too few; a larger total is cut to an int32 first. */
  lemma ShareSizes<T>(ws: seq<Weighted<T>>, i: nat)
    requires NonNegative(ws) && Int32Weights(ws) && i < |ws| && Int32(Total(ws)) > 0
    ensures |Share(ws, i)| == Min(Prefix(ws, i + 1) + 1, Int32(Total(ws)))
                            - if i == 0 then 0 else Min(Prefix(ws, i) + 1, Int32(Total(ws)))
    ensures Total(ws) <= INT32_MAX ==>
              |Share(ws, i)| ==
              if i == 0 then Min(ws[0].weight + 1, Total(ws))
              else if ws[i].weight > 0 && Prefix(ws, i + 1) == Total(ws) then ws[i].weight - 1
              else ws[i].weight
  {
    PrefixRises(ws, i, i + 1);
    PrefixRises(ws, i + 1, |ws|);
    var draws := Int32(Total(ws));
    var from := if i == 0 then 0 else Min(Prefix(ws, i) + 1, draws);
    var upTo := Min(Prefix(ws, i + 1) + 1, draws);
    forall draw ensures draw in Share(ws, i) <==> draw in Interval(from, upTo) {
      if 0 <= draw < draws { StopsPast(ws, i, draw); }
      assert 0 <= draw < draws && Stops(ws, i, draw) <==> Within(from, draw, upTo);
    }
    assert Share(ws, i) == Interval(from, upTo);
    IntervalSize(from, upTo);
  }

  /** Every entry is drawn in proportion to its weight if and only if the first
    * entry carries the whole total. */
  lemma ProportionalIffFirstIsAll<T>(ws: seq<Weighted<T>>)
    requires NonNegative(ws) && Int32Weights(ws) && Int32(Total(ws)) > 0
    ensures (forall i: nat :: i < |ws| ==> |Share(ws, i)| == ws[i].weight) <==> ws[0].weight == Total(ws)
  {
    assert |ws| > 0;
    ShareSizes(ws, 0);
    assert Prefix(ws, 1) == ws[0].weight;
    PrefixRises(ws, 1, |ws|);
    if ws[0].weight == Total(ws) {
      forall i: nat | 0 < i < |ws| ensures |Share(ws, i)| == ws[i].weight {
        PrefixRises(ws, 1, i);
        PrefixRises(ws, i + 1, |ws|);
        ShareSizes(ws, i);
      }
    } else if |Share(ws, 0)| == ws[0].weight {
      var i := LaterWeight(ws, |ws|);
      PrefixRises(ws, 1, i);
      ShareSizes(ws, i);
    }
  }

  lemma {:induction false} LaterWeight<T>(ws: seq<Weighted<T>>, k: nat) returns (i: nat)
    requires NonNegative(ws) && 0 < k <= |ws| && ws[0].weight < Prefix(ws, k)
    ensures 0 < i < k && ws[i].weight > 0
  {
    assert Prefix(ws, 1) == ws[0].weight;
    if ws[k - 1].weight > 0 { i := k - 1; } else { i := LaterWeight(ws, k - 1); }
  }

  /** An entry of no weight, standing first, is picked for the draw 0. */
  lemma WeightlessIsPicked()
    ensures var ws := [Weighted(0, "a"), Weighted(5, "b")];
            NonNegative(ws) && Total(ws) == 5 && Stops(ws, 0, 0) && |Share(ws, 0)| == 1
  {
    var ws := [Weighted(0, "a"), Weighted(5, "b")];
    assert Prefix(ws, 1) == 0 && Prefix(ws, 2) == 5;
    ShareSizes(ws, 0);
  }
}
