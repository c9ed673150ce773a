/** Weighted sampling (src/configdoc/config_random.go and
  * src/configdoc/config_random_mode.go), merge kind.
  *
  * What the generator answers is a function that may be any at all, so what is
  * proved holds for every outcome, and says which outcome leads to which items. */
module Sampling {
  import opened Basics

  const INT32_MAX := 0x7FFF_FFFF

  datatype Weighted<T> = Weighted(weight: int, item: T)

  /** What the first k entries weigh. */
  function Prefix<T>(ws: seq<Weighted<T>>, k: nat): int
    requires k <= |ws|
  {
    if k == 0 then 0 else Prefix(ws, k - 1) + ws[k - 1].weight
  }

  function Total<T>(ws: seq<Weighted<T>>): int {
    Prefix(ws, |ws|)
  }

  ghost predicate Positive<T>(ws: seq<Weighted<T>>) {
    forall i :: 0 <= i < |ws| ==> ws[i].weight > 0
  }

  lemma {:induction false} PrefixMonotone<T>(ws: seq<Weighted<T>>, i: nat, j: nat)
    requires Positive(ws) && i <= j <= |ws|
    ensures Prefix(ws, i) + (j - i) <= Prefix(ws, j)
    decreases j
  {
    if i < j { PrefixMonotone(ws, i, j - 1); }
  }

  lemma {:induction false} PrefixLocal<T>(ws: seq<Weighted<T>>, vs: seq<Weighted<T>>, k: nat)
    requires k <= |ws| && k <= |vs| && ws[..k] == vs[..k]
    ensures Prefix(ws, k) == Prefix(vs, k)
  {
    if k > 0 {
      assert ws[..k][..k - 1] == ws[..k - 1] && vs[..k][..k - 1] == vs[..k - 1];
      assert ws[..k][k - 1] == vs[..k][k - 1];
      PrefixLocal(ws, vs, k - 1);
    }
  }

  // ---------------------------------------------------------------------
  // Which entry a draw belongs to

  ghost predicate Owns<T>(ws: seq<Weighted<T>>, i: nat, n: int) {
    i < |ws| && Prefix(ws, i) <= n < Prefix(ws, i + 1)
  }

  /** No draw belongs to two entries: prefix search and linear scan agree. */
  lemma OwnerUnique<T>(ws: seq<Weighted<T>>, i: nat, j: nat, n: int)
    requires Positive(ws) && Owns(ws, i, n) && Owns(ws, j, n)
    ensures i == j
  {
    if i < j { PrefixMonotone(ws, i + 1, j); }
    if j < i { PrefixMonotone(ws, j + 1, i); }
  }

  predicate Within(a: int, n: int, b: int) {
    a <= n < b
  }

  function Interval(a: int, b: int): set<int> {
    set n | a <= n < b && Within(a, n, b)
  }

  lemma {:induction false} IntervalSize(a: int, b: int)
    requires a <= b
    ensures |Interval(a, b)| == b - a
    decreases b - a
  {
    if a < b {
      IntervalSize(a, b - 1);
      forall n ensures n in Interval(a, b) <==> n in Interval(a, b - 1) + {b - 1} {
        assert Within(a, n, b) && n < b - 1 ==> Within(a, n, b - 1);
        assert Within(a, n, b - 1) ==> Within(a, n, b);
        assert Within(a, b - 1, b);
      }
      assert Interval(a, b) == Interval(a, b - 1) + {b - 1};
    }
  }

  /** Of the draws from [0, total), entry i is given exactly weight-many. */
  lemma DrawShare<T>(ws: seq<Weighted<T>>, i: nat)
    requires Positive(ws) && i < |ws|
    ensures |set n | 0 <= n < Prefix(ws, |ws|) && Owns(ws, i, n)| == ws[i].weight
  {
    PrefixMonotone(ws, 0, i);
    PrefixMonotone(ws, i + 1, |ws|);
    var share := set n | 0 <= n < Prefix(ws, |ws|) && Owns(ws, i, n);
    forall n ensures n in share <==> n in Interval(Prefix(ws, i), Prefix(ws, i + 1)) {
      assert Owns(ws, i, n) <==> Within(Prefix(ws, i), n, Prefix(ws, i + 1));
    }
    assert share == Interval(Prefix(ws, i), Prefix(ws, i + 1));
    IntervalSize(Prefix(ws, i), Prefix(ws, i + 1));
  }

  // ---------------------------------------------------------------------

  datatype XWeight<T> = XWeight(total: int, ws: seq<Weighted<T>>, prefix: seq<int>)

  /** Totals that fit an int32. */
  ghost predicate Fits<T>(ws: seq<Weighted<T>>) {
    Positive(ws) && Prefix(ws, |ws|) <= INT32_MAX
  }

  ghost predicate Built<T>(x: XWeight<T>) {
    && Fits(x.ws) && x.total == Prefix(x.ws, |x.ws|) && |x.prefix| == |x.ws|
    && forall i :: 0 <= i < |x.ws| ==> x.prefix[i] == Prefix(x.ws, i + 1)
  }

  method NewXWeight<T>(weights: seq<Weighted<T>>) returns (x: XWeight<T>)
    requires Fits(weights)
    ensures Built(x) && x.ws == weights
  {
    var prefix, total := [], 0;
    for i := 0 to |weights|
      invariant total == Prefix(weights, i) && |prefix| == i
      invariant forall k :: 0 <= k < i ==> prefix[k] == Prefix(weights, k + 1)
    {
      PrefixMonotone(weights, 0, i);
      PrefixMonotone(weights, i + 1, |weights|);
      total := Int32(total + weights[i].weight);
      prefix := prefix + [total];
    }
    x := XWeight(total, weights, prefix);
  }

  /** Binary search in the prefix sums; None is the index -1. */
  method RandMergeOneStaticByTotal<T>(x: XWeight<T>, n: int) returns (found: Option<nat>)
    requires Built(x) && n >= 0
    ensures found.Some? <==> n < x.total
    ensures found.Some? ==> Owns(x.ws, found.value, n)
  {
    if x.total <= 0 || |x.ws| == 0 { return None; }
    var idx := 0;
    var j := |x.prefix|;
    while idx < j
      invariant 0 <= idx <= j <= |x.ws|
      invariant Prefix(x.ws, idx) <= n
      invariant j < |x.ws| ==> n < Prefix(x.ws, j + 1)
    {
      var h := (idx + j) / 2;
      if x.prefix[h] > n { j := h; } else { idx := h + 1; }
    }
    if idx >= |x.ws| { return None; }
    PrefixMonotone(x.ws, idx + 1, |x.ws|);
    return Some(idx);
  }

  /** What the generator says to its k-th question for a number below n. */
  type Answers = (nat, int) -> int

  class Generator {
    const answers: Answers
    var calls: nat

    ghost predicate Valid() {
      forall k: nat, n: int :: n > 0 ==> 0 <= answers(k, n) < n
    }

    constructor (answers: Answers)
      ensures this.answers == answers && calls == 0
    {
      this.answers, calls := answers, 0;
    }

    /** rand.Int32N, which panics when there is no number below n. */
    method Int32N(n: int) returns (draw: int)
      requires Valid() && n > 0
      modifies this
      ensures draw == answers(old(calls), n) && calls == old(calls) + 1
    {
      draw := answers(calls, n);
      calls := calls + 1;
    }
  }

  /** The item of the entry that owns the draw n. */
  ghost predicate IsDraw<T>(ws: seq<Weighted<T>>, n: int, item: T) {
    exists i: nat :: Owns(ws, i, n) && item == ws[i].item
  }

  /** The i-th item is that of the i-th answer, from the given call on. */
  ghost predicate Drew<T>(ws: seq<Weighted<T>>, answers: Answers, from: nat, items: seq<T>, i: nat) {
    i < |items| && IsDraw(ws, answers(from + i, Total(ws)), items[i])
  }

  /** One item for each answer. */
  ghost predicate AreDraws<T>(ws: seq<Weighted<T>>, answers: Answers, from: nat, items: seq<T>) {
    forall i: nat :: i < |items| ==> Drew(ws, answers, from, items, i)
  }

  lemma DrawsNext<T>(ws: seq<Weighted<T>>, answers: Answers, from: nat, items: seq<T>, item: T)
    requires AreDraws(ws, answers, from, items) && IsDraw(ws, answers(from + |items|, Total(ws)), item)
    ensures AreDraws(ws, answers, from, items + [item])
  {
    forall i: nat | i < |items + [item]| ensures Drew(ws, answers, from, items + [item], i) {
      if i < |items| { assert Drew(ws, answers, from, items, i); }
    }
  }

  lemma DrawsAreItems<T>(ws: seq<Weighted<T>>, answers: Answers, from: nat, items: seq<T>)
    requires AreDraws(ws, answers, from, items)
    ensures forall i :: 0 <= i < |items| ==> items[i] in ItemsOf(ws)
  {
    forall i | 0 <= i < |items| ensures items[i] in ItemsOf(ws) {
      assert Drew(ws, answers, from, items, i);
      var k: nat :| Owns(ws, k, answers(from + i, Total(ws))) && items[i] == ws[k].item;
      assert ItemsOf(ws)[k] == items[i];
    }
  }

  /** One question to the generator, and the item of the entry that owns the
    * answer; an empty list asks nothing. */
  method RandMergeOneStatic<T>(x: XWeight<T>, gen: Generator) returns (out: Option<T>)
    requires Built(x) && gen.Valid()
    modifies gen
    ensures out.None? <==> |x.ws| == 0
    ensures gen.calls == old(gen.calls) + if out.Some? then 1 else 0
    ensures out.Some? ==> IsDraw(x.ws, gen.answers(old(gen.calls), x.total), out.value)
  {
    PrefixMonotone(x.ws, 0, |x.ws|);
    if x.total <= 0 || |x.ws| == 0 { return None; }
    var draw := gen.Int32N(x.total);
    var idx := RandMergeOneStaticByTotal(x, draw);
    if idx.None? {
      assert false;
    }
    return Some(x.ws[idx.value].item);
  }

  ghost predicate Weighs<T>(s: seq<Weighted<T>>, total: int) {
    Positive(s) && total == Total(s)
  }

  /** The working slice: `left` of its slots remain, and `total` is their weight. */
  ghost predicate Working<T>(ws: array<Weighted<T>>, left: nat, total: int)
    reads ws
  {
    left <= ws.Length && Weighs(ws[..left], total)
  }

  /** The linear scan over the first `len` slots. */
  method RandMergeOneWorkStateByTotal<T>(ws: array<Weighted<T>>, len: nat, total: int, n: int)
    returns (found: Option<nat>)
    requires Working(ws, len, total) && n >= 0
    ensures found.Some? <==> n < total
    ensures found.Some? ==> found.value < len && Owns(ws[..len], found.value, n)
  {
    if total <= 0 || len == 0 { return None; }
    var tempP, idx := 0, 0;
    while idx < len
      invariant 0 <= idx <= len && tempP == Prefix(ws[..len], idx) <= n
    {
      tempP := tempP + ws[idx].weight;
      if tempP > n {
        PrefixMonotone(ws[..len], idx + 1, len);
        return Some(idx);
      }
      idx := idx + 1;
    }
    return None;
  }

  lemma {:induction false} PrefixUpdate<T>(ws: seq<Weighted<T>>, i: nat, w: Weighted<T>, k: nat)
    requires i < |ws| && k <= |ws|
    ensures Prefix(ws[i := w], k) == Prefix(ws, k) + if i < k then w.weight - ws[i].weight else 0
  {
    if k > 0 { PrefixUpdate(ws, i, w, k - 1); }
  }

  /** A draw takes its entry out, and the total stays the remaining weight. */
  lemma SwapRemoveTotals<T>(ws: seq<Weighted<T>>, i: nat)
    requires i < |ws| && Positive(ws)
    ensures var after := SwapRemoved(ws, i);
            && Weighs(after, Total(ws) - ws[i].weight)
            && multiset(ws) == multiset(after) + multiset{ws[i]}
  {
    var last := |ws| - 1;
    PrefixLocal(ws, ws[..last], last);
    assert ws == ws[..last] + [ws[last]];
    if i < last {
      PrefixUpdate(ws[..last], i, ws[last], last);
    }
  }

  /** One draw without replacement: the draw's owner goes out, by swapping it to
    * the end. */
  method RandMergeOneWorkState<T>(ws: array<Weighted<T>>, left: nat, total: int, gen: Generator)
    returns (drawn: Option<Weighted<T>>, left': nat, total': int)
    requires Working(ws, left, total) && gen.Valid()
    modifies ws, gen
    ensures Working(ws, left', total') && gen.calls == old(gen.calls) + if drawn.Some? then 1 else 0
    ensures drawn.None? <==> left == 0
    ensures drawn.None? ==> left' == left && ws[..left'] == old(ws[..left])
    ensures drawn.Some? ==>
              && left' == left - 1
              && TakenOut(old(ws[..left]), gen.answers(old(gen.calls), total), drawn.value, ws[..left'])
  {
    PrefixMonotone(ws[..left], 0, left);
    if total <= 0 || left == 0 { return None, left, total; }
    var draw := gen.Int32N(total);
    var found := RandMergeOneWorkStateByTotal(ws, left, total, draw);
    if found.None? {
      assert false;
    }
    var idx := found.value;
    SwapRemoveTotals(ws[..left], idx);
    var pickedWeight := ws[idx].weight;
    drawn := Some(ws[idx]);
    SwapOut(ws, left, idx);
    left', total' := left - 1, total - pickedWeight;
  }

  /** `w` is the entry the draw belongs to, and `after` the list without it. */
  ghost predicate TakenOut<T>(before: seq<Weighted<T>>, draw: int, w: Weighted<T>, after: seq<Weighted<T>>) {
    exists i: nat :: Owns(before, i, draw) && w == before[i] && after == SwapRemoved(before, i)
  }

  lemma TakenOutPart<T>(before: seq<Weighted<T>>, draw: int, w: Weighted<T>, after: seq<Weighted<T>>)
    requires Positive(before) && TakenOut(before, draw, w, after)
    ensures multiset(before) == multiset(after) + multiset{w} && Positive(after)
  {
    var i: nat :| Owns(before, i, draw) && w == before[i] && after == SwapRemoved(before, i);
    SwapRemoveTotals(before, i);
  }

  method SwapOut<T>(ws: array<Weighted<T>>, left: nat, idx: nat)
    requires idx < left <= ws.Length
    modifies ws
    ensures ws[..left - 1] == SwapRemoved(old(ws[..left]), idx)
  {
    var last := left - 1;
    ws[idx], ws[last] := ws[last], ws[idx];
  }

  function ItemsOf<T>(ws: seq<Weighted<T>>): (items: seq<T>)
    ensures |items| == |ws| && forall i :: 0 <= i < |ws| ==> items[i] == ws[i].item
  {
    seq(|ws|, i requires 0 <= i < |ws| => ws[i].item)
  }

  /** Entry after entry, each the owner of its own answer among those left:
    * `lefts[k]` is what is left before the k-th. */
  ghost predicate DrawnOut<T>(ws: seq<Weighted<T>>, answers: Answers, from: nat,
                              drawn: seq<Weighted<T>>, lefts: seq<seq<Weighted<T>>>)
  {
    && |lefts| == |drawn| + 1 && lefts[0] == ws
    && forall k: nat :: k < |drawn| ==> TookOut(answers, from, drawn, lefts, k)
  }

  ghost predicate TookOut<T>(answers: Answers, from: nat, drawn: seq<Weighted<T>>, lefts: seq<seq<Weighted<T>>>, k: nat)
  {
    && k < |drawn| && |lefts| == |drawn| + 1
    && TakenOut(lefts[k], answers(from + k, Total(lefts[k])), drawn[k], lefts[k + 1])
  }

  lemma {:induction false} DrawnOutCounts<T>(ws: seq<Weighted<T>>, answers: Answers, from: nat,
                                             drawn: seq<Weighted<T>>, lefts: seq<seq<Weighted<T>>>, k: nat)
    requires Positive(ws) && DrawnOut(ws, answers, from, drawn, lefts) && k <= |drawn|
    ensures Positive(lefts[k]) && multiset(ws) == multiset(drawn[..k]) + multiset(lefts[k])
  {
    if k > 0 {
      DrawnOutCounts(ws, answers, from, drawn, lefts, k - 1);
      assert drawn[..k] == drawn[..k - 1] + [drawn[k - 1]];
      assert TookOut(answers, from, drawn, lefts, k - 1);
      TakenOutPart(lefts[k - 1], answers(from + k - 1, Total(lefts[k - 1])), drawn[k - 1], lefts[k - 1 + 1]);
    }
  }

  /** The k-th entry drawn is the owner of the k-th answer in a list of exactly
    * the entries not drawn before it. */
  lemma OwnsAmongLeft<T>(ws: seq<Weighted<T>>, answers: Answers, from: nat,
                         drawn: seq<Weighted<T>>, lefts: seq<seq<Weighted<T>>>, k: nat)
    requires Positive(ws) && DrawnOut(ws, answers, from, drawn, lefts) && k < |drawn|
    ensures multiset(ws) == multiset(drawn[..k]) + multiset(lefts[k])
    ensures exists i: nat :: Owns(lefts[k], i, answers(from + k, Total(lefts[k]))) && drawn[k] == lefts[k][i]
  {
    DrawnOutCounts(ws, answers, from, drawn, lefts, k);
    assert TookOut(answers, from, drawn, lefts, k);
  }

  lemma DrawnOutNext<T>(ws: seq<Weighted<T>>, answers: Answers, from: nat, drawn: seq<Weighted<T>>,
                        lefts: seq<seq<Weighted<T>>>, w: Weighted<T>, rest: seq<Weighted<T>>)
    requires DrawnOut(ws, answers, from, drawn, lefts)
    requires TakenOut(lefts[|drawn|], answers(from + |drawn|, Total(lefts[|drawn|])), w, rest)
    ensures DrawnOut(ws, answers, from, drawn + [w], lefts + [rest])
  {
    forall k: nat | k <= |drawn| ensures TookOut(answers, from, drawn + [w], lefts + [rest], k) {
      if k < |drawn| { assert TookOut(answers, from, drawn, lefts, k); }
    }
  }

  /** Sampling without replacement: as many entries as wanted or there are, each
    * the owner of its answer among those left, and each from a different slot. */
  method RandMergeNForEachWorkState<T>(weights: seq<Weighted<T>>, num: int, gen: Generator)
    returns (drawn: seq<Weighted<T>>, ghost lefts: seq<seq<Weighted<T>>>)
    requires Positive(weights) && gen.Valid()
    modifies gen
    ensures DrawnOut(weights, gen.answers, old(gen.calls), drawn, lefts) && gen.calls == old(gen.calls) + |drawn|
    ensures multiset(weights) == multiset(drawn) + multiset(lefts[|drawn|])
    ensures |drawn| == if num <= 0 then 0 else if num <= |weights| then num else |weights|
  {
    var ws := new Weighted<T>[|weights|](i requires 0 <= i < |weights| => weights[i]);
    assert ws[..] == weights == ws[..|weights|];
    drawn, lefts := DrawEach(ws, Total(weights), num, gen);
    DrawnOutCounts(weights, gen.answers, old(gen.calls), drawn, lefts, |drawn|);
    assert drawn[..|drawn|] == drawn;
  }

  /** Its loop, over the whole working slice. */
  method DrawEach<T>(ws: array<Weighted<T>>, weight: int, num: int, gen: Generator)
    returns (drawn: seq<Weighted<T>>, ghost lefts: seq<seq<Weighted<T>>>)
    requires Working(ws, ws.Length, weight) && gen.Valid()
    modifies ws, gen
    ensures DrawnOut(old(ws[..ws.Length]), gen.answers, old(gen.calls), drawn, lefts)
    ensures gen.calls == old(gen.calls) + |drawn|
    ensures |drawn| == if num <= 0 then 0 else if num <= ws.Length then num else ws.Length
  {
    ghost var start, from := ws[..ws.Length], gen.calls;
    drawn, lefts := [], [start];
    var left: nat, total, i := ws.Length, weight, 0;
    while i < num
      invariant Working(ws, left, total) && gen.calls == from + |drawn|
      invariant |drawn| + left == ws.Length && |drawn| == (if num <= 0 then 0 else i) && (num > 0 ==> i <= num)
      invariant DrawnOut(start, gen.answers, from, drawn, lefts) && lefts[|drawn|] == ws[..left]
    {
      var one: Option<Weighted<T>>;
      one, left, total := RandMergeOneWorkState(ws, left, total, gen);
      if one.None? { break; }
      DrawnOutNext(start, gen.answers, from, drawn, lefts, one.value, ws[..left]);
      drawn, lefts := drawn + [one.value], lefts + [ws[..left]];
      i := i + 1;
    }
  }

  // ---------------------------------------------------------------------
  // Counting

  function Members<T>(s: seq<T>): set<T> {
    set x | x in s
  }

  lemma {:induction false} NoRepeatsSize<T>(s: seq<T>)
    requires NoRepeats(s)
    ensures |Members(s)| == |s|
  {
    if s != [] {
      var n := |s| - 1;
      NoRepeatsSize(s[..n]);
      assert s == s[..n] + [s[n]];
      assert Members(s) == Members(s[..n]) + {s[n]};
    }
  }

  /** A part of a sequence without repeats has none either. */
  lemma PartNoRepeats<T>(whole: seq<T>, part: seq<T>, rest: seq<T>)
    requires NoRepeats(whole) && multiset(whole) == multiset(part) + multiset(rest)
    ensures NoRepeats(part) && forall x :: x in part ==> x in whole
  {
    forall x | x in part ensures x in whole {
      assert x in multiset(part) && x in multiset(whole);
    }
    forall i, j | 0 <= i < j < |part| ensures part[i] != part[j] {
      if part[i] == part[j] {
        Duplicated(part, i, j);
        OccursOnce(whole, part[i]);
      }
    }
  }

  lemma ItemsWithin<T>(whole: seq<Weighted<T>>, part: seq<Weighted<T>>, rest: seq<Weighted<T>>)
    requires multiset(whole) == multiset(part) + multiset(rest)
    ensures Members(ItemsOf(part)) <= Members(ItemsOf(whole))
  {
    forall i | 0 <= i < |part| ensures part[i].item in ItemsOf(whole) {
      assert part[i] in multiset(part) && part[i] in multiset(whole);
      var a :| 0 <= a < |whole| && whole[a] == part[i];
      assert ItemsOf(whole)[a] == part[i].item;
    }
  }

  lemma ItemsNoRepeats<T>(whole: seq<Weighted<T>>, part: seq<Weighted<T>>, rest: seq<Weighted<T>>)
    requires NoRepeats(ItemsOf(whole)) && multiset(whole) == multiset(part) + multiset(rest)
    ensures NoRepeats(ItemsOf(part)) && Members(ItemsOf(part)) <= Members(ItemsOf(whole))
  {
    forall i, j | 0 <= i < j < |whole| ensures whole[i] != whole[j] {
      assert ItemsOf(whole)[i] != ItemsOf(whole)[j];
    }
    PartNoRepeats(whole, part, rest);
    forall i | 0 <= i < |part| ensures part[i].item in ItemsOf(whole) {
      assert part[i] in part;
      var a :| 0 <= a < |whole| && whole[a] == part[i];
      assert ItemsOf(whole)[a] == part[i].item;
    }
    forall i, j | 0 <= i < j < |part| ensures part[i].item != part[j].item {
      assert part[i] in part && part[j] in part;
      var a :| 0 <= a < |whole| && whole[a] == part[i];
      var b :| 0 <= b < |whole| && whole[b] == part[j];
      assert ItemsOf(whole)[a] == part[i].item && ItemsOf(whole)[b] == part[j].item;
      assert a != b;
    }
  }

  // ---------------------------------------------------------------------
  // The selector

  predicate Passes<T>(filter: Option<T -> bool>, item: T) {
    filter.None? || !filter.value(item)
  }

  /** The items that may be returned. */
  function Eligible<T>(ws: seq<Weighted<T>>, filter: Option<T -> bool>): (items: set<T>)
  {
    set x | x in ItemsOf(ws) && Passes(filter, x)
  }

  /** Which path a filter goes first: a guess at how many tries it would take. */
  predicate ShouldUseFilterFast(total: int, num: int, repeat: bool, existingCount: int) {
    repeat || Int32(Int32(existingCount + num) * 5) < Int32(3 * Int32(total))
  }

  /** For counts whose products fit an int32: with repeats, or when five times
    * the items there are and wanted stays below three times the entries. */
  lemma FilterFastIff(total: nat, num: nat, repeat: bool, existingCount: nat)
    requires (existingCount + num) * 5 <= INT32_MAX && 3 * total <= INT32_MAX
    ensures ShouldUseFilterFast(total, num, repeat, existingCount) <==>
            repeat || 5 * (existingCount + num) < 3 * total
  {
  }

  /** With repeats, or for one item: each item belongs to the owner of its own
    * answer. */
  method RandMergeNForEachStatic<T>(x: XWeight<T>, num: int, gen: Generator) returns (out: seq<T>)
    requires Built(x) && gen.Valid()
    modifies gen
    ensures |out| == (if num <= 0 || |x.ws| == 0 then 0 else num)
    ensures AreDraws(x.ws, gen.answers, old(gen.calls), out) && gen.calls == old(gen.calls) + |out|
    ensures Members(out) <= Members(ItemsOf(x.ws))
  {
    out := [];
    var i := 0;
    while i < num
      invariant num > 0 ==> 0 <= i <= num
      invariant |out| == if num <= 0 || |x.ws| == 0 then 0 else i
      invariant AreDraws(x.ws, gen.answers, old(gen.calls), out) && gen.calls == old(gen.calls) + |out|
    {
      var one := RandMergeOneStatic(x, gen);
      if one.Some? {
        DrawsNext(x.ws, gen.answers, old(gen.calls), out, one.value);
        out := out + [one.value];
      }
      i := i + 1;
    }
    DrawsAreItems(x.ws, gen.answers, old(gen.calls), out);
  }

  /** The items of entries drawn one after the other from those left. */
  ghost predicate AreDrawnOut<T(!new)>(ws: seq<Weighted<T>>, answers: Answers, from: nat, items: seq<T>) {
    exists drawn, lefts :: DrawnOut(ws, answers, from, drawn, lefts) && items == ItemsOf(drawn)
  }

  /** How `num` items come out of a list: with repeats, or for one item, from the
    * whole list each time, and otherwise from what is left of it. */
  ghost predicate Sampled<T(!new)>(ws: seq<Weighted<T>>, num: int, repeat: bool, answers: Answers, from: nat,
                                   items: seq<T>)
  {
    if repeat || num == 1 then AreDraws(ws, answers, from, items) else AreDrawnOut(ws, answers, from, items)
  }

  /** The working-slice form, in terms of items. */
  method DrawItems<T(!new)>(weights: seq<Weighted<T>>, num: int, gen: Generator) returns (out: seq<T>)
    requires Positive(weights) && gen.Valid()
    modifies gen
    ensures |out| == (if num <= 0 then 0 else Min(num, |weights|))
    ensures AreDrawnOut(weights, gen.answers, old(gen.calls), out) && gen.calls == old(gen.calls) + |out|
    ensures Members(out) <= Members(ItemsOf(weights))
    ensures NoRepeats(ItemsOf(weights)) ==> NoRepeats(out)
  {
    ghost var lefts;
    var drawn;
    drawn, lefts := RandMergeNForEachWorkState(weights, num, gen);
    out := ItemsOf(drawn);
    ItemsWithin(weights, drawn, lefts[|drawn|]);
    if NoRepeats(ItemsOf(weights)) { ItemsNoRepeats(weights, drawn, lefts[|drawn|]); }
  }

  /** RandomWeightN: no filter. */
  method RandomWeightN<T(!new)>(x: XWeight<T>, num: int, repeat: bool, gen: Generator) returns (out: seq<T>)
    requires Built(x) && gen.Valid()
    modifies gen
    ensures num <= 0 ==> out == []
    ensures num > 0 ==>
              Sampled(x.ws, num, repeat, gen.answers, old(gen.calls), out) && gen.calls == old(gen.calls) + |out|
    ensures num > 0 ==> Members(out) <= Members(ItemsOf(x.ws))
    ensures num > 0 && repeat ==> |out| == (if |x.ws| == 0 then 0 else num)
    ensures num > 0 && !repeat ==> |out| == Min(num, |x.ws|)
    ensures num > 0 && !repeat && NoRepeats(ItemsOf(x.ws)) ==> NoRepeats(out)
  {
    if num <= 0 { return []; }
    if repeat || num == 1 {
      out := RandMergeNForEachStatic(x, num, gen);
    } else {
      out := DrawItems(x.ws, num, gen);
    }
  }

  /** What is kept of the items offered: not what the filter rejects and,
    * without repeats, not what has been kept already. */
  function Kept<T(==)>(offered: seq<T>, repeat: bool, filter: T -> bool): (kept: seq<T>) {
    if offered == [] then []
    else
      var kept, item := Kept(offered[..|offered| - 1], repeat, filter), offered[|offered| - 1];
      if filter(item) || (!repeat && item in kept) then kept else kept + [item]
  }

  /** An item offered is kept, except one the filter rejects; once, when there
    * are to be no repeats, and as often as offered otherwise. */
  lemma {:induction false} KeptMeans<T>(offered: seq<T>, repeat: bool, filter: T -> bool)
    ensures var kept := Kept(offered, repeat, filter);
            && (forall i :: 0 <= i < |kept| ==> kept[i] in offered && !filter(kept[i]))
            && (forall i :: 0 <= i < |offered| && !filter(offered[i]) ==> offered[i] in kept)
            && (!repeat ==> NoRepeats(kept))
            && (repeat ==> forall item :: multiset(kept)[item] == if filter(item) then 0 else multiset(offered)[item])
  {
    if offered != [] {
      var n := |offered| - 1;
      KeptMeans(offered[..n], repeat, filter);
      assert offered == offered[..n] + [offered[n]];
    }
  }

  /** The fast path: static picks, one answer each, until there are enough kept or
    * 3 * num have been made; an empty list ends it at once. */
  ghost predicate FastPicks<T(!new)>(ws: seq<Weighted<T>>, num: int, repeat: bool, filter: T -> bool, answers: Answers,
                               from: nat, asked: nat, ret: seq<T>)
  {
    && (ws == [] || |ret| == num || asked == num * 3)
    && exists offered ::
         |offered| == asked && AreDraws(ws, answers, from, offered) && ret == Kept(offered, repeat, filter)
  }

  lemma KeptNext<T>(offered: seq<T>, item: T, repeat: bool, filter: T -> bool)
    ensures var kept := Kept(offered, repeat, filter);
            Kept(offered + [item], repeat, filter) ==
            if filter(item) || (!repeat && item in kept) then kept else kept + [item]
  {
    assert (offered + [item])[..|offered|] == offered;
  }

  /** At most 3 * num static picks, throwing away what the filter rejects and,
    * without repeats, what is already there. */
  method RandWeightNByFilterFast<T(==, !new)>(x: XWeight<T>, num: int, repeat: bool, filter: T -> bool, gen: Generator)
    returns (ret: seq<T>, ok: bool)
    requires Built(x) && num > 0 && gen.Valid()
    modifies gen
    ensures |ret| <= num && ok == (|ret| == num) && old(gen.calls) <= gen.calls
    ensures FastPicks(x.ws, num, repeat, filter, gen.answers, old(gen.calls), gen.calls - old(gen.calls), ret)
    ensures Members(ret) <= Eligible(x.ws, Some(filter))
    ensures !repeat ==> NoRepeats(ret)
  {
    ghost var offered;
    ret, offered := OfferStatic(x, num, repeat, filter, gen);
    ok := |ret| == num;
    OfferedAreEligible(x.ws, repeat, filter, gen.answers, old(gen.calls), offered);
  }

  lemma OfferedAreEligible<T>(ws: seq<Weighted<T>>, repeat: bool, filter: T -> bool, answers: Answers, from: nat,
                              offered: seq<T>)
    requires AreDraws(ws, answers, from, offered)
    ensures Members(Kept(offered, repeat, filter)) <= Eligible(ws, Some(filter))
    ensures !repeat ==> NoRepeats(Kept(offered, repeat, filter))
  {
    DrawsAreItems(ws, answers, from, offered);
    KeptMeans(offered, repeat, filter);
    var kept := Kept(offered, repeat, filter);
    forall i | 0 <= i < |kept| ensures kept[i] in Eligible(ws, Some(filter)) {
      var k :| 0 <= k < |offered| && offered[k] == kept[i];
    }
  }

  /** Its loop. */
  method OfferStatic<T(==)>(x: XWeight<T>, num: int, repeat: bool, filter: T -> bool, gen: Generator)
    returns (ret: seq<T>, ghost offered: seq<T>)
    requires Built(x) && num > 0 && gen.Valid()
    modifies gen
    ensures |ret| <= num && (x.ws == [] || |ret| == num || |offered| == num * 3)
    ensures gen.calls == old(gen.calls) + |offered| && AreDraws(x.ws, gen.answers, old(gen.calls), offered)
    ensures ret == Kept(offered, repeat, filter)
  {
    var budget := num * 3;
    ret, offered := [], [];
    var i := 0;
    while i < budget && |ret| < num
      invariant |ret| <= num && |offered| == i <= budget && gen.calls == old(gen.calls) + i
      invariant AreDraws(x.ws, gen.answers, old(gen.calls), offered) && ret == Kept(offered, repeat, filter)
      decreases budget - i
    {
      var one := RandMergeOneStatic(x, gen);
      if one.None? { return; }
      i := i + 1;
      DrawsNext(x.ws, gen.answers, old(gen.calls), offered, one.value);
      KeptNext(offered, one.value, repeat, filter);
      offered := offered + [one.value];
      if filter(one.value) { continue; }
      if !repeat && one.value in ret { continue; }
      ret := ret + [one.value];
    }
  }

  /** The entries the slow path draws from, in their order. */
  function Survivors<T(==)>(ws: seq<Weighted<T>>, repeat: bool, filter: T -> bool, exclude: seq<T>)
    : (left: seq<Weighted<T>>)
  {
    if ws == [] then []
    else
      var left, last := Survivors(ws[..|ws| - 1], repeat, filter, exclude), ws[|ws| - 1];
      if filter(last.item) || (!repeat && last.item in exclude) then left else left + [last]
  }

  /** What the slow path may still draw from. */
  ghost predicate IsRemaining<T>(weights: seq<Weighted<T>>, x: XWeight<T>,
                                 repeat: bool, filter: T -> bool, exclude: seq<T>) {
    && Fits(weights)
    && Members(ItemsOf(weights)) == Eligible(x.ws, Some(filter)) - (if repeat then {} else Members(exclude))
    && (NoRepeats(ItemsOf(x.ws)) ==> NoRepeats(ItemsOf(weights)))
  }

  predicate Survives<T(==)>(item: T, repeat: bool, filter: T -> bool, exclude: seq<T>) {
    !filter(item) && (repeat || item !in exclude)
  }

  /** Adding a new item last adds no repeat. */
  lemma OneMoreItem<T>(items: seq<T>, item: T)
    ensures NoRepeats(items + [item]) <==> NoRepeats(items) && item !in items
  {
    var all := items + [item];
    if NoRepeats(all) {
      forall i, j | 0 <= i < j < |items| ensures items[i] != items[j] { assert all[i] != all[j]; }
      forall i | 0 <= i < |items| ensures items[i] != item { assert all[i] != all[|items|]; }
    }
  }

  lemma SurvivorsNext<T>(front: seq<Weighted<T>>, last: Weighted<T>, repeat: bool, filter: T -> bool, exclude: seq<T>)
    ensures var left := Survivors(front, repeat, filter, exclude);
            Survivors(front + [last], repeat, filter, exclude) ==
            if Survives(last.item, repeat, filter, exclude) then left + [last] else left
  {
    assert (front + [last])[..|front|] == front;
  }

  lemma TotalNext<T>(ws: seq<Weighted<T>>, last: Weighted<T>)
    ensures Total(ws + [last]) == Total(ws) + last.weight
    ensures ItemsOf(ws + [last]) == ItemsOf(ws) + [last.item]
  {
    PrefixLocal(ws, ws + [last], |ws|);
  }

  lemma {:induction false} SurvivorsMean<T>(ws: seq<Weighted<T>>, repeat: bool, filter: T -> bool, exclude: seq<T>)
    requires Positive(ws)
    ensures var left := Survivors(ws, repeat, filter, exclude);
            && Positive(left) && Total(left) <= Total(ws)
            && (forall item :: item in ItemsOf(left) <==>
                  item in ItemsOf(ws) && Survives(item, repeat, filter, exclude))
            && (NoRepeats(ItemsOf(ws)) ==> NoRepeats(ItemsOf(left)))
  {
    if ws != [] {
      var front, last := ws[..|ws| - 1], ws[|ws| - 1];
      var left := Survivors(front, repeat, filter, exclude);
      SurvivorsMean(front, repeat, filter, exclude);
      SurvivorsNext(front, last, repeat, filter, exclude);
      assert ws == front + [last];
      TotalNext(front, last);
      TotalNext(left, last);
      OneMoreItem(ItemsOf(front), last.item);
      OneMoreItem(ItemsOf(left), last.item);
    }
  }

  method Remaining<T(==)>(x: XWeight<T>, repeat: bool, filter: T -> bool, exclude: seq<T>)
    returns (weights: seq<Weighted<T>>)
    requires Built(x)
    ensures IsRemaining(weights, x, repeat, filter, exclude) && weights == Survivors(x.ws, repeat, filter, exclude)
  {
    weights := [];
    for i := 0 to |x.ws|
      invariant weights == Survivors(x.ws[..i], repeat, filter, exclude)
    {
      var v := x.ws[i];
      assert x.ws[..i + 1][..i] == x.ws[..i];
      if filter(v.item) { continue; }
      if !repeat && v.item in exclude { continue; }
      weights := weights + [v];
    }
    assert x.ws[..|x.ws|] == x.ws;
    SurvivorsMean(x.ws, repeat, filter, exclude);
  }

  method RandWeightNByFilterSlow<T(==, !new)>(x: XWeight<T>, num: int, repeat: bool, filter: T -> bool, exclude: seq<T>,
                                              gen: Generator)
    returns (ret: seq<T>)
    requires Built(x) && gen.Valid()
    modifies gen
    ensures num <= 0 ==> ret == []
    ensures num > 0 ==>
              Sampled(Survivors(x.ws, repeat, filter, exclude), num, repeat, gen.answers, old(gen.calls), ret)
    ensures num > 0 ==>
              Complete(Eligible(x.ws, Some(filter)) - (if repeat then {} else Members(exclude)), num, repeat,
                       NoRepeats(ItemsOf(x.ws)), ret)
  {
    if num <= 0 { return []; }
    var weights := Remaining(x, repeat, filter, exclude);
    ghost var pool := Members(ItemsOf(weights));
    if NoRepeats(ItemsOf(weights)) { NoRepeatsSize(ItemsOf(weights)); }
    if |weights| == 0 {
      NothingSampled(weights, num, repeat, gen.answers, gen.calls);
      return [];
    }
    assert weights[0].item in pool by { assert ItemsOf(weights)[0] in ItemsOf(weights); }
    var state := NewXWeight(weights);
    if repeat || num == 1 {
      ret := RandMergeNForEachStatic(state, num, gen);
    } else {
      ret := DrawItems(weights, num, gen);
    }
  }

  lemma NothingSampled<T(!new)>(ws: seq<Weighted<T>>, num: int, repeat: bool, answers: Answers, from: nat)
    ensures Sampled(ws, num, repeat, answers, from, [])
  {
    assert DrawnOut(ws, answers, from, [], [ws]) && ItemsOf<T>([]) == [];
  }

  lemma MembersJoin<T>(a: seq<T>, b: seq<T>)
    ensures Members(a + b) == Members(a) + Members(b)
  {
  }

  lemma JoinNoRepeats<T>(a: seq<T>, b: seq<T>, pool: set<T>)
    requires NoRepeats(a) && NoRepeats(b) && Members(a) <= pool && Members(b) <= pool - Members(a)
    ensures NoRepeats(a + b) && Members(a + b) <= pool && |pool - Members(a)| == |pool| - |a|
  {
    NoRepeatsSize(a);
    MembersJoin(a, b);
    forall i, j | 0 <= i < j < |a + b| ensures (a + b)[i] != (a + b)[j] {
      if i < |a| <= j {
        assert a[i] in Members(a) && b[j - |a|] in Members(b);
      }
    }
  }

  lemma NoMoreThan<T>(s: seq<T>, pool: set<T>)
    requires NoRepeats(s) && Members(s) <= pool
    ensures |s| <= |pool|
  {
    NoRepeatsSize(s);
    assert pool == Members(s) + (pool - Members(s));
  }

  /** The fast path after `asked` answers, and the slow path from there for what
    * it left short. */
  ghost predicate FastThenSlowPicks<T(!new)>(ws: seq<Weighted<T>>, num: int, repeat: bool, filter: T -> bool,
                                             answers: Answers, from: nat, ret: seq<T>)
  {
    exists asked: nat, fast: seq<T>, slow: seq<T> ::
      && ret == fast + slow && FastPicks(ws, num, repeat, filter, answers, from, asked, fast)
      && if |fast| == num then slow == []
         else Sampled(Survivors(ws, repeat, filter, fast), num - |fast|, repeat, answers, from + asked, slow)
  }

  /** As many as there can be: the count asked for with repeats, and each eligible
    * item at most once without. */
  ghost predicate Complete<T>(pool: set<T>, num: int, repeat: bool, distinct: bool, ret: seq<T>) {
    && Members(ret) <= pool && |ret| <= num
    && (!repeat && distinct ==> NoRepeats(ret) && |ret| == Min(num, |pool|))
    && (repeat ==> |ret| == if pool == {} then 0 else num)
  }

  lemma FastIsComplete<T>(pool: set<T>, num: int, repeat: bool, distinct: bool, fast: seq<T>)
    requires Members(fast) <= pool && |fast| == num > 0 && (!repeat ==> NoRepeats(fast))
    ensures Complete(pool, num, repeat, distinct, fast + [])
  {
    assert fast == fast + [] && fast[0] in Members(fast);
    if !repeat { NoMoreThan(fast, pool); }
  }

  lemma BothAreComplete<T>(pool: set<T>, num: int, repeat: bool, distinct: bool, fast: seq<T>, slow: seq<T>)
    requires Members(fast) <= pool && |fast| < num && (!repeat ==> NoRepeats(fast))
    requires Complete(if repeat then pool else pool - Members(fast), num - |fast|, repeat, distinct, slow)
    ensures Complete(pool, num, repeat, distinct, fast + slow)
  {
    MembersJoin(fast, slow);
    if fast != [] { assert fast[0] in Members(fast); }
    if !repeat && distinct { JoinNoRepeats(fast, slow, pool); }
  }

  lemma FastThenSlowIs<T(!new)>(ws: seq<Weighted<T>>, num: int, repeat: bool, filter: T -> bool, answers: Answers,
                                from: nat, asked: nat, fast: seq<T>, slow: seq<T>)
    requires FastPicks(ws, num, repeat, filter, answers, from, asked, fast)
    requires if |fast| == num then slow == []
             else Sampled(Survivors(ws, repeat, filter, fast), num - |fast|, repeat, answers, from + asked, slow)
    ensures FastThenSlowPicks(ws, num, repeat, filter, answers, from, fast + slow)
  {
  }

  method FastThenSlow<T(==, !new)>(x: XWeight<T>, num: int, repeat: bool, filter: T -> bool, gen: Generator)
    returns (ret: seq<T>)
    requires Built(x) && num > 0 && gen.Valid()
    modifies gen
    ensures FastThenSlowPicks(x.ws, num, repeat, filter, gen.answers, old(gen.calls), ret)
    ensures Complete(Eligible(x.ws, Some(filter)), num, repeat, NoRepeats(ItemsOf(x.ws)), ret)
  {
    var fast, slow;
    ghost var asked;
    fast, slow, asked := BothPaths(x, num, repeat, filter, gen);
    FastThenSlowIs(x.ws, num, repeat, filter, gen.answers, old(gen.calls), asked, fast, slow);
    ret := fast + slow;
  }

  method BothPaths<T(==, !new)>(x: XWeight<T>, num: int, repeat: bool, filter: T -> bool, gen: Generator)
    returns (fast: seq<T>, slow: seq<T>, ghost asked: nat)
    requires Built(x) && num > 0 && gen.Valid()
    modifies gen
    ensures FastPicks(x.ws, num, repeat, filter, gen.answers, old(gen.calls), asked, fast)
    ensures if |fast| == num then slow == []
            else Sampled(Survivors(x.ws, repeat, filter, fast), num - |fast|, repeat, gen.answers,
                         old(gen.calls) + asked, slow)
    ensures Complete(Eligible(x.ws, Some(filter)), num, repeat, NoRepeats(ItemsOf(x.ws)), fast + slow)
  {
    var ok;
    fast, ok := RandWeightNByFilterFast(x, num, repeat, filter, gen);
    asked, slow := gen.calls - old(gen.calls), [];
    ghost var pool, distinct := Eligible(x.ws, Some(filter)), NoRepeats(ItemsOf(x.ws));
    if ok {
      FastIsComplete(pool, num, repeat, distinct, fast);
      return;
    }
    slow := RandWeightNByFilterSlow(x, num - |fast|, repeat, filter, fast, gen);
    assert pool - {} == pool;
    BothAreComplete(pool, num, repeat, distinct, fast, slow);
  }

  /** For every outcome of the generator and whatever the count already there:
    * without repeats exactly min(num, eligible) different eligible items, and
    * with repeats exactly num eligible items, or none if there are none. */
  method RandWeightNByFilter<T(==, !new)>(x: XWeight<T>, num: int, repeat: bool, existingCount: int,
                                          filter: Option<T -> bool>, gen: Generator)
    returns (ret: seq<T>)
    requires Built(x) && gen.Valid()
    modifies gen
    ensures num <= 0 ==> ret == []
    ensures num > 0 && filter.None? ==> Sampled(x.ws, num, repeat, gen.answers, old(gen.calls), ret)
    ensures num > 0 && filter.Some? ==>
              if ShouldUseFilterFast(|x.ws|, num, repeat, existingCount) then
                FastThenSlowPicks(x.ws, num, repeat, filter.value, gen.answers, old(gen.calls), ret)
              else
                Sampled(Survivors(x.ws, repeat, filter.value, []), num, repeat, gen.answers, old(gen.calls), ret)
    ensures num > 0 ==> Complete(Eligible(x.ws, filter), num, repeat, NoRepeats(ItemsOf(x.ws)), ret)
  {
    if num <= 0 { return []; }
    if filter.None? {
      ret := RandomWeightN(x, num, repeat, gen);
      if NoRepeats(ItemsOf(x.ws)) { NoRepeatsSize(ItemsOf(x.ws)); }
      if |x.ws| > 0 { assert ItemsOf(x.ws)[0] in Members(ItemsOf(x.ws)); }
      assert Eligible(x.ws, filter) == Members(ItemsOf(x.ws));
      return;
    }
    if ShouldUseFilterFast(|x.ws|, num, repeat, existingCount) {
      ret := FastThenSlow(x, num, repeat, filter.value, gen);
    } else {
      ret := RandWeightNByFilterSlow(x, num, repeat, filter.value, [], gen);
      assert Eligible(x.ws, filter) - Members<T>([]) == Eligible(x.ws, filter);
    }
  }
}
