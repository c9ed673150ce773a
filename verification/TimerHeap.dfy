/** The indexed binary heap of the timer manager: timerHeap in
  * deps/timer_mgr/timer_mgr.go together with the container/heap operations it
  * is driven by. */
module TimerHeap {

  class CircTimer {
    const id: int
    const maxTickCount: nat    // 0 means no limit
    const interval: int        // seconds
    var nextTimeMs: int
    var tickCount: nat
    var index: int             // slot in the heap, -1 outside it
    var cancelled: bool

    constructor (id: int, maxTickCount: nat, interval: int, nextTimeMs: int)
      ensures this.id == id && this.maxTickCount == maxTickCount && this.interval == interval
      ensures this.nextTimeMs == nextTimeMs && tickCount == 0 && index == 0 && !cancelled
    {
      this.id, this.maxTickCount, this.interval, this.nextTimeMs := id, maxTickCount, interval, nextTimeMs;
      tickCount, index, cancelled := 0, 0, false;
    }
  }

  // ---------------------------------------------------------------------
  // Heap order on the sequence of keys

  /** Go's (j-1)/2, which truncates: the root is its own parent. */
  function Parent(j: nat): (p: nat)
    ensures j > 0 ==> p < j
  {
    if j == 0 then 0 else (j - 1) / 2
  }

  ghost predicate Edge(keys: seq<int>, i: nat)
    requires i < |keys|
  {
    keys[Parent(i)] <= keys[i]
  }

  ghost predicate Ordered(keys: seq<int>, n: nat)
    requires n <= |keys|
  {
    forall i :: 0 < i < n ==> Edge(keys, i)
  }

  /** Heap order on the first n slots but for the edge above slot j (`up`) or
    * the edges below it (`down`); its children still respect its parent. */
  ghost predicate OrderedAround(keys: seq<int>, n: nat, j: nat, up: bool, down: bool)
    requires j < n <= |keys|
  {
    && (forall i :: 0 < i < n ==> (up && i == j) || (down && Parent(i) == j) || Edge(keys, i))
    && (forall i :: 0 < i < n && j > 0 && Parent(i) == j ==> keys[Parent(j)] <= keys[i])
  }

  function Swapped<T>(s: seq<T>, i: nat, j: nat): seq<T>
    requires i < |s| && j < |s|
  {
    s[i := s[j]][j := s[i]]
  }

  lemma SwappedMembers<T>(s: seq<T>, i: nat, j: nat)
    requires i < |s| && j < |s|
    ensures forall t :: t in Swapped(s, i, j) <==> t in s
  {
    forall t ensures t in Swapped(s, i, j) <==> t in s {
      assert t in multiset(Swapped(s, i, j)) <==> t in multiset(s);
    }
  }

  lemma UpStep(keys: seq<int>, n: nat, j: nat)
    requires 0 < j < n <= |keys| && OrderedAround(keys, n, j, true, false) && keys[j] < keys[Parent(j)]
    ensures OrderedAround(Swapped(keys, Parent(j), j), n, Parent(j), true, false)
  {
    var p, after := Parent(j), Swapped(keys, Parent(j), j);
    forall i | 0 < i < n && i != p ensures Edge(after, i) {
      assert i == j || Edge(keys, i);
    }
    forall i | 0 < i < n && p > 0 && Parent(i) == p ensures after[Parent(p)] <= after[i] {
      assert Edge(keys, p) && (i == j || Edge(keys, i));
    }
  }

  /** `j` is the lesser of i's children. */
  ghost predicate LeastChild(keys: seq<int>, n: nat, i: nat, j: nat)
    requires j < n <= |keys|
  {
    && i < j && Parent(j) == i
    && forall k :: 0 < k < n && Parent(k) == i ==> keys[j] <= keys[k]
  }

  lemma LesserOfTwo(keys: seq<int>, n: nat, i: nat)
    requires 2 * i + 1 < n <= |keys|
    ensures var j := if 2 * i + 2 < n && keys[2 * i + 2] < keys[2 * i + 1] then 2 * i + 2 else 2 * i + 1;
            LeastChild(keys, n, i, j)
  {
    forall k | 0 < k < n && Parent(k) == i ensures k == 2 * i + 1 || k == 2 * i + 2 { }
  }

  lemma DownEnds(keys: seq<int>, n: nat, i: nat, up: bool)
    requires i < n <= |keys| && OrderedAround(keys, n, i, up, true) && n <= 2 * i + 1
    ensures OrderedAround(keys, n, i, up, false)
  {
    forall k | 0 < k < n && Parent(k) == i ensures false { }
  }

  lemma DownStops(keys: seq<int>, n: nat, i: nat, j: nat, up: bool)
    requires i < j < n <= |keys| && OrderedAround(keys, n, i, up, true)
    requires LeastChild(keys, n, i, j) && keys[i] <= keys[j]
    ensures OrderedAround(keys, n, i, up, false)
  {
    forall k | 0 < k < n && Parent(k) == i ensures Edge(keys, k) {
      assert keys[j] <= keys[k];
    }
  }

  lemma DownStep(keys: seq<int>, n: nat, i: nat, j: nat, up: bool)
    requires i < j < n <= |keys| && OrderedAround(keys, n, i, up, true)
    requires LeastChild(keys, n, i, j) && keys[j] < keys[i]
    ensures OrderedAround(Swapped(keys, i, j), n, j, false, true)
  {
    var after := Swapped(keys, i, j);
    forall k | 0 < k < n && Parent(k) != j ensures Edge(after, k) {
      assert k == i || Parent(k) == i || Edge(keys, k);
    }
    forall k | 0 < k < n && Parent(k) == j ensures after[Parent(j)] <= after[k] {
      assert Edge(keys, k);
    }
  }

  lemma OrderedPrefix(keys: seq<int>, n: nat)
    requires n <= |keys| && Ordered(keys, n)
    ensures Ordered(keys[..n], n)
  {
    forall i | 0 < i < n ensures Edge(keys[..n], i) { assert Edge(keys, i); }
  }

  /** Putting the last key in slot j upsets only the edges at j. */
  lemma SwapKeepsAround(keys: seq<int>, n: nat, j: nat)
    requires j < n && n + 1 == |keys| && Ordered(keys, |keys|)
    ensures OrderedAround(Swapped(keys, j, n), n, j, true, true)
  {
    var after := Swapped(keys, j, n);
    forall i | 0 < i < n && i != j && Parent(i) != j ensures Edge(after, i) { assert Edge(keys, i); }
    forall i | 0 < i < n && j > 0 && Parent(i) == j ensures after[Parent(j)] <= after[i] {
      assert Edge(keys, i) && Edge(keys, j);
    }
  }

  /** The root holds the least key. */
  lemma {:induction false} RootIsLeast(keys: seq<int>, i: nat)
    requires i < |keys| && Ordered(keys, |keys|)
    ensures keys[0] <= keys[i]
  {
    if i > 0 {
      assert Edge(keys, i);
      RootIsLeast(keys, Parent(i));
    }
  }

  // ---------------------------------------------------------------------

  class Heap {
    var items: seq<CircTimer>

    constructor ()
      ensures items == []
    {
      items := [];
    }

    ghost function Keys(): (keys: seq<int>)
      reads this, items
      ensures |keys| == |items| && forall i :: 0 <= i < |items| ==> keys[i] == items[i].nextTimeMs
    {
      seq(|items|, i requires 0 <= i < |items| reads this, items => items[i].nextTimeMs)
    }

    /** Every timer's index is its slot; in particular no timer occurs twice. */
    ghost predicate Indexed()
      reads this, items
    {
      forall i :: 0 <= i < |items| ==> items[i].index == i
    }

    ghost predicate Valid()
      reads this, items
    {
      Indexed() && Ordered(Keys(), |items|)
    }

    /** The heap depends on its slots, keys and indices only. */
    twostate lemma Unmoved()
      requires old(Valid()) && items == old(items)
      requires forall t :: t in items ==> t.nextTimeMs == old(t.nextTimeMs) && t.index == old(t.index)
      ensures Valid()
    {
      assert Keys() == old(Keys());
    }

    method Swap(i: nat, j: nat)
      requires i < |items| && j < |items| && Indexed()
      modifies this, (set t: CircTimer | t in items)`index
      ensures items == Swapped(old(items), i, j) && Keys() == Swapped(old(Keys()), i, j)
      ensures Indexed()
      ensures forall t :: t in items <==> t in old(items)
    {
      SwappedMembers(items, i, j);
      items := items[i := items[j]][j := items[i]];
      items[i].index := i;
      items[j].index := j;
    }

    /** heap.up, on the first n slots. */
    method Up(j0: nat, ghost n: nat)
      requires j0 < n <= |items| && Indexed() && OrderedAround(Keys(), n, j0, true, false)
      modifies this, (set t: CircTimer | t in items)`index
      ensures |items| == old(|items|) && Indexed() && Ordered(Keys(), n)
      ensures items[n..] == old(items[n..])
      ensures forall t :: t in items <==> t in old(items)
    {
      var j: nat := j0;
      while true
        invariant j < n <= |items| == old(|items|) && Indexed()
        invariant OrderedAround(Keys(), n, j, true, false)
        invariant items[n..] == old(items[n..])
        invariant forall t :: t in items <==> t in old(items)
        decreases j
      {
        var i := Parent(j);
        if i == j || !(items[j].nextTimeMs < items[i].nextTimeMs) { break; }
        UpStep(Keys(), n, j);
        SwapAway(i, j, n);
        j := i;
      }
    }

    method LesserChild(i: nat, n: nat) returns (j: nat)
      requires 2 * i + 1 < n <= |items|
      ensures j < n && LeastChild(Keys(), n, i, j)
    {
      LesserOfTwo(Keys(), n, i);
      j := 2 * i + 1;
      if j + 1 < n && items[j + 1].nextTimeMs < items[j].nextTimeMs { j := j + 1; }
    }

    /** Where heap.down takes the element in slot i next: to the lesser child, or
      * nowhere when it may stay. */
    method DownChoice(i: nat, n: nat, ghost up: bool) returns (next: nat)
      requires i < n <= |items| && OrderedAround(Keys(), n, i, up, true)
      ensures i <= next < n
      ensures if next == i then OrderedAround(Keys(), n, i, up, false)
              else OrderedAround(Swapped(Keys(), i, next), n, next, false, true)
    {
      if 2 * i + 1 >= n {
        DownEnds(Keys(), n, i, up);
        return i;
      }
      next := LesserChild(i, n);
      if items[next].nextTimeMs < items[i].nextTimeMs {
        DownStep(Keys(), n, i, next, up);
      } else {
        DownStops(Keys(), n, i, next, up);
        next := i;
      }
    }

    /** Swap below slot n. */
    method SwapAway(i: nat, j: nat, ghost n: nat)
      requires i < n <= |items| && j < n && Indexed()
      modifies this, (set t: CircTimer | t in items)`index
      ensures |items| == old(|items|) && Keys() == Swapped(old(Keys()), i, j) && Indexed()
      ensures items[n..] == old(items[n..])
      ensures forall t :: t in items <==> t in old(items)
    {
      Swap(i, j);
    }

    /** heap.down, on the first n slots; says whether the element moved. */
    method Down(i0: nat, n: nat) returns (moved: bool)
      requires i0 < n <= |items| && Indexed() && OrderedAround(Keys(), n, i0, true, true)
      modifies this, (set t: CircTimer | t in items)`index
      ensures |items| == old(|items|) && Indexed()
      ensures if moved then Ordered(Keys(), n) else OrderedAround(Keys(), n, i0, true, false)
      ensures items[n..] == old(items[n..])
      ensures forall t :: t in items <==> t in old(items)
    {
      var i: nat := i0;
      while true
        invariant i0 <= i < n <= |items| == old(|items|) && Indexed()
        invariant OrderedAround(Keys(), n, i, i == i0, true)
        invariant items[n..] == old(items[n..])
        invariant forall t :: t in items <==> t in old(items)
        decreases n - i
      {
        var next := DownChoice(i, n, i == i0);
        if next == i { break; }
        SwapAway(i, next, n);
        i := next;
      }
      return i > i0;
    }

    method Push(timer: CircTimer)
      requires Valid() && timer !in items
      modifies this, timer`index, (set t: CircTimer | t in items)`index
      ensures Valid()
      ensures forall t :: t in items <==> t in old(items) || t == timer
    {
      ghost var keys := Keys();
      timer.index := |items|;
      items := items + [timer];
      assert Keys()[..|items| - 1] == keys;
      forall i | 0 < i < |items| - 1 ensures Edge(Keys(), i) {
        assert Edge(keys, i);
      }
      Up(|items| - 1, |items|);
    }

    /** The slice part of Pop: drop the last slot. */
    method DropLast() returns (timer: CircTimer)
      requires |items| > 0 && Indexed()
      modifies this, (set t: CircTimer | t in items)`index
      ensures timer == old(items[|items| - 1]) && items == old(items[..|items| - 1])
      ensures timer !in items && Indexed() && timer.index == -1 && Keys() == old(Keys())[..|items|]
      ensures forall t :: t in old(items) <==> t in items || t == timer
    {
      assert items == items[..|items| - 1] + [items[|items| - 1]];
      var n := |items| - 1;
      timer := items[n];
      items := items[..n];
      timer.index := -1;
    }

    /** The root goes to the last slot, and the rest is put in order. */
    method RootToEnd(n: nat)
      requires Valid() && |items| == n + 1
      modifies this, (set t: CircTimer | t in items)`index
      ensures |items| == n + 1 && Indexed() && Ordered(Keys(), n) && items[n] == old(items[0])
      ensures forall t :: t in items <==> t in old(items)
    {
      if n > 0 { SwapKeepsAround(Keys(), n, 0); }
      Swap(0, n);
      if n > 0 {
        assert items[n..][0] == old(items[0]);
        var moved := Down(0, n);
        assert items[n..][0] == old(items[0]);
      }
    }

    /** heap.Pop: take out a timer with the least key. */
    method Pop() returns (timer: CircTimer)
      requires Valid() && |items| > 0
      modifies this, (set t: CircTimer | t in items)`index
      ensures Valid() && timer == old(items[0]) && timer !in items && timer.index == -1
      ensures forall t :: t in old(items) <==> t in items || t == timer
    {
      var n := |items| - 1;
      RootToEnd(n);
      OrderedPrefix(Keys(), n);
      timer := DropLast();
    }

    /** heap.Remove: take out the timer in slot i. */
    method Remove(i: nat) returns (timer: CircTimer)
      requires Valid() && i < |items|
      modifies this, (set t: CircTimer | t in items)`index
      ensures Valid() && timer == old(items[i]) && timer !in items && timer.index == -1
      ensures forall t :: t in old(items) <==> t in items || t == timer
    {
      var n := |items| - 1;
      if n != i {
        SwapKeepsAround(Keys(), n, i);
        Swap(i, n);
        var moved := Down(i, n);
        if !moved { Up(i, n); }
      }
      OrderedPrefix(Keys(), n);
      timer := DropLast();
    }
  }
}
