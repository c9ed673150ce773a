/** The consistent-hash ring (deps/basal/consistent_hash.go). */
module ConsistentHash {
  import opened Basics

  const DEFAULT_REPLICAS := 64

  // ---------------------------------------------------------------------
  // Keys

  datatype Key = Text(text: string) | Number(number: int) | Unsupported

  function Digits(n: nat): string {
    var d := ['0' + (n % 10) as char];
    if n < 10 then d else Digits(n / 10) + d
  }

  function Itoa(n: int): string {
    if n < 0 then "-" + Digits(-n) else Digits(n)
  }

  /** A decimal text read back, its last digit counting once. */
  function ReadDigits(s: string): int {
    if s == [] then 0 else 10 * ReadDigits(s[..|s| - 1]) + (s[|s| - 1] as int - '0' as int)
  }

  function ReadNumber(s: string): int {
    if s != [] && s[0] == '-' then -ReadDigits(s[1..]) else ReadDigits(s)
  }

  lemma {:induction false} DigitsRead(n: nat)
    ensures Digits(n) != [] && ReadDigits(Digits(n)) == n
    ensures forall i :: 0 <= i < |Digits(n)| ==> '0' <= Digits(n)[i] <= '9'
  {
    var last := '0' + (n % 10) as char;
    if n < 10 {
      assert Digits(n) == [last] && [last][..0] == [];
    } else {
      DigitsRead(n / 10);
      assert Digits(n)[..|Digits(n)| - 1] == Digits(n / 10);
    }
  }

  /** A number's text is its decimal notation; so different numbers have different
    * texts. */
  lemma ItoaReads(n: int)
    ensures ReadNumber(Itoa(n)) == n
  {
    if n < 0 {
      DigitsRead(-n);
      assert Itoa(n)[1..] == Digits(-n);
    } else {
      DigitsRead(n);
      assert Digits(n)[0] != '-';
    }
  }

  lemma ItoaInjective(m: int, n: int)
    ensures Itoa(m) == Itoa(n) ==> m == n
  {
    ItoaReads(m);
    ItoaReads(n);
  }

  function KeyToString(key: Key): Option<string> {
    match key
    case Text(text) => Some(text)
    case Number(number) => Some(Itoa(number))
    case Unsupported => None
  }

  // ---------------------------------------------------------------------
  // Sorting (slices.Sort)

  ghost predicate Sorted(s: seq<nat>) {
    forall i, j :: 0 <= i < j < |s| ==> s[i] <= s[j]
  }

  function Insert(x: nat, s: seq<nat>): seq<nat> {
    if s == [] || x <= s[0] then [x] + s else [s[0]] + Insert(x, s[1..])
  }

  function Sort(s: seq<nat>): seq<nat> {
    if s == [] then [] else Insert(s[0], Sort(s[1..]))
  }

  lemma SortedCons(x: nat, s: seq<nat>)
    requires Sorted(s) && forall i :: 0 <= i < |s| ==> x <= s[i]
    ensures Sorted([x] + s)
  {
    var t := [x] + s;
    forall i, j | 0 <= i < j < |t| ensures t[i] <= t[j] {
      assert t[j] == s[j - 1];
    }
  }

  lemma {:induction false} InsertContents(x: nat, s: seq<nat>)
    ensures multiset(Insert(x, s)) == multiset(s) + multiset{x}
  {
    if s != [] && x > s[0] {
      InsertContents(x, s[1..]);
      assert s == [s[0]] + s[1..];
    }
  }

  lemma {:induction false} InsertAbove(x: nat, s: seq<nat>, low: nat)
    requires low <= x && forall i :: 0 <= i < |s| ==> low <= s[i]
    ensures forall i :: 0 <= i < |Insert(x, s)| ==> low <= Insert(x, s)[i]
  {
    if s != [] && x > s[0] {
      InsertAbove(x, s[1..], low);
    }
  }

  lemma {:induction false} InsertSorts(x: nat, s: seq<nat>)
    requires Sorted(s)
    ensures Sorted(Insert(x, s))
  {
    if s == [] || x <= s[0] {
      SortedCons(x, s);
    } else {
      InsertSorts(x, s[1..]);
      InsertAbove(x, s[1..], s[0]);
      SortedCons(s[0], Insert(x, s[1..]));
    }
  }

  /** slices.Sort: ordered, with the same contents. */
  lemma {:induction false} SortSorts(s: seq<nat>)
    ensures Sorted(Sort(s)) && multiset(Sort(s)) == multiset(s)
  {
    if s != [] {
      SortSorts(s[1..]);
      InsertSorts(s[0], Sort(s[1..]));
      InsertContents(s[0], Sort(s[1..]));
      assert s == [s[0]] + s[1..];
    }
  }

  lemma SortedEnds(a: seq<nat>, b: seq<nat>)
    requires Sorted(a) && Sorted(b) && multiset(a) == multiset(b) && a != [] && b != []
    ensures a[0] <= b[0]
  {
    assert b[0] in multiset(b);
    var i :| 0 <= i < |a| && a[i] == b[0];
  }

  /** A sorted sequence is determined by its contents. */
  lemma {:induction false} SortedUnique(a: seq<nat>, b: seq<nat>)
    requires Sorted(a) && Sorted(b) && multiset(a) == multiset(b)
    ensures a == b
  {
    assert |a| == |multiset(a)| == |multiset(b)| == |b|;
    if a != [] {
      SortedEnds(a, b);
      SortedEnds(b, a);
      assert a == [a[0]] + a[1..] && b == [b[0]] + b[1..];
      assert multiset(a[1..]) == multiset(a) - multiset{a[0]};
      assert multiset(b[1..]) == multiset(b) - multiset{b[0]};
      SortedUnique(a[1..], b[1..]);
    }
  }

  lemma SameMembers(a: seq<nat>, b: seq<nat>)
    requires multiset(a) == multiset(b)
    ensures forall h :: h in a <==> h in b
  {
    forall h ensures h in a <==> h in b {
      assert h in a <==> h in multiset(a);
    }
  }

  // ---------------------------------------------------------------------
  // Clockwise successors

  /** Going clockwise from h, p is met no later than q. */
  predicate NoFurther(h: nat, p: nat, q: nat) {
    if p >= h then q < h || p <= q else q < h && p <= q
  }

  ghost predicate IsSuccessor(points: set<nat>, h: nat, p: nat) {
    p in points && forall q :: q in points ==> NoFurther(h, p, q)
  }

  lemma {:induction false} SuccessorExists(points: set<nat>, h: nat)
    requires points != {}
    ensures exists p :: IsSuccessor(points, h, p)
  {
    var q :| q in points;
    if points == {q} {
      assert IsSuccessor(points, h, q);
    } else {
      SuccessorExists(points - {q}, h);
      var p :| IsSuccessor(points - {q}, h, p);
      if NoFurther(h, p, q) {
        assert IsSuccessor(points, h, p);
      } else {
        forall r | r in points ensures NoFurther(h, q, r) {
          assert r == q || r in points - {q};
        }
        assert IsSuccessor(points, h, q);
      }
    }
  }

  /** The ring point that owns hash h: the least one at or above it, or the
    * least of all. */
  ghost function Successor(points: set<nat>, h: nat): (p: nat)
    requires points != {}
    ensures IsSuccessor(points, h, p)
  {
    SuccessorExists(points, h);
    var p :| IsSuccessor(points, h, p);
    p
  }

  lemma SuccessorUnique(points: set<nat>, h: nat, p: nat)
    requires IsSuccessor(points, h, p)
    ensures p == Successor(points, h)
  {
    var q := Successor(points, h);
    assert NoFurther(h, p, q) && NoFurther(h, q, p);
  }

  /** The node that owns hash h. */
  ghost function Owner<T>(nodes: map<nat, T>, h: nat): T
    requires nodes.Keys != {}
  {
    nodes[Successor(nodes.Keys, h)]
  }

  // ---------------------------------------------------------------------
  // Ring states

  /** How virtual nodes are placed: `virtualKey` is fmt's "%v#%d". */
  datatype Placement<!T> = Placement(replicas: nat, hashFunc: string -> nat, virtualKey: (T, nat) -> string) {
    function Point(node: T, i: nat): nat {
      hashFunc(virtualKey(node, i))
    }

    function PointList(node: T, k: nat): seq<nat> {
      seq(k, i requires 0 <= i < k => Point(node, i))
    }

    ghost function Points(node: T): (points: set<nat>)
      ensures forall h :: h in points <==> h in PointList(node, replicas)
    {
      set h | h in PointList(node, replicas)
    }
  }

  /** One of the node's virtual nodes hashes to h. */
  ghost predicate PlacedAt<T>(pl: Placement<T>, node: T, h: nat) {
    exists i: nat :: i < pl.replicas && h == pl.hashFunc(pl.virtualKey(node, i))
  }

  lemma PointsArePlaced<T(!new)>(pl: Placement<T>, node: T)
    ensures forall h :: h in pl.Points(node) <==> PlacedAt(pl, node, h)
  {
    forall h ensures h in pl.Points(node) <==> PlacedAt(pl, node, h) {
      if h in pl.Points(node) {
        var i :| 0 <= i < pl.replicas && pl.PointList(node, pl.replicas)[i] == h;
        assert h == pl.hashFunc(pl.virtualKey(node, i));
      }
      if i: nat :| i < pl.replicas && h == pl.hashFunc(pl.virtualKey(node, i)) {
        assert pl.PointList(node, pl.replicas)[i] == h;
      }
    }
  }

  datatype RingState<!T> = RingState(ring: seq<nat>, nodes: map<nat, T>, nodeSet: set<T>)

  /** The ring is sorted, its points are exactly the map's keys, and a point
    * belongs to a live node that has a virtual node there. */
  ghost predicate WellFormed<T(!new)>(pl: Placement<T>, s: RingState<T>) {
    && Sorted(s.ring)
    && (forall h :: h in s.ring <==> h in s.nodes)
    && (forall h :: h in s.nodes ==> s.nodes[h] in s.nodeSet && h in pl.Points(s.nodes[h]))
  }

  /** AddNode of a new node: its points are laid over whatever was there. */
  ghost predicate Added<T(!new)>(pl: Placement<T>, s: RingState<T>, node: T, t: RingState<T>) {
    && t.ring == Sort(s.ring + pl.PointList(node, pl.replicas))
    && t.nodes.Keys == s.nodes.Keys + pl.Points(node)
    && (forall h :: h in t.nodes ==> t.nodes[h] == if h in pl.Points(node) then node else s.nodes[h])
    && t.nodeSet == s.nodeSet + {node}
  }

  /** RemoveNode of a live node: its points go, whoever holds them. */
  ghost predicate Removed<T(!new)>(pl: Placement<T>, s: RingState<T>, node: T, t: RingState<T>) {
    && Sorted(t.ring) && multiset(t.ring) == multiset(t.nodes.Keys)
    && t.nodes == s.nodes - pl.Points(node)
    && t.nodeSet == s.nodeSet - {node}
  }

  lemma AddedWellFormed<T(!new)>(pl: Placement<T>, s: RingState<T>, node: T, t: RingState<T>)
    requires WellFormed(pl, s) && Added(pl, s, node, t)
    ensures WellFormed(pl, t)
  {
    var all := s.ring + pl.PointList(node, pl.replicas);
    SortSorts(all);
    SameMembers(t.ring, all);
  }

  lemma RemovedWellFormed<T(!new)>(pl: Placement<T>, s: RingState<T>, node: T, t: RingState<T>)
    requires WellFormed(pl, s) && Removed(pl, s, node, t)
    ensures WellFormed(pl, t) && node !in t.nodeSet
  {
    forall h ensures h in t.ring <==> h in t.nodes {
      assert h in t.ring <==> h in multiset(t.ring);
    }
  }

  /** Collisions or not, a lookup only ever answers with a live node. */
  lemma OwnerIsLive<T(!new)>(pl: Placement<T>, s: RingState<T>, h: nat)
    requires WellFormed(pl, s) && s.nodes.Keys != {}
    ensures Owner(s.nodes, h) in s.nodeSet
  {
  }

  /** Adding a node moves keys to that node only. */
  lemma AddMovesToNewNode<T(!new)>(pl: Placement<T>, s: RingState<T>, node: T, t: RingState<T>, h: nat)
    requires Added(pl, s, node, t) && s.nodes.Keys != {}
    ensures Owner(t.nodes, h) == node || Owner(t.nodes, h) == Owner(s.nodes, h)
  {
    var q := Successor(t.nodes.Keys, h);
    if q !in pl.Points(node) {
      SuccessorUnique(s.nodes.Keys, h, q);
    }
  }

  /** None of the node's virtual points is held by another node. */
  ghost predicate Unshared<T>(pl: Placement<T>, s: RingState<T>, node: T) {
    forall h :: h in pl.Points(node) && h in s.nodes ==> s.nodes[h] == node
  }

  /** Removing a node deletes only that node's ring points exactly when none of
    * them had been taken over by another node. */
  lemma RemoveDeletesOwnPoints<T(!new)>(pl: Placement<T>, s: RingState<T>, node: T, t: RingState<T>)
    requires WellFormed(pl, s) && Removed(pl, s, node, t)
    ensures Unshared(pl, s, node) <==> forall h :: h in s.nodes && s.nodes[h] != node ==> h in t.nodes
  {
  }

  /** Without collisions, removing a node moves only the keys it owned. */
  lemma RemoveMovesOwnKeys<T(!new)>(pl: Placement<T>, s: RingState<T>, node: T, t: RingState<T>, h: nat)
    requires Removed(pl, s, node, t) && Unshared(pl, s, node)
    requires s.nodes.Keys != {} && Owner(s.nodes, h) != node
    ensures t.nodes.Keys != {} && Owner(t.nodes, h) == Owner(s.nodes, h)
  {
    var p := Successor(s.nodes.Keys, h);
    assert p in t.nodes;
    SuccessorUnique(t.nodes.Keys, h, p);
  }

  /** A key not owned by `node` keeps its owner when `node` is removed. */
  ghost predicate Keeps<T>(s: RingState<T>, node: T, t: RingState<T>, h: nat)
    requires s.nodes.Keys != {}
  {
    Owner(s.nodes, h) != node ==> t.nodes.Keys != {} && Owner(t.nodes, h) == Owner(s.nodes, h)
  }

  lemma SuccessorPastGap(before: set<nat>, after: set<nat>, h: nat)
    requires before != {} && {} < after <= before
    ensures Successor(after, h) == Successor(after, Successor(before, h))
  {
    var p := Successor(before, h);
    var q := Successor(after, h);
    forall r | r in after ensures NoFurther(p, q, r) {
      assert NoFurther(h, q, r) && NoFurther(h, p, r) && NoFurther(h, p, q);
    }
    SuccessorUnique(after, p, q);
  }

  /** Each point taken over from `node` is followed, once the node's points are
    * gone, by a point of the same holder.  Read off the ring before a removal. */
  ghost predicate HoldersFollow<T>(pl: Placement<T>, s: RingState<T>, node: T) {
    var rest := s.nodes - pl.Points(node);
    forall p :: p in s.nodes && p in pl.Points(node) && s.nodes[p] != node ==>
      rest.Keys != {} && Owner(rest, p) == s.nodes[p]
  }

  /** With collisions, every other node keeps its keys exactly when each point
    * taken over from the removed node has its holder's point next on the ring. */
  lemma RemoveMovesOwnKeysIff<T(!new)>(pl: Placement<T>, s: RingState<T>, node: T, t: RingState<T>)
    requires WellFormed(pl, s) && Removed(pl, s, node, t) && s.nodes.Keys != {}
    ensures (forall h: nat {:trigger Keeps(s, node, t, h)} :: Keeps(s, node, t, h)) <==> HoldersFollow(pl, s, node)
  {
    if HoldersFollow(pl, s, node) {
      forall h: nat ensures Keeps(s, node, t, h) { FollowedKeeps(pl, s, node, t, h); }
    } else {
      var p :| p in s.nodes && p in pl.Points(node) && s.nodes[p] != node
            && !(t.nodes.Keys != {} && Owner(t.nodes, p) == s.nodes[p]);
      SuccessorUnique(s.nodes.Keys, p, p);
      assert !Keeps(s, node, t, p);
    }
  }

  lemma FollowedKeeps<T(!new)>(pl: Placement<T>, s: RingState<T>, node: T, t: RingState<T>, h: nat)
    requires Removed(pl, s, node, t) && s.nodes.Keys != {} && HoldersFollow(pl, s, node)
    ensures Keeps(s, node, t, h)
  {
    var p := Successor(s.nodes.Keys, h);
    if p in t.nodes {
      SuccessorUnique(t.nodes.Keys, h, p);
    } else if s.nodes[p] != node {
      SuccessorPastGap(s.nodes.Keys, t.nodes.Keys, h);
    }
  }

  /** A lookup after a removal never answers the removed node. */
  lemma RemovedIsNotAnswered<T(!new)>(pl: Placement<T>, s: RingState<T>, node: T, t: RingState<T>, h: nat)
    requires WellFormed(pl, s) && Removed(pl, s, node, t) && t.nodes.Keys != {}
    ensures Owner(t.nodes, h) != node
  {
    RemovedWellFormed(pl, s, node, t);
    OwnerIsLive(pl, t, h);
  }

  // ---------------------------------------------------------------------
  // Two nodes, one after the other, on the same point

  function Colliding(): Placement<int> {
    Placement(1, key => 7, (node, i) => Itoa(node) + "#" + Itoa(i))
  }

  lemma CollidingPoints(node: int)
    ensures Colliding().PointList(node, 1) == [7] && Colliding().Points(node) == {7}
  {
    assert Colliding().PointList(node, 1) == [7];
  }

  /** From the empty ring, adding node 1 and then node 2. */
  lemma CollidingAdds()
    ensures var s0, s1, s2 := RingState([], map[], {}), RingState([7], map[7 := 1], {1}),
                            RingState([7, 7], map[7 := 2], {1, 2});
            Added(Colliding(), s0, 1, s1) && Added(Colliding(), s1, 2, s2) && WellFormed(Colliding(), s2)
  {
    CollidingPoints(1);
    CollidingPoints(2);
    SortSevens();
    assert [] + [7] == [7] && [7] + [7] == [7, 7];
  }

  lemma SortSevens()
    ensures Sort([7]) == [7] && Sort([7, 7]) == [7, 7]
  {
    assert [7][1..] == [] && [7, 7][1..] == [7];
  }

  /** Then removing node 1 takes away the point node 2 holds, and node 2, still
    * live, is answered for no key. */
  lemma RemovingMayStealPoints()
    ensures var s, t := RingState([7, 7], map[7 := 2], {1, 2}), RingState([], map[], {2});
            && Removed(Colliding(), s, 1, t) && s.nodes.Keys != {} && Owner(s.nodes, 7) == 2
            && !Unshared(Colliding(), s, 1) && !HoldersFollow(Colliding(), s, 1)
  {
    CollidingPoints(1);
    CollidingAdds();
    var s: RingState<int>, t: RingState<int> := RingState([7, 7], map[7 := 2], {1, 2}), RingState([], map[], {2});
    SuccessorUnique(s.nodes.Keys, 7, 7);
    assert multiset(t.ring) == multiset(t.nodes.Keys);
    RemoveDeletesOwnPoints(Colliding(), s, 1, t);
  }

  lemma StrictlySorted(s: seq<nat>, points: set<nat>)
    requires forall h :: h in s <==> h in points
    requires NoRepeats(s)
    ensures multiset(s) == multiset(points)
  {
    forall h ensures multiset(s)[h] == multiset(points)[h] {
      if h in s { OccursOnce(s, h); }
    }
  }

  lemma AddThenRemoveMap<T(!new)>(pl: Placement<T>, s: RingState<T>, node: T, t: RingState<T>, u: RingState<T>)
    requires Added(pl, s, node, t) && Removed(pl, t, node, u)
    ensures u.nodes.Keys == s.nodes.Keys - pl.Points(node)
    ensures u.nodes == s.nodes <==> pl.Points(node) !! s.nodes.Keys
  {
    assert u.nodes.Keys == s.nodes.Keys - pl.Points(node);
  }

  /** Adding a node and removing it again gives back the map exactly when its
    * points were free, and the ring too exactly when it held no point twice. */
  lemma AddThenRemove<T(!new)>(pl: Placement<T>, s: RingState<T>, node: T, t: RingState<T>, u: RingState<T>)
    requires WellFormed(pl, s) && node !in s.nodeSet && Added(pl, s, node, t) && Removed(pl, t, node, u)
    ensures u.nodeSet == s.nodeSet
    ensures u.nodes == s.nodes <==> pl.Points(node) !! s.nodes.Keys
    ensures u == s <==> pl.Points(node) !! s.nodes.Keys && NoRepeats(s.ring)
  {
    AddThenRemoveMap(pl, s, node, t, u);
    if u.nodes == s.nodes { SameRingIff(s.ring, u.ring, s.nodes.Keys); }
  }

  lemma SameRingIff(ring: seq<nat>, rebuilt: seq<nat>, points: set<nat>)
    requires Sorted(ring) && forall h :: h in ring <==> h in points
    requires Sorted(rebuilt) && multiset(rebuilt) == multiset(points)
    ensures ring == rebuilt <==> NoRepeats(ring)
  {
    if NoRepeats(ring) {
      StrictlySorted(ring, points);
      SortedUnique(ring, rebuilt);
    } else {
      var i, j :| 0 <= i < j < |ring| && ring[i] == ring[j];
      Duplicated(ring, i, j);
    }
  }

  // ---------------------------------------------------------------------
  // Walking the ring

  /** The first ring slot at or above h, or the end. */
  ghost predicate IsSlot(ring: seq<nat>, h: nat, idx: nat) {
    && idx <= |ring|
    && (forall i :: 0 <= i < idx ==> ring[i] < h)
    && (forall i :: idx <= i < |ring| ==> ring[i] >= h)
  }

  /** sort.Search over the ring. */
  method Search(ring: seq<nat>, h: nat) returns (idx: nat)
    requires Sorted(ring)
    ensures IsSlot(ring, h, idx)
  {
    idx := 0;
    var j := |ring|;
    while idx < j
      invariant 0 <= idx <= j <= |ring|
      invariant forall i :: 0 <= i < idx ==> ring[i] < h
      invariant forall i :: j <= i < |ring| ==> ring[i] >= h
    {
      var mid := (idx + j) / 2;
      if ring[mid] < h { idx := mid + 1; } else { j := mid; }
    }
  }

  lemma SlotUnique(ring: seq<nat>, h: nat, i: nat, j: nat)
    requires IsSlot(ring, h, i) && IsSlot(ring, h, j)
    ensures i == j
  {
    if i < |ring| { assert ring[i] >= h; }
    if j < |ring| { assert ring[j] >= h; }
  }

  lemma SlotOwner<T(!new)>(pl: Placement<T>, s: RingState<T>, h: nat, idx: nat)
    requires WellFormed(pl, s) && s.ring != [] && IsSlot(s.ring, h, idx)
    ensures s.nodes.Keys != {}
    ensures Owner(s.nodes, h) == s.nodes[s.ring[if idx == |s.ring| then 0 else idx]]
  {
    var k := if idx == |s.ring| then 0 else idx;
    assert s.ring[k] in s.nodes;
    forall q | q in s.nodes.Keys ensures NoFurther(h, s.ring[k], q) {
      var i :| 0 <= i < |s.ring| && s.ring[i] == q;
    }
    SuccessorUnique(s.nodes.Keys, h, s.ring[k]);
  }

  /** Who holds each ring slot. */
  ghost function Slots<T(!new)>(s: RingState<T>): (owners: seq<T>)
    requires forall h :: h in s.ring ==> h in s.nodes
    ensures |owners| == |s.ring| && forall i :: 0 <= i < |s.ring| ==> owners[i] == s.nodes[s.ring[i]]
  {
    seq(|s.ring|, i requires 0 <= i < |s.ring| => s.nodes[s.ring[i]])
  }

  /** The slot k steps clockwise from slot idx. */
  ghost function SlotAfter(n: nat, idx: nat, k: nat): (slot: nat)
    requires idx <= n && n > 0
    ensures slot < n
  {
    if k == 0 then if idx == n then 0 else idx
    else if SlotAfter(n, idx, k - 1) + 1 == n then 0 else SlotAfter(n, idx, k - 1) + 1
  }

  lemma {:induction false} SlotInLap(n: nat, idx: nat, k: nat)
    requires idx < n && k < n
    ensures SlotAfter(n, idx, k) == if idx + k < n then idx + k else idx + k - n
  {
    if k > 0 { SlotInLap(n, idx, k - 1); }
  }

  /** The owners met in k steps clockwise from slot idx. */
  ghost function Walk<T(!new)>(owners: seq<T>, idx: nat, k: nat): (met: seq<T>)
    requires owners != [] && idx <= |owners|
    ensures |met| == k
  {
    if k == 0 then [] else Walk(owners, idx, k - 1) + [owners[SlotAfter(|owners|, idx, k - 1)]]
  }

  lemma {:induction false} WalkMeets<T(!new)>(owners: seq<T>, idx: nat, k: nat, i: nat)
    requires owners != [] && idx <= |owners| && i < k
    ensures Walk(owners, idx, k)[i] == owners[SlotAfter(|owners|, idx, i)]
    ensures Walk(owners, idx, k)[..i] == Walk(owners, idx, i)
  {
    if i < k - 1 { WalkMeets(owners, idx, k - 1, i); }
  }

  /** The distinct elements, in order of first appearance. */
  function Distinct<T(==, !new)>(s: seq<T>): (d: seq<T>) {
    if s == [] then []
    else
      var d := Distinct(s[..|s| - 1]);
      if s[|s| - 1] in d then d else d + [s[|s| - 1]]
  }

  lemma {:induction false} DistinctIsDistinct<T(!new)>(s: seq<T>)
    ensures NoRepeats(Distinct(s)) && forall x :: x in Distinct(s) <==> x in s
  {
    if s != [] {
      DistinctIsDistinct(s[..|s| - 1]);
      assert forall x :: x in s <==> x in s[..|s| - 1] || x == s[|s| - 1];
    }
  }

  lemma {:induction false} DistinctPrefix<T(!new)>(s: seq<T>, k: nat)
    requires k <= |s|
    ensures Distinct(s[..k]) <= Distinct(s)
  {
    if k < |s| {
      DistinctPrefix(s[..|s| - 1], k);
      assert s[..|s| - 1][..k] == s[..k];
    } else {
      assert s[..k] == s;
    }
  }

  lemma {:induction false} DistinctSize<T(!new)>(d: seq<T>, all: set<T>)
    requires NoRepeats(d) && forall x :: x in d ==> x in all
    ensures |d| <= |all|
    ensures (forall x :: x in all ==> x in d) ==> |d| == |all|
  {
    if d == [] {
      if forall x :: x in all ==> x in d { assert all == {}; }
    } else {
      var n := |d| - 1;
      assert forall x :: x in d <==> x in d[..n] || x == d[n];
      DistinctSize(d[..n], all - {d[n]});
    }
  }

  lemma LapReaches<T(!new)>(owners: seq<T>, idx: nat, i: nat)
    requires idx <= |owners| && i < |owners|
    ensures owners[i] in Walk(owners, idx, |owners|)
  {
    var n := |owners|;
    var start := if idx == n then 0 else idx;
    var k := if start <= i then i - start else i + n - start;
    SlotInLap(n, start, k);
    SameStart(n, idx, k);
    WalkMeets(owners, idx, n, k);
  }

  lemma {:induction false} SameStart(n: nat, idx: nat, k: nat)
    requires idx <= n && n > 0
    ensures SlotAfter(n, idx, k) == SlotAfter(n, if idx == n then 0 else idx, k)
  {
    if k > 0 { SameStart(n, idx, k - 1); }
  }

  /** One lap meets every owner, and no walk meets more. */
  lemma LapMeetsAll<T(!new)>(owners: seq<T>, idx: nat, k: nat, all: set<T>)
    requires owners != [] && idx <= |owners| && forall x :: x in owners <==> x in all
    ensures |Distinct(Walk(owners, idx, k))| <= |all|
    ensures |Distinct(Walk(owners, idx, |owners|))| == |all|
  {
    var lap, walk := Walk(owners, idx, |owners|), Walk(owners, idx, k);
    DistinctIsDistinct(walk);
    DistinctIsDistinct(lap);
    forall i | 0 <= i < k ensures walk[i] in owners { WalkMeets(owners, idx, k, i); }
    forall i | 0 <= i < |owners| ensures lap[i] in owners { WalkMeets(owners, idx, |owners|, i); }
    DistinctSize(Distinct(walk), all);
    forall x | x in all ensures x in lap {
      var i :| 0 <= i < |owners| && owners[i] == x;
      LapReaches(owners, idx, i);
    }
    DistinctSize(Distinct(lap), all);
  }

  /** One turn of the collecting loop. */
  lemma DistinctTurn<T(!new)>(owners: seq<T>, idx: nat, k: nat, slot: nat, all: set<T>)
    requires owners != [] && idx <= |owners| && forall x :: x in owners <==> x in all
    requires slot == SlotAfter(|owners|, idx, k)
    ensures slot < |owners| && SlotAfter(|owners|, idx, k + 1) == if slot + 1 == |owners| then 0 else slot + 1
    ensures var d := Distinct(Walk(owners, idx, k));
            Distinct(Walk(owners, idx, k + 1)) == if owners[slot] in d then d else d + [owners[slot]]
    ensures k + 1 == |owners| ==> |Distinct(Walk(owners, idx, k + 1))| == |all|
  {
    assert Walk(owners, idx, k + 1)[..k] == Walk(owners, idx, k);
    LapMeetsAll(owners, idx, k, all);
  }

  /** What the collecting loop holds after `steps` steps. */
  ghost predicate Met<T(!new)>(owners: seq<T>, start: nat, steps: nat, result: seq<T>, seen: set<T>)
    requires owners != [] && start <= |owners|
  {
    result == Distinct(Walk(owners, start, steps)) && |seen| == |result| && seen == Members(result)
  }

  ghost function Members<T(!new)>(s: seq<T>): set<T> {
    set x | x in s
  }

  lemma MetTurn<T(!new)>(owners: seq<T>, start: nat, steps: nat, slot: nat, all: set<T>, result: seq<T>, seen: set<T>)
    requires owners != [] && start <= |owners| && forall x :: x in owners <==> x in all
    requires slot == SlotAfter(|owners|, start, steps) && Met(owners, start, steps, result, seen)
    ensures slot < |owners| && SlotAfter(|owners|, start, steps + 1) == if slot + 1 == |owners| then 0 else slot + 1
    ensures if owners[slot] in seen then Met(owners, start, steps + 1, result, seen)
            else Met(owners, start, steps + 1, result + [owners[slot]], seen + {owners[slot]})
    ensures steps + 1 == |owners| ==> |Distinct(Walk(owners, start, steps + 1))| == |all|
  {
    DistinctTurn(owners, start, steps, slot, all);
    assert Members(result + [owners[slot]]) == seen + {owners[slot]};
  }

  lemma WalkPrefix<T(!new)>(owners: seq<T>, idx: nat, k: nat)
    requires owners != [] && idx <= |owners| && k <= |owners|
    ensures Distinct(Walk(owners, idx, k)) <= Distinct(Walk(owners, idx, |owners|))
  {
    var lap := Walk(owners, idx, |owners|);
    if k < |owners| {
      WalkMeets(owners, idx, |owners|, k);
      DistinctPrefix(lap, k);
    }
  }

  lemma SlotsAreValues<T(!new)>(pl: Placement<T>, s: RingState<T>)
    requires WellFormed(pl, s)
    ensures forall x :: x in Slots(s) <==> x in s.nodes.Values
  {
    forall x | x in s.nodes.Values ensures x in Slots(s) {
      var p :| p in s.nodes && s.nodes[p] == x;
      var i :| 0 <= i < |s.ring| && s.ring[i] == p;
      assert Slots(s)[i] == x;
    }
  }

  /** How many nodes a lookup asks for. */
  function Wanted<T>(s: RingState<T>, count: int): int {
    if count > |s.nodeSet| then |s.nodeSet| else count
  }

  /** The collecting loop of GetNodes comes to an end exactly when the ring has
    * as many owners as are wanted; one lap is then enough. */
  lemma GetNodesEnds<T(!new)>(pl: Placement<T>, s: RingState<T>, idx: nat, count: int)
    requires WellFormed(pl, s) && s.ring != [] && idx <= |s.ring|
    ensures (exists k: nat :: |Distinct(Walk(Slots(s), idx, k))| >= Wanted(s, count))
       <==> Wanted(s, count) <= |s.nodes.Values|
    ensures Wanted(s, count) <= |s.nodes.Values| ==> |Distinct(Walk(Slots(s), idx, |s.ring|))| >= Wanted(s, count)
  {
    SlotsAreValues(pl, s);
    LapMeetsAll(Slots(s), idx, |s.ring|, s.nodes.Values);
    if k: nat :| |Distinct(Walk(Slots(s), idx, k))| >= Wanted(s, count) {
      LapMeetsAll(Slots(s), idx, k, s.nodes.Values);
    }
  }

  /** On the ring of the two colliding nodes a request for both never ends:
    * however long the walk, it has met fewer than two. */
  lemma GetNodesMayLoop(idx: nat, k: nat)
    requires idx <= 2
    ensures var s := RingState([7, 7], map[7 := 2], {1, 2});
            && WellFormed(Colliding(), s) && Wanted(s, 2) == 2 && |Distinct(Walk(Slots(s), idx, k))| < 2
  {
    CollidingAdds();
    var s: RingState<int> := RingState([7, 7], map[7 := 2], {1, 2});
    assert s.nodes.Values == {2} by { assert s.nodes[7] == 2; }
    assert |s.nodes.Values| == 1;
    GetNodesEnds(Colliding(), s, idx, 2);
    assert |s.nodeSet| == 2;
  }

  /** A ring on which every live node has a point always has enough owners. */
  lemma AllPlacedEnds<T(!new)>(pl: Placement<T>, s: RingState<T>, count: int)
    requires WellFormed(pl, s) && forall node :: node in s.nodeSet ==> node in s.nodes.Values
    ensures Wanted(s, count) <= |s.nodes.Values|
  {
    assert s.nodes.Values == s.nodeSet;
  }

  // ---------------------------------------------------------------------

  class ConsistentHash<T(==, !new)> {
    const placement: Placement<T>
    var ring: seq<nat>
    var nodes: map<nat, T>
    var nodeSet: set<T>

    ghost function State(): RingState<T>
      reads this
    {
      RingState(ring, nodes, nodeSet)
    }

    ghost predicate Valid()
      reads this
    {
      WellFormed(placement, State())
    }

    constructor (replicas: int, hashFunc: string -> nat, virtualKey: (T, nat) -> string)
      ensures Valid() && State() == RingState([], map[], {})
      ensures placement == Placement(if replicas <= 0 then 64 else replicas, hashFunc, virtualKey)
    {
      placement := Placement(if replicas <= 0 then DEFAULT_REPLICAS else replicas, hashFunc, virtualKey);
      ring, nodes, nodeSet := [], map[], {};
    }

    method AddNode(node: T) returns (added: bool)
      requires Valid()
      modifies this
      ensures Valid() && added == (node !in old(nodeSet))
      ensures if added then Added(placement, old(State()), node, State()) else State() == old(State())
      ensures added ==> forall i: nat :: i < placement.replicas ==>
                var h := placement.hashFunc(placement.virtualKey(node, i)); h in ring && h in nodes && nodes[h] == node
      ensures added ==> forall h :: !PlacedAt(placement, node, h) ==>
                (h in nodes <==> h in old(nodes)) && (h in nodes ==> nodes[h] == old(nodes)[h])
    {
      PointsArePlaced(placement, node);
      if node in nodeSet { return false; }
      var i := 0;
      while i < placement.replicas
        invariant 0 <= i <= placement.replicas && nodeSet == old(nodeSet)
        invariant ring == old(ring) + placement.PointList(node, i)
        invariant nodes.Keys == old(nodes).Keys + (set h | h in placement.PointList(node, i))
        invariant forall h :: h in nodes ==>
                    nodes[h] == if h in placement.PointList(node, i) then node else old(nodes)[h]
      {
        var hash := placement.Point(node, i);
        ring := ring + [hash];
        nodes := nodes[hash := node];
        assert placement.PointList(node, i + 1) == placement.PointList(node, i) + [hash];
        i := i + 1;
      }
      ring := Sort(ring);
      nodeSet := nodeSet + {node};
      AddedWellFormed(placement, old(State()), node, State());
      return true;
    }

    method RemoveNode(node: T) returns (removed: bool)
      requires Valid()
      modifies this
      ensures Valid() && removed == (node in old(nodeSet))
      ensures if removed then Removed(placement, old(State()), node, State()) else State() == old(State())
      ensures removed ==> forall h :: h in nodes <==> h in old(nodes) && !PlacedAt(placement, node, h)
      ensures removed ==> forall h :: h in nodes ==> nodes[h] == old(nodes)[h]
    {
      PointsArePlaced(placement, node);
      if node !in nodeSet { return false; }
      nodeSet := nodeSet - {node};
      var i := 0;
      while i < placement.replicas
        invariant 0 <= i <= placement.replicas && nodeSet == old(nodeSet) - {node}
        invariant nodes == old(nodes) - (set h | h in placement.PointList(node, i))
      {
        var hash := placement.Point(node, i);
        nodes := nodes - {hash};
        assert placement.PointList(node, i + 1) == placement.PointList(node, i) + [hash];
        i := i + 1;
      }
      Rebuild();
      RemovedWellFormed(placement, old(State()), node, State());
      return true;
    }

    /** The ring from the map's keys, which come in no particular order. */
    method Rebuild()
      modifies this`ring
      ensures Sorted(ring) && multiset(ring) == multiset(nodes.Keys)
    {
      ring := [];
      var rest := nodes.Keys;
      while rest != {}
        invariant rest <= nodes.Keys
        invariant multiset(ring) == multiset(nodes.Keys - rest)
      {
        var hash :| hash in rest;
        ring := ring + [hash];
        assert nodes.Keys - (rest - {hash}) == nodes.Keys - rest + {hash};
        rest := rest - {hash};
      }
      assert nodes.Keys - rest == nodes.Keys;
      SortSorts(ring);
      ring := Sort(ring);
    }

    method GetNode(key: Key) returns (node: Option<T>)
      requires Valid()
      ensures node.None? <==> ring == [] || key.Unsupported?
      ensures node.Some? ==>
                && nodes.Keys != {} && node.value in nodeSet
                && node.value ==
                   Owner(nodes, placement.hashFunc(if key.Text? then key.text else Itoa(key.number)))
    {
      if |ring| == 0 { return None; }
      var keyStr := KeyToString(key);
      if keyStr.None? { return None; }
      var hash := placement.hashFunc(keyStr.value);
      var idx := Search(ring, hash);
      SlotOwner(placement, State(), hash, idx);
      if idx == |ring| { idx := 0; }
      return Some(nodes[ring[idx]]);
    }

    /** Where the walk starts. */
    ghost predicate StartsAt(key: Key, idx: nat)
      reads this
    {
      KeyToString(key).Some? && IsSlot(ring, placement.hashFunc(KeyToString(key).value), idx)
    }

    method GetNodes(key: Key, count: int) returns (result: seq<T>)
      requires Valid()
      requires count > 0 && ring != [] && KeyToString(key).Some? ==> Wanted(State(), count) <= |nodes.Values|
      ensures count <= 0 || ring == [] || KeyToString(key).None? ==> result == []
      ensures count > 0 && ring != [] && KeyToString(key).Some? ==>
                && |result| == Wanted(State(), count)
                && forall idx :: StartsAt(key, idx) ==> result <= Distinct(Walk(Slots(State()), idx, |ring|))
    {
      if count <= 0 || |ring| == 0 { return []; }
      var wanted: nat := if count > |nodeSet| then |nodeSet| else count;
      var keyStr := KeyToString(key);
      if keyStr.None? { return []; }
      var start := Search(ring, placement.hashFunc(keyStr.value));
      SlotsAreValues(placement, State());
      ghost var steps;
      result, steps := Collect(start, wanted, Slots(State()));
      WalkPrefix(Slots(State()), start, steps);
      forall idx | StartsAt(key, idx) ensures idx == start {
        SlotUnique(ring, placement.hashFunc(keyStr.value), idx, start);
      }
    }

    /** Who the ring slots belong to, and to nobody else. */
    ghost predicate Holds(owners: seq<T>)
      reads this
    {
      && |owners| == |ring| && (forall i :: 0 <= i < |ring| ==> ring[i] in nodes && nodes[ring[i]] == owners[i])
      && forall x :: x in owners <==> x in nodes.Values
    }

    /** The collecting loop. */
    method Collect(start: nat, wanted: nat, ghost owners: seq<T>) returns (result: seq<T>, ghost steps: nat)
      requires ring != [] && start <= |ring| && wanted <= |nodes.Values| && wanted <= |nodeSet| && Holds(owners)
      ensures steps <= |owners| && result == Distinct(Walk(owners, start, steps)) && |result| == wanted
    {
      var idx, seen: set<T> := start, {};
      result, steps := [], 0;
      while |result| < wanted
        invariant steps <= |ring| && (steps == |ring| ==> |result| >= |nodes.Values|)
        invariant idx <= |ring| && (if idx == |ring| then 0 else idx) == SlotAfter(|ring|, start, steps)
        invariant Met(owners, start, steps, result, seen) && |result| <= wanted
        decreases |ring| - steps
      {
        if idx == |ring| { idx := 0; }
        result, seen := Visit(idx, result, seen, owners, start, steps);
        idx := idx + 1;
        steps := steps + 1;
        if |seen| == |nodeSet| { break; }
      }
    }

    /** One turn of the loop: the node in slot idx, unless it was met before. */
    method Visit(idx: nat, result: seq<T>, seen: set<T>, ghost owners: seq<T>, ghost start: nat, ghost steps: nat)
      returns (more: seq<T>, met: set<T>)
      requires ring != [] && start <= |ring| && idx == SlotAfter(|ring|, start, steps) && Holds(owners)
      requires Met(owners, start, steps, result, seen)
      ensures Met(owners, start, steps + 1, more, met) && |more| <= |result| + 1
      ensures SlotAfter(|ring|, start, steps + 1) == if idx + 1 == |ring| then 0 else idx + 1
      ensures steps + 1 == |ring| ==> |more| == |nodes.Values|
    {
      more, met := result, seen;
      var node := nodes[ring[idx]];
      assert node == owners[idx];
      MetTurn(owners, start, steps, idx, nodes.Values, result, seen);
      if node !in seen {
        more, met := result + [node], seen + {node};
      }
    }
  }

  /** The first node of GetNodes is the one GetNode answers. */
  lemma FirstIsOwner<T(!new)>(pl: Placement<T>, s: RingState<T>, h: nat, idx: nat)
    requires WellFormed(pl, s) && s.ring != [] && IsSlot(s.ring, h, idx)
    ensures s.nodes.Keys != {}
    ensures var d := Distinct(Walk(Slots(s), idx, |s.ring|)); d != [] && d[0] == Owner(s.nodes, h)
  {
    SlotOwner(pl, s, h, idx);
    WalkPrefix(Slots(s), idx, 1);
    var one := Walk(Slots(s), idx, 1);
    assert Walk(Slots(s), idx, 0) == [] && one[..0] == [] && Distinct(one) == [one[0]];
  }
}
