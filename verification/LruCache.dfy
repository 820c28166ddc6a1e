/**
 A recency list over a recycled pool. The ghost field `order` lists the ids of the live items from
 the oldest to the youngest; the pointers are proved to be that list, in every state.
 */
module LruCache {
  import opened Options
  import opened Sequences

  class Item<T(0)> {
    var obj: T
    var tick: nat
    var next: Item?<T>
    var prev: Item?<T>

    constructor ()
      ensures next == null && prev == null
    {
      next, prev := null, null;
    }
  }

  /** The item at a position of a list, null outside it. */
  function At<T(0)>(nodes: seq<Item<T>>, k: int): Item?<T> {
    if 0 <= k < |nodes| then nodes[k] else null
  }

  /** The pointers form one list without cycles through exactly these items, in both directions. */
  ghost predicate Linked<T(0)>(nodes: seq<Item<T>>, first: Item?<T>, last: Item?<T>)
    reads nodes`next, nodes`prev
  {
    && Distinct(nodes) && first == At(nodes, 0) && last == At(nodes, |nodes| - 1)
    && (forall k {:trigger nodes[k].next} :: 0 <= k < |nodes| ==> nodes[k].next == At(nodes, k + 1))
    && (forall k {:trigger nodes[k].prev} :: 0 <= k < |nodes| ==> nodes[k].prev == At(nodes, k - 1))
  }

  function Without<T>(s: seq<T>, k: nat): (r: seq<T>)
    requires k < |s|
    ensures |r| == |s| - 1
    ensures forall i :: 0 <= i < |r| ==> r[i] == s[if i < k then i else i + 1]
  {
    s[..k] + s[k + 1..]
  }

  /** The pointers go round the item at position k, whose own pointers do not matter. */
  ghost predicate Bypassed<T(0)>(nodes: seq<Item<T>>, k: nat, first: Item?<T>, last: Item?<T>)
    reads nodes`next, nodes`prev
  {
    && first == At(nodes, if k == 0 then 1 else 0)
    && last == At(nodes, if k == |nodes| - 1 then |nodes| - 2 else |nodes| - 1)
    && (forall i {:trigger nodes[i].next} :: 0 <= i < |nodes| && i != k ==> nodes[i].next == At(nodes, if i == k - 1 then k + 1 else i + 1))
    && (forall i {:trigger nodes[i].prev} :: 0 <= i < |nodes| && i != k ==> nodes[i].prev == At(nodes, if i == k + 1 then k - 1 else i - 1))
  }

  lemma Others<T>(s: seq<T>, j: nat)
    requires Distinct(s) && j < |s|
    ensures forall i :: 0 <= i < |s| && i != j ==> s[i] != s[j]
  {
  }

  lemma AppendDistinct<T>(s: seq<T>, x: T)
    requires Distinct(s) && x !in s
    ensures Distinct(s + [x])
  {
  }

  lemma WithoutAt<T(0)>(nodes: seq<Item<T>>, k: nat, i: int)
    requires k < |nodes|
    ensures At(Without(nodes, k), i) == At(nodes, if i < k then i else i + 1)
  {
  }

  lemma BypassedIsLinked<T(0)>(nodes: seq<Item<T>>, k: nat, first: Item?<T>, last: Item?<T>)
    requires Distinct(nodes) && k < |nodes| && Bypassed(nodes, k, first, last)
    ensures Linked(Without(nodes, k), first, last)
  {
    hide At;
    var rest := Without(nodes, k);
    WithoutAt(nodes, k, 0);
    WithoutAt(nodes, k, |rest| - 1);
    forall i | 0 <= i < |rest|
      ensures rest[i].next == At(rest, i + 1) && rest[i].prev == At(rest, i - 1)
    {
      WithoutAt(nodes, k, i + 1);
      WithoutAt(nodes, k, i - 1);
    }
  }

  predicate Bounded(ids: seq<nat>, n: nat) {
    forall k :: 0 <= k < |ids| ==> ids[k] < n
  }

  /** Live ids and free ids together are the ids below n, each once. */
  ghost predicate Partition(n: nat, order: seq<nat>, free: seq<nat>) {
    && Distinct(order) && Distinct(free) && Bounded(order, n) && Bounded(free, n)
    && (forall k :: 0 <= k < |order| ==> order[k] !in free)
    && (forall id :: 0 <= id < n ==> id in order || id in free)
  }

  /** The items with the given ids. */
  function Pick<T(0)>(pool: seq<Item<T>>, ids: seq<nat>): (s: seq<Item<T>>)
    requires Bounded(ids, |pool|)
    ensures |s| == |ids| && forall k :: 0 <= k < |ids| ==> s[k] == pool[ids[k]]
  {
    seq(|ids|, k requires 0 <= k < |ids| => pool[ids[k]])
  }

  lemma NewId(n: nat, order: seq<nat>, free: seq<nat>)
    requires Partition(n, order, [])
    ensures Partition(n + 1, order + [n], [])
  {
  }

  lemma RecycledId(n: nat, order: seq<nat>, free: seq<nat>)
    requires Partition(n, order, free) && free != []
    ensures free[0] !in order && Partition(n, order + [free[0]], free[1..])
  {
  }

  lemma FreedId(n: nat, order: seq<nat>, free: seq<nat>, k: nat)
    requires Partition(n, order, free) && k < |order|
    ensures order[k] !in Without(order, k) && Partition(n, Without(order, k), free + [order[k]])
  {
    DistinctWithout(order, k);
    AppendDistinct(free, order[k]);
  }

  lemma IdsBelow(n: nat, order: seq<nat>)
    requires Bounded(order, n)
    ensures n !in order
  {
  }

  lemma MovedId(n: nat, order: seq<nat>, free: seq<nat>, k: nat)
    requires Partition(n, order, free) && k < |order|
    ensures order[k] !in Without(order, k) && Partition(n, Without(order, k) + [order[k]], free)
  {
    DistinctWithout(order, k);
    AppendDistinct(Without(order, k), order[k]);
  }

  lemma BoundsOf(n: nat, order: seq<nat>, free: seq<nat>)
    requires Partition(n, order, free)
    ensures Bounded(order, n) && Bounded(free, n)
  {
  }

  lemma PickDistinct<T(0)>(pool: seq<Item<T>>, ids: seq<nat>, id: nat)
    requires Bounded(ids, |pool|) && Distinct(pool) && id < |pool| && id !in ids
    ensures pool[id] !in Pick(pool, ids)
  {
  }

  lemma PickWithout<T(0)>(pool: seq<Item<T>>, ids: seq<nat>, k: nat)
    requires Bounded(ids, |pool|) && k < |ids|
    ensures Bounded(Without(ids, k), |pool|)
    ensures Pick(pool, Without(ids, k)) == Without(Pick(pool, ids), k)
  {
  }

  lemma PickAppend<T(0)>(pool: seq<Item<T>>, ids: seq<nat>, id: nat)
    requires Bounded(ids, |pool|) && id < |pool|
    ensures Bounded(ids + [id], |pool|)
    ensures Pick(pool, ids + [id]) == Pick(pool, ids) + [pool[id]]
  {
  }

  lemma DistinctWithout<T>(s: seq<T>, k: nat)
    requires Distinct(s) && k < |s|
    ensures Distinct(Without(s, k)) && s[k] !in Without(s, k)
    ensures forall x :: x in Without(s, k) <==> x in s && x != s[k]
  {
    forall x | x in s && x != s[k]
      ensures x in Without(s, k)
    {
      var i :| 0 <= i < |s| && s[i] == x;
      assert Without(s, k)[if i < k then i else i - 1] == x;
    }
  }

  lemma LastOne<T(0)>(nodes: seq<Item<T>>, first: Item?<T>, last: Item?<T>, k: nat)
    requires Linked(nodes, first, last) && k < |nodes| && nodes[k] == last
    ensures k == |nodes| - 1
  {
    Others(nodes, k);
  }

  lemma LinkedDistinct<T(0)>(nodes: seq<Item<T>>, first: Item?<T>, last: Item?<T>)
    requires Linked(nodes, first, last)
    ensures Distinct(nodes)
  {
  }

  lemma NotLast<T(0)>(nodes: seq<Item<T>>, first: Item?<T>, last: Item?<T>, k: nat)
    requires Linked(nodes, first, last) && k < |nodes| && nodes[k] != last
    ensures k < |nodes| - 1
  {
  }

  // Ticks

  ghost predicate Ascending(s: seq<nat>) {
    forall i, j :: 0 <= i < j < |s| ==> s[i] <= s[j]
  }

  /** The ticks are sorted and none is above the clock. */
  ghost predicate SortedUpTo(s: seq<nat>, clock: nat) {
    Ascending(s) && forall i :: 0 <= i < |s| ==> s[i] <= clock
  }

  /** What the operations do to the list of ticks: insert, touch and free the item at a position. */
  datatype Op = Inserting(tick: nat) | Touching(k: nat, tick: nat) | Freeing(k: nat)

  predicate Applies(s: seq<nat>, op: Op) {
    match op
    case Inserting(_) => true
    case Touching(k, _) => k < |s|
    case Freeing(k) => k < |s|
  }

  function Apply(s: seq<nat>, op: Op): seq<nat>
    requires Applies(s, op)
  {
    match op
    case Inserting(tick) => s + [tick]
    case Touching(k, tick) => if tick <= s[k] then s else Without(s, k) + [tick]
    case Freeing(k) => Without(s, k)
  }

  /** The ticks after the operations, starting from an empty list; nothing if one of them does not apply. */
  function ApplyAll(ops: seq<Op>): Option<seq<nat>> {
    if ops == [] then Some([])
    else
      match ApplyAll(ops[..|ops| - 1])
      case None => None
      case Some(s) => if Applies(s, ops[|ops| - 1]) then Some(Apply(s, ops[|ops| - 1])) else None
  }

  /** The latest tick passed to an operation. */
  function Clock(ops: seq<Op>): nat {
    if ops == [] then 0
    else
      match ops[|ops| - 1]
      case Inserting(tick) => tick
      case Touching(_, tick) => tick
      case Freeing(_) => Clock(ops[..|ops| - 1])
  }

  /** The operations come with ticks that never decrease. */
  predicate Nondecreasing(ops: seq<Op>) {
    ops == [] ||
    (Nondecreasing(ops[..|ops| - 1]) && Clock(ops[..|ops| - 1]) <= Clock(ops))
  }

  /** Ticks that never decrease keep the list sorted, whatever the operations. */
  lemma {:induction false} StaysSorted(ops: seq<Op>)
    requires Nondecreasing(ops) && ApplyAll(ops).Some?
    ensures SortedUpTo(ApplyAll(ops).value, Clock(ops))
  {
    if ops != [] {
      StaysSorted(ops[..|ops| - 1]);
      OpSorted(ApplyAll(ops[..|ops| - 1]).value, ops[|ops| - 1], Clock(ops[..|ops| - 1]), Clock(ops));
    }
  }

  lemma OpSorted(s: seq<nat>, op: Op, clock: nat, now: nat)
    requires SortedUpTo(s, clock) && clock <= now && Applies(s, op)
    requires match op case Inserting(tick) => now == tick case Touching(_, tick) => now == tick case Freeing(_) => now == clock
    ensures SortedUpTo(Apply(s, op), now)
  {
    hide Without, Ascending, SortedUpTo;
    LaterClock(s, clock, now);
    match op {
      case Inserting(tick) => SortedAppend(s, clock, tick);
      case Touching(k, tick) => SortedWithout(s, k, clock); SortedAppend(Without(s, k), clock, tick);
      case Freeing(k) => SortedWithout(s, k, clock);
    }
  }

  lemma LaterClock(s: seq<nat>, clock: nat, now: nat)
    requires SortedUpTo(s, clock) && clock <= now
    ensures SortedUpTo(s, now)
  {
  }

  lemma SortedAppend(s: seq<nat>, clock: nat, tick: nat)
    requires SortedUpTo(s, clock) && clock <= tick
    ensures SortedUpTo(s + [tick], tick)
  {
  }

  lemma SortedWithout(s: seq<nat>, k: nat, clock: nat)
    requires SortedUpTo(s, clock) && k < |s|
    ensures SortedUpTo(Without(s, k), clock)
  {
  }

  const SIGN := 0x8000_0000_0000_0000

  /** The cast to a signed 64-bit number. */
  function Signed(x: nat): (y: int)
    ensures -SIGN <= y < SIGN
  {
    var word := x % (2 * SIGN);
    if word < SIGN then word else word - 2 * SIGN
  }

  /** The signed difference with the bound does not overflow. */
  predicate Comparable(s: seq<nat>, t: nat) {
    forall i :: 0 <= i < |s| ==> -SIGN <= Signed(t) - Signed(s[i]) < SIGN
  }

  /** How many ticks at the start are at most t, as signed numbers. */
  function LeadingBelow(s: seq<nat>, t: nat): (n: nat)
    ensures n <= |s| && (n < |s| ==> Signed(t) < Signed(s[n]))
    ensures forall i :: 0 <= i < n ==> Signed(s[i]) <= Signed(t)
  {
    if s == [] || Signed(t) < Signed(s[0]) then 0 else
      var n := LeadingBelow(s[1..], t);
      assert forall i :: 0 < i < n + 1 ==> s[i] == s[1..][i - 1];
      1 + n
  }

  lemma SignedWord(x: nat)
    requires x < 2 * SIGN
    ensures Signed(x) == if x < SIGN then x else x - 2 * SIGN
  {
  }

  lemma LeadingInOrder(s: seq<nat>, t: nat, i: nat)
    requires Ascending(s) && i < |s| && (forall k :: 0 <= k < |s| ==> s[k] < SIGN)
    ensures Signed(s[i]) <= Signed(t) <==> i < LeadingBelow(s, t)
  {
    var n := LeadingBelow(s, t);
    if n <= i {
      SignedWord(s[n]);
      SignedWord(s[i]);
      hide Signed;
      assert s[n] <= s[i];
    }
  }

  /** In a sorted list these are all the ticks that are at most t; none, if the bound was subtracted from below zero. */
  lemma LeadingAreAllBelow(s: seq<nat>, t: nat)
    requires Ascending(s) && forall i :: 0 <= i < |s| ==> s[i] < SIGN
    ensures t < SIGN ==> forall i :: 0 <= i < |s| ==> (s[i] <= t <==> i < LeadingBelow(s, t))
    ensures SIGN <= t < 2 * SIGN ==> LeadingBelow(s, t) == 0
  {
    hide Signed, LeadingBelow, Ascending;
    if t < 2 * SIGN {
      SignedWord(t);
    }
    forall i | 0 <= i < |s|
      ensures Signed(s[i]) == s[i] && (Signed(s[i]) <= Signed(t) <==> i < LeadingBelow(s, t))
    {
      SignedWord(s[i]);
      LeadingInOrder(s, t, i);
    }
    if SIGN <= t < 2 * SIGN {
      NoneLeading(s, t);
    }
  }

  lemma NoneLeading(s: seq<nat>, t: nat)
    requires forall i :: 0 <= i < |s| ==> Signed(t) < Signed(s[i])
    ensures LeadingBelow(s, t) == 0
  {
  }

  /** The elements whose objects the callback does not free. */
  function Survivors<A, T>(s: seq<A>, objs: seq<T>, frees: T -> bool): seq<A>
    requires |s| == |objs|
  {
    if s == [] then []
    else
      var n := |s| - 1;
      Survivors(s[..n], objs[..n], frees) + if frees(objs[n]) then [] else [s[n]]
  }

  lemma SurvivorsNext<A, T>(s: seq<A>, objs: seq<T>, frees: T -> bool, i: nat)
    requires |s| == |objs| && i < |s|
    ensures Survivors(s[..i + 1], objs[..i + 1], frees)
         == Survivors(s[..i], objs[..i], frees) + if frees(objs[i]) then [] else [s[i]]
  {
    assert s[..i + 1][..i] == s[..i] && objs[..i + 1][..i] == objs[..i];
  }

  lemma NoSurvivors<A, T>(s: seq<A>, objs: seq<T>, frees: T -> bool)
    requires |s| == |objs|
    ensures Survivors(s[..0], objs[..0], frees) == []
  {
  }

  /** A visit that frees items is a list of freeing operations after the operations before it. */
  lemma {:induction false} VisitIsFreeing<T>(ops: seq<Op>, s: seq<nat>, objs: seq<T>, frees: T -> bool, rest: seq<nat>) returns (more: seq<Op>)
    requires |s| == |objs| && ApplyAll(ops) == Some(s + rest) && Nondecreasing(ops)
    ensures forall i :: 0 <= i < |more| ==> more[i].Freeing?
    ensures ApplyAll(ops + more) == Some(Survivors(s, objs, frees) + rest)
    ensures Nondecreasing(ops + more) && Clock(ops + more) == Clock(ops)
    decreases |s|
  {
    hide ApplyAll, Nondecreasing, Clock;
    if s == [] {
      more := [];
      assert ops + more == ops && s + rest == Survivors(s, objs, frees) + rest;
    } else {
      var n := |s| - 1;
      assert s[..n] + ([s[n]] + rest) == s + rest;
      var kept := Survivors(s[..n], objs[..n], frees);
      more := VisitIsFreeing(ops, s[..n], objs[..n], frees, [s[n]] + rest);
      if frees(objs[n]) {
        FreeAfter(ops + more, kept, s[n], rest);
        assert Survivors(s, objs, frees) == kept;
        assert (ops + more) + [Freeing(|kept|)] == ops + (more + [Freeing(|kept|)]);
        more := more + [Freeing(|kept|)];
      } else {
        assert kept + ([s[n]] + rest) == Survivors(s, objs, frees) + rest;
      }
    }
  }

  lemma FreeAfter(ops: seq<Op>, kept: seq<nat>, x: nat, rest: seq<nat>)
    requires ApplyAll(ops) == Some(kept + ([x] + rest)) && Nondecreasing(ops)
    ensures ApplyAll(ops + [Freeing(|kept|)]) == Some(kept + rest)
    ensures Nondecreasing(ops + [Freeing(|kept|)]) && Clock(ops + [Freeing(|kept|)]) == Clock(ops)
  {
    var all := ops + [Freeing(|kept|)];
    assert all[..|all| - 1] == ops && all[|all| - 1] == Freeing(|kept|);
    WithoutAfter(kept, x, rest);
  }

  lemma WithoutAfter(kept: seq<nat>, x: nat, rest: seq<nat>)
    ensures Without(kept + ([x] + rest), |kept|) == kept + rest
  {
    var s := kept + ([x] + rest);
    assert s[..|kept|] == kept && s[|kept| + 1..] == rest;
  }

  /** After operations with ticks that never decrease, the list is sorted also after a visit. */
  lemma VisitStaysSorted<T>(ops: seq<Op>, s: seq<nat>, objs: seq<T>, frees: T -> bool, rest: seq<nat>)
    requires |s| == |objs| && ApplyAll(ops) == Some(s + rest) && Nondecreasing(ops)
    ensures SortedUpTo(Survivors(s, objs, frees) + rest, Clock(ops))
  {
    var more := VisitIsFreeing(ops, s, objs, frees, rest);
    StaysSorted(ops + more);
  }

  lemma StoppedAt(s: seq<nat>, t: nat, i: nat)
    requires i <= |s| && (forall k :: 0 <= k < i ==> Signed(s[k]) <= Signed(t)) && (i < |s| ==> Signed(t) < Signed(s[i]))
    ensures LeadingBelow(s, t) == i
  {
  }

  /** The ticks of the surviving ids are the surviving ticks. */
  lemma {:induction false} SurvivingTicks<T(0)>(pool: seq<Item<T>>, ids: seq<nat>, ticks: seq<nat>, objs: seq<T>, frees: T -> bool)
    requires Bounded(ids, |pool|) && |ids| == |ticks| == |objs|
    requires forall k :: 0 <= k < |ids| ==> pool[ids[k]].tick == ticks[k]
    ensures var kept, left := Survivors(ids, objs, frees), Survivors(ticks, objs, frees);
      && Bounded(kept, |pool|) && |kept| == |left| && forall k :: 0 <= k < |kept| ==> pool[kept[k]].tick == left[k]
  {
    if ids != [] {
      var n := |ids| - 1;
      SurvivingTicks(pool, ids[..n], ticks[..n], objs[..n], frees);
    }
  }

  lemma TicksAfterVisit<T(0)>(pool: seq<Item<T>>, ids: seq<nat>, ticks: seq<nat>, objs: seq<T>, frees: T -> bool, n: nat)
    requires Bounded(ids, |pool|) && |ids| == |ticks| == |objs| && n <= |ids|
    requires forall k :: 0 <= k < |ids| ==> pool[ids[k]].tick == ticks[k]
    ensures var after := Survivors(ids[..n], objs[..n], frees) + ids[n..];
      Bounded(after, |pool|) && TicksOf(pool, after) == Survivors(ticks[..n], objs[..n], frees) + ticks[n..]
  {
    SurvivingTicks(pool, ids[..n], ticks[..n], objs[..n], frees);
    TicksAre(pool, Survivors(ids[..n], objs[..n], frees) + ids[n..], Survivors(ticks[..n], objs[..n], frees) + ticks[n..]);
  }

  lemma NextOf<T(0)>(nodes: seq<Item<T>>, first: Item?<T>, last: Item?<T>, k: nat)
    requires Linked(nodes, first, last) && k < |nodes|
    ensures nodes[k].next == At(nodes, k + 1)
  {
  }

  lemma OrderDistinct(n: nat, order: seq<nat>, free: seq<nat>)
    requires Partition(n, order, free)
    ensures Distinct(order)
  {
  }

  /** Removing the element after the kept ones. */
  lemma WithoutMiddle<T>(kept: seq<T>, x: T, rest: seq<T>, k: nat)
    requires Distinct(kept + [x] + rest) && k < |kept + [x] + rest| && (kept + [x] + rest)[k] == x
    ensures Without(kept + [x] + rest, k) == kept + rest
  {
    var s := kept + [x] + rest;
    assert s[|kept|] == x;
    PositionUnique(s, k, |kept|);
  }

  lemma PositionUnique<T>(s: seq<T>, i: nat, j: nat)
    requires Distinct(s) && i < |s| && j < |s| && s[i] == s[j]
    ensures i == j
  {
  }

  ghost function TicksOf<T(0)>(pool: seq<Item<T>>, ids: seq<nat>): (s: seq<nat>)
    requires Bounded(ids, |pool|)
    reads pool`tick
    ensures |s| == |ids| && forall k :: 0 <= k < |ids| ==> s[k] == pool[ids[k]].tick
  {
    if ids == [] then [] else TicksOf(pool, ids[..|ids| - 1]) + [pool[ids[|ids| - 1]].tick]
  }

  lemma TicksWithout<T(0)>(pool: seq<Item<T>>, ids: seq<nat>, k: nat)
    requires Bounded(ids, |pool|) && k < |ids|
    ensures Bounded(Without(ids, k), |pool|)
    ensures TicksOf(pool, Without(ids, k)) == Without(TicksOf(pool, ids), k)
  {
  }

  lemma TicksAppend<T(0)>(pool: seq<Item<T>>, ids: seq<nat>, id: nat)
    requires Bounded(ids, |pool|) && id < |pool|
    ensures Bounded(ids + [id], |pool|)
    ensures TicksOf(pool, ids + [id]) == TicksOf(pool, ids) + [pool[id].tick]
  {
  }

  lemma TicksAre<T(0)>(pool: seq<Item<T>>, ids: seq<nat>, s: seq<nat>)
    requires Bounded(ids, |pool|) && |s| == |ids| && forall k :: 0 <= k < |ids| ==> pool[ids[k]].tick == s[k]
    ensures TicksOf(pool, ids) == s
  {
  }

  class LeastRecentlyUsedCache<T(0)> {
    var itemPool: seq<Item<T>>
    var freeItems: seq<nat>
    var firstItem: Item?<T>
    var lastItem: Item?<T>
    ghost var order: seq<nat>

    ghost predicate Valid()
      reads this, itemPool
    {
      Distinct(itemPool) && Partition(|itemPool|, order, freeItems) && Linked(Pick(itemPool, order), firstItem, lastItem)
    }

    /** The ticks of the live items, oldest first. */
    ghost function Ticks(): (s: seq<nat>)
      requires Bounded(order, |itemPool|)
      reads this, itemPool`tick
      ensures |s| == |order|
    {
      TicksOf(itemPool, order)
    }

    constructor ()
      ensures Valid() && itemPool == [] && order == []
    {
      itemPool, freeItems, firstItem, lastItem, order := [], [], null, null, [];
    }
  
    /** The objects of the live items, oldest first. */
    ghost function Objects(): (s: seq<T>)
      requires Bounded(order, |itemPool|)
      reads this, itemPool
      ensures |s| == |order|
    {
      seq(|order|, k requires 0 <= k < |order| && order[k] < |itemPool| reads this, itemPool => itemPool[order[k]].obj)
    }

    /**
     Visit the items from the oldest on, up to the first one that is younger than the bound. The callback
     may free the item that it is called with: `frees` tells for which objects it does, `idOf` finds their ids.
     */
    method ForEachItemBelow(tick: nat, frees: T -> bool, idOf: T -> nat) returns (visited: seq<T>)
      requires Valid() && Bounded(order, |itemPool|) && Comparable(Ticks(), tick)
      requires forall k :: 0 <= k < |order| && frees(Objects()[k]) ==> idOf(Objects()[k]) == order[k]
      modifies this`firstItem, this`lastItem, this`order, this`freeItems, itemPool`next, itemPool`prev
      ensures Valid()
      ensures var n := LeadingBelow(old(Ticks()), tick);
        && visited == old(Objects())[..n]
        && order == Survivors(old(order)[..n], visited, frees) + old(order)[n..]
        && Bounded(order, |itemPool|) && Ticks() == Survivors(old(Ticks())[..n], visited, frees) + old(Ticks())[n..]
    {
      hide Visiting, Valid, Ticks, Objects, LeadingBelow, Survivors, Signed;
      ghost var ids, objs, ticks := order, Objects(), Ticks();
      ghost var kept: seq<nat> := [];
      ghost var i := 0;
      visited := [];
      NoSurvivors(ids, objs, frees);
      Start();
      var item := firstItem;
      while item != null
        invariant Visiting(ids, objs, ticks, i, kept) && item == ItemAt(ids, i)
        invariant i <= |ids| && visited == objs[..i] && kept == Survivors(ids[..i], objs[..i], frees)
        invariant forall k :: 0 <= k < i ==> Signed(ticks[k]) <= Signed(tick)
        decreases |ids| - i
      {
        Current(ids, objs, ticks, i, kept);
        if Signed(tick) - Signed(item.tick) < 0 {
          StoppedAt(ticks, tick, i);
          Visited(ids, objs, ticks, i, kept, frees);
          return;
        }
        SurvivorsNext(ids, objs, frees, i);
        visited := visited + [item.obj];
        item, kept := VisitOne(item, frees, idOf, ids, objs, ticks, i, kept);
        i := i + 1;
      }
      Finish(ids, objs, ticks, i, kept);
      StoppedAt(ticks, tick, i);
      Visited(ids, objs, ticks, i, kept, frees);
    }

    lemma Visited(ids: seq<nat>, objs: seq<T>, ticks: seq<nat>, i: nat, kept: seq<nat>, frees: T -> bool)
      requires Visiting(ids, objs, ticks, i, kept) && kept == Survivors(ids[..i], objs[..i], frees)
      ensures Bounded(order, |itemPool|) && Ticks() == Survivors(ticks[..i], objs[..i], frees) + ticks[i..]
    {
      hide Valid, Survivors;
      TicksAfterVisit(itemPool, ids, ticks, objs, frees, i);
    }

    ghost function ItemAt(ids: seq<nat>, i: nat): Item?<T>
      reads this
    {
      if i < |ids| && ids[i] < |itemPool| then itemPool[ids[i]] else null
    }

    /** The items before position i of the original order are visited, and the kept ones of them are still in the list. */
    ghost predicate Visiting(ids: seq<nat>, objs: seq<T>, ticks: seq<nat>, i: nat, kept: seq<nat>)
      reads this, itemPool
    {
      && Valid() && |ids| == |objs| == |ticks| && i <= |ids|
      && order == kept + ids[i..] && Bounded(order, |itemPool|) && Bounded(ids, |itemPool|)
      && forall k :: 0 <= k < |ids| ==> itemPool[ids[k]].obj == objs[k] && itemPool[ids[k]].tick == ticks[k]
    }

    lemma Start()
      requires Valid() && Bounded(order, |itemPool|)
      ensures Visiting(order, Objects(), Ticks(), 0, []) && firstItem == ItemAt(order, 0)
    {
      hide Partition;
    }

    lemma Current(ids: seq<nat>, objs: seq<T>, ticks: seq<nat>, i: nat, kept: seq<nat>)
      requires Visiting(ids, objs, ticks, i, kept) && ItemAt(ids, i) != null
      ensures Valid() && i < |ids| == |objs| == |ticks| && order == kept + ids[i..]
      ensures ItemAt(ids, i).obj == objs[i] && ItemAt(ids, i).tick == ticks[i]
    {
      hide Valid;
    }

    lemma Finish(ids: seq<nat>, objs: seq<T>, ticks: seq<nat>, i: nat, kept: seq<nat>)
      requires Visiting(ids, objs, ticks, i, kept) && ItemAt(ids, i) == null
      ensures Valid() && i == |ids| == |objs| == |ticks| && order == kept + ids[i..]
    {
      hide Valid;
    }

    method VisitOne(item: Item<T>, frees: T -> bool, idOf: T -> nat, ghost ids: seq<nat>, ghost objs: seq<T>, ghost ticks: seq<nat>, ghost i: nat, ghost kept: seq<nat>)
      returns (next: Item?<T>, ghost kept': seq<nat>)
      requires Visiting(ids, objs, ticks, i, kept) && i < |ids| && item == ItemAt(ids, i) && (frees(objs[i]) ==> idOf(objs[i]) == ids[i])
      modifies this`firstItem, this`lastItem, this`order, this`freeItems, itemPool`next, itemPool`prev
      ensures Visiting(ids, objs, ticks, i + 1, kept') && next == ItemAt(ids, i + 1)
      ensures kept' == kept + if frees(objs[i]) then [] else [ids[i]]
    {
      hide Linked, Partition;
      assert order[|kept|] == ids[i] && (i + 1 < |ids| ==> order[|kept| + 1] == ids[i + 1]);
      NextOf(Pick(itemPool, order), firstItem, lastItem, |kept|);
      next := item.next;
      if frees(item.obj) {
        kept' := kept;
        Discard(idOf(item.obj), kept, ids[i + 1..]);
      } else {
        kept' := kept + [ids[i]];
      }
    }

    /** Free the item after the kept ones. */
    method Discard(id: nat, ghost kept: seq<nat>, ghost rest: seq<nat>)
      requires Valid() && order == kept + [id] + rest
      modifies this`firstItem, this`lastItem, this`order, this`freeItems, itemPool`next, itemPool`prev
      ensures Valid() && order == kept + rest && Bounded(order, |itemPool|)
    {
      hide Linked, Partition;
      OrderDistinct(|itemPool|, order, freeItems);
      assert order[|kept|] == id;
      ghost var k := Free(id);
      WithoutMiddle(kept, id, rest, k);
      BoundsOf(|itemPool|, order, freeItems);
    }

    /** An item that is neither live nor free: a new one, or the one that was freed first. */
    method Build() returns (id: nat)
      requires Valid()
      modifies this`itemPool, this`freeItems, itemPool`next, itemPool`prev
      ensures old(itemPool) <= itemPool && id < |itemPool| && id !in order
      ensures itemPool == old(itemPool) || fresh(itemPool[id])
      ensures itemPool[id].next == null && itemPool[id].prev == null
      ensures Distinct(itemPool) && Bounded(order, |itemPool|) && Linked(Pick(itemPool, order), firstItem, lastItem)
      ensures Partition(|itemPool|, order + [id], freeItems)
      ensures Ticks() == old(Ticks())
      ensures if old(freeItems) == [] then id == |old(itemPool)| && freeItems == [] else [id] + freeItems == old(freeItems)
      ensures forall x :: 0 <= x < |old(itemPool)| ==> itemPool[x].obj == old(itemPool[x].obj) && itemPool[x].tick == old(itemPool[x].tick)
    {
      hide Linked, Partition;
      BoundsOf(|itemPool|, order, freeItems);
      if freeItems == [] {
        NewId(|itemPool|, order, freeItems);
        IdsBelow(|itemPool|, order);
        id := |itemPool|;
        var item := new Item<T>();
        AppendDistinct(itemPool, item);
        itemPool := itemPool + [item];
        assert Pick(itemPool, order) == old(Pick(itemPool, order));
        return;
      }
      RecycledId(|itemPool|, order, freeItems);
      id := freeItems[0];
      freeItems := freeItems[1..];
      var item := itemPool[id];
      PickDistinct(itemPool, order, id);
      item.next := null;
      item.prev := null;
    }

    /** Add an object as the youngest item and return its id. */
    method Insert(obj: T, tick: nat) returns (id: nat)
      requires Valid()
      modifies this, itemPool
      ensures Valid() && id !in old(order) && order == old(order) + [id]
      ensures Bounded(old(order), |old(itemPool)|) && Ticks() == Apply(old(Ticks()), Inserting(tick))
      ensures old(itemPool) <= itemPool && itemPool[id].obj == obj
      ensures if old(freeItems) == [] then id == |old(itemPool)| && freeItems == [] else [id] + freeItems == old(freeItems)
      ensures itemPool == old(itemPool) || fresh(itemPool[id])
      ensures forall x :: 0 <= x < |old(itemPool)| && x != id ==> itemPool[x].obj == old(itemPool[x].obj)
    {
      hide Linked, Partition, TicksOf;
      BoundsOf(|itemPool|, order, freeItems);
      id := Build();
      var item := itemPool[id];
      PickDistinct(itemPool, order, id);
      PickAppend(itemPool, order, id);
      ghost var ticks := TicksOf(itemPool, order);
      item.obj := obj;
      item.tick := tick;
      TicksAre(itemPool, order, ticks);
      TicksAppend(itemPool, order, id);
      Attach(item, Pick(itemPool, order));
      order := order + [id];
    }

    /** Mark a live item as used at the given time: it becomes the youngest, unless the time is not later than its own. */
    method Touch(id: nat, tick: nat) returns (ghost k: nat)
      requires Valid() && id in order
      modifies this`firstItem, this`lastItem, this`order, itemPool`tick, itemPool`next, itemPool`prev
      ensures Valid() && Bounded(old(order), |itemPool|) && k < |old(order)| && old(order)[k] == id
      ensures order == if tick <= old(Ticks())[k] then old(order) else Without(old(order), k) + [id]
      ensures Ticks() == Apply(old(Ticks()), Touching(k, tick))
    {
      hide Linked, Partition, TicksOf, Without;
      BoundsOf(|itemPool|, order, freeItems);
      var item := itemPool[id];
      k :| 0 <= k < |order| && order[k] == id;
      if item.tick >= tick {
        return;
      }
      ghost var rest := Without(order, k);
      MovedId(|itemPool|, order, freeItems, k);
      BoundsOf(|itemPool|, rest + [id], freeItems);
      PickWithout(itemPool, order, k);
      PickAppend(itemPool, rest, id);
      TicksWithout(itemPool, order, k);
      ghost var ticks := TicksOf(itemPool, rest);
      PickDistinct(itemPool, rest, id);
      item.tick := tick;
      TicksAre(itemPool, rest, ticks);
      TicksAppend(itemPool, rest, id);
      MoveToEnd(item, Pick(itemPool, order), k);
      order := rest + [id];
    }

    method MoveToEnd(item: Item<T>, ghost nodes: seq<Item<T>>, ghost k: nat)
      requires Linked(nodes, firstItem, lastItem) && k < |nodes| && item == nodes[k]
      modifies this`firstItem, this`lastItem, nodes`next, nodes`prev
      ensures Linked(Without(nodes, k) + [item], firstItem, lastItem)
    {
      hide Linked;
      LinkedDistinct(nodes, firstItem, lastItem);
      DistinctWithout(nodes, k);
      if item == lastItem {
        LastOne(nodes, firstItem, lastItem, k);
        assert Without(nodes, k) + [item] == nodes;
        return;
      }
      NotLast(nodes, firstItem, lastItem, k);
      Detach(item, nodes, k);
      Attach(item, Without(nodes, k));
    }

    /** Remove a live item; its id will be used again. */
    method Free(id: nat) returns (ghost k: nat)
      requires Valid() && id in order
      modifies this`firstItem, this`lastItem, this`order, this`freeItems, itemPool`next, itemPool`prev
      ensures Valid() && id !in order && Bounded(old(order), |itemPool|) && k < |old(order)| && old(order)[k] == id
      ensures order == Without(old(order), k) && Ticks() == Apply(old(Ticks()), Freeing(k))
      ensures freeItems == old(freeItems) + [id]
    {
      hide Linked, Partition, TicksOf, Without;
      BoundsOf(|itemPool|, order, freeItems);
      var item := itemPool[id];
      k :| 0 <= k < |order| && order[k] == id;
      FreedId(|itemPool|, order, freeItems, k);
      PickWithout(itemPool, order, k);
      PickDistinct(itemPool, Without(order, k), id);
      TicksWithout(itemPool, order, k);
      Detach(item, Pick(itemPool, order), k);
      order := Without(order, k);
      item.prev := null;
      item.next := null;
      freeItems := freeItems + [id];
    }

    /** Append an item to the list. */
    method Attach(item: Item<T>, ghost nodes: seq<Item<T>>)
      requires Linked(nodes, firstItem, lastItem) && item !in nodes
      requires nodes == [] ==> item.next == null && item.prev == null
      modifies this`firstItem, this`lastItem, item`next, item`prev, nodes`next, nodes`prev
      ensures Linked(nodes + [item], firstItem, lastItem)
    {
      hide Distinct;
      AppendDistinct(nodes, item);
      if nodes != [] {
        Others(nodes, |nodes| - 1);
      }
      if firstItem == null {
        firstItem := item;
      }
      if lastItem == null {
        lastItem := item;
      } else {
        item.prev := lastItem;
        lastItem.next := item;
        item.next := null;
        lastItem := item;
      }
    }

    /** Take the item at position k out of the list. */
    method Detach(item: Item<T>, ghost nodes: seq<Item<T>>, ghost k: nat)
      requires Linked(nodes, firstItem, lastItem) && k < |nodes| && item == nodes[k]
      modifies this`firstItem, this`lastItem, nodes`next, nodes`prev
      ensures Linked(Without(nodes, k), firstItem, lastItem)
    {
      hide Distinct;
      ghost var before, after := At(nodes, k - 1), At(nodes, k + 1);
      Others(nodes, k);
      if k > 0 {
        Others(nodes, k - 1);
      }
      if k < |nodes| - 1 {
        Others(nodes, k + 1);
      }
      if item.prev != null {
        item.prev.next := item.next;
      }
      if item.next != null {
        item.next.prev := item.prev;
      }
      Ends(item, nodes, k);
      BypassedIsLinked(nodes, k, firstItem, lastItem);
    }

    /** The item was first or last. */
    method Ends(item: Item<T>, ghost nodes: seq<Item<T>>, ghost k: nat)
      requires Distinct(nodes) && k < |nodes| && item == nodes[k]
      requires Bypassed(nodes, k, At(nodes, if k == 0 then 1 else 0), At(nodes, if k == |nodes| - 1 then |nodes| - 2 else |nodes| - 1))
      requires firstItem == At(nodes, 0) && lastItem == At(nodes, |nodes| - 1)
      requires item.prev == At(nodes, k - 1) && item.next == At(nodes, k + 1)
      modifies this`firstItem, this`lastItem, nodes`next, nodes`prev
      ensures Bypassed(nodes, k, firstItem, lastItem)
    {
      hide Distinct;
      Others(nodes, k);
      Others(nodes, 0);
      Others(nodes, |nodes| - 1);
      if item == firstItem {
        firstItem := item.next;
        if firstItem != null {
          Others(nodes, 1);
          firstItem.prev := null;
        }
      }
      if item == lastItem {
        lastItem := item.prev;
        if lastItem != null {
          Others(nodes, |nodes| - 2);
          lastItem.next := null;
        }
      }
    }
  }
}
