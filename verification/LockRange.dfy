/**
 LockRange as steps of many threads. Each thread that is inside LockRange has a stack of
 frames, one for each level of recursion: the frames below the top are all suspended in the
 constructor of the guard that locks the rest of their range.
 */
module LockRange {
  import opened Sequences

  type Mutex = nat

  /** Local variables of one call, as positions in the range of the thread. */
  datatype Frame = Frame(begin: nat, next: nat)

  datatype Pc =
    | Idle
    // about to lock the first mutex, which may block
    | WantLock
    // TryLockRange(next, end): holds begin and the mutexes before k
    | TryAhead(k: nat)
    // its guards are released, last first
    | UnwindAhead(k: nat, failed: nat)
    // about to lock the rest of the range
    | WantRest
    // the guard holds the rest, about to try the first mutex
    | TryBegin
    // TryLockRange(second, next)
    | TryBetween(k: nat)
    | UnwindBetween(k: nat, failed: nat)
    // destructor of the guard, first mutex first; ownsBegin tells how the iteration goes on
    | DropGuard(j: nat, ownsBegin: bool)
    | Returned
    // the caller unlocks its range
    | Release(j: nat)

  datatype Thread = Thread(range: seq<Mutex>, outer: seq<Frame>, top: Frame, pc: Pc)

  /** Which thread owns each locked mutex. */
  type Owners = map<Mutex, nat>

  datatype State = State(threads: seq<Thread>, owner: Owners)

  function Enter(range: seq<Mutex>): Thread {
    Thread(range, [], Frame(0, 1), if range == [] then Returned else WantLock)
  }

  // Steps of thread t

  predicate Acquires(t: nat, m: Mutex, o: Owners, o': Owners) {
    m !in o && o' == o[m := t]
  }

  /** One step. Try-locks may fail even when the mutex is free. */
  ghost predicate Step(t: nat, th: Thread, th': Thread, o: Owners, o': Owners)
    requires Ok(th)
  {
    var r, n := th.range, |th.range|;
    var b, next := th.top.begin, th.top.next;
    match th.pc
    case Idle => o' == o && exists range: seq<Mutex> :: Distinct(range) && th' == Enter(range)
    case WantLock => Acquires(t, r[b], o, o') && th' == th.(pc := TryAhead(next))
    case TryAhead(k) =>
      if k == n then o' == o && th' == th.(pc := Returned)
      else || (Acquires(t, r[k], o, o') && th' == th.(pc := TryAhead(k + 1)))
           || (o' == o && th' == th.(pc := UnwindAhead(k, k)))
    case UnwindAhead(k, f) =>
      if k > b + 1 then o' == o - {r[k - 1]} && th' == th.(pc := UnwindAhead(k - 1, f))
      else o' == o - {r[b]} && th' == th.(top := Frame(b, f), pc := WantRest)
    case WantRest =>
      && o' == o
      && th' == th.(outer := th.outer + [th.top], top := Frame(next, next + 1), pc := if next == n then Returned else WantLock)
    case TryBegin =>
      || (Acquires(t, r[b], o, o') && th' == th.(pc := TryBetween(b + 1)))
      || (o' == o && th' == th.(top := Frame(b, b + 1), pc := DropGuard(next, false)))
    case TryBetween(k) =>
      if k == next then o' == o && th' == th.(pc := Returned)
      else || (Acquires(t, r[k], o, o') && th' == th.(pc := TryBetween(k + 1)))
           || (o' == o && th' == th.(pc := UnwindBetween(k, k)))
    case UnwindBetween(k, f) =>
      if k > b + 1 then o' == o - {r[k - 1]} && th' == th.(pc := UnwindBetween(k - 1, f))
      else o' == o && th' == th.(top := Frame(b, f), pc := DropGuard(next, true))
    case DropGuard(j, ownsBegin) =>
      if j < n then o' == o - {r[j]} && th' == th.(pc := DropGuard(j + 1, ownsBegin))
      else if ownsBegin then o' == o - {r[b]} && th' == th.(pc := WantRest)
      else o' == o && th' == th.(pc := WantLock)
    case Returned =>
      && o' == o
      && th' == if th.outer == [] then th.(pc := Release(0))
                else th.(outer := th.outer[..|th.outer| - 1], top := th.outer[|th.outer| - 1], pc := TryBegin)
    case Release(j) =>
      if j < n then o' == o - {r[j]} && th' == th.(pc := Release(j + 1))
      else o' == o && th' == Thread([], [], Frame(0, 1), Idle)
  }

  // Invariants of one thread

  /** The suspended calls: each locks the rest of its range with the next call, the last one with the top call. */
  predicate Chain(n: nat, outer: seq<Frame>, begin: nat)
    decreases |outer|
  {
    if outer == [] then begin == 0
    else
      var last := outer[|outer| - 1];
      last.begin < last.next == begin < n && Chain(n, outer[..|outer| - 1], last.begin)
  }

  ghost predicate Ok(th: Thread) {
    var n, b, next := |th.range|, th.top.begin, th.top.next;
    && Distinct(th.range) && Chain(n, th.outer, b)
    && match th.pc
       case Idle => th.outer == []
       case WantLock => b < n && next == b + 1
       case TryAhead(k) => b < k <= n
       case UnwindAhead(k, f) => b < k <= f < n
       case WantRest => b < next < n
       case TryBegin => b < next < n
       case TryBetween(k) => b < k <= next < n
       case UnwindBetween(k, f) => b < k <= f < next < n
       case DropGuard(j, owns) => b < j <= n && b < n && if owns then b < next < n else next == b + 1
       case Returned => b <= n
       case Release(j) => j <= n && th.outer == []
  }

  /** Whether the thread holds position i of its range; this depends on its control state alone. */
  predicate Holds(th: Thread, i: nat) {
    var b := th.top.begin;
    match th.pc
    case Idle => false
    case WantLock => false
    case TryAhead(k) => b <= i < k
    case UnwindAhead(k, _) => b <= i < k
    case WantRest => false
    case TryBegin => th.top.next <= i
    case TryBetween(k) => b <= i < k || th.top.next <= i
    case UnwindBetween(k, _) => b <= i < k || th.top.next <= i
    case DropGuard(j, owns) => (owns && i == b) || j <= i
    case Returned => b <= i
    case Release(j) => j <= i
  }

  /** A step takes at most one mutex, which was free, or gives back one that the thread holds. */
  datatype Effect = Keep | Take(i: nat) | Give(i: nat)

  ghost predicate HasEffect(t: nat, th: Thread, th': Thread, o: Owners, o': Owners, e: Effect) {
    match e
    case Keep => o' == o && SameHeld(th, th')
    case Take(i) => i < |th.range| && !Holds(th, i) && Acquires(t, th.range[i], o, o') && HeldWith(th, th', i)
    case Give(i) => i < |th.range| && Holds(th, i) && o' == o - {th.range[i]} && HeldWith(th', th, i)
  }

  ghost predicate SameHeld(th: Thread, th': Thread) {
    if th'.range == th.range then forall j {:trigger Holds(th', j)} :: 0 <= j < |th.range| ==> (Holds(th', j) <==> Holds(th, j))
    else HoldsNothing(th) && HoldsNothing(th')
  }

  ghost predicate HoldsNothing(th: Thread) {
    forall j :: 0 <= j < |th.range| ==> !Holds(th, j)
  }

  /** The thread holds one more position, i. */
  ghost predicate HeldWith(less: Thread, more: Thread, i: nat) {
    && more.range == less.range && Holds(more, i) && !Holds(less, i)
    && forall j :: 0 <= j < |less.range| && j != i ==> (Holds(more, j) <==> Holds(less, j))
  }

  /** Steps that enter, leave or suspend a call. */
  predicate CallStep(pc: Pc) {
    pc.Idle? || pc.WantRest? || pc.Returned? || pc.Release?
  }

  /** The effect of the step from th to th'. */
  function EffectOf(th: Thread, th': Thread): (e: Effect)
    requires Ok(th)
  {
    var b := th.top.begin;
    match th.pc
    case Idle => Keep
    case WantLock => Take(b)
    case TryAhead(k) => if th'.pc == TryAhead(k + 1) then Take(k) else Keep
    case UnwindAhead(k, _) => Give(k - 1)
    case WantRest => Keep
    case TryBegin => if th'.pc == TryBetween(b + 1) then Take(b) else Keep
    case TryBetween(k) => if th'.pc == TryBetween(k + 1) then Take(k) else Keep
    case UnwindBetween(k, _) => if k > b + 1 then Give(k - 1) else Keep
    case DropGuard(j, owns) => if j < |th.range| then Give(j) else if owns then Give(b) else Keep
    case Returned => Keep
    case Release(j) => if j < |th.range| then Give(j) else Keep
  }

  lemma CallEffect(t: nat, th: Thread, th': Thread, o: Owners, o': Owners)
    requires Ok(th) && Step(t, th, th', o, o') && CallStep(th.pc)
    ensures HasEffect(t, th, th', o, o', EffectOf(th, th'))
  {
    hide Distinct;
  }

  lemma AheadEffect(t: nat, th: Thread, th': Thread, o: Owners, o': Owners)
    requires Ok(th) && Step(t, th, th', o, o') && (th.pc.WantLock? || th.pc.TryAhead? || th.pc.UnwindAhead?)
    ensures HasEffect(t, th, th', o, o', EffectOf(th, th'))
  {
    hide Chain, Distinct;
  }

  lemma BetweenEffect(t: nat, th: Thread, th': Thread, o: Owners, o': Owners)
    requires Ok(th) && Step(t, th, th', o, o')
    requires th.pc.TryBegin? || th.pc.TryBetween? || th.pc.UnwindBetween? || th.pc.DropGuard?
    ensures HasEffect(t, th, th', o, o', EffectOf(th, th'))
  {
    hide Chain, Distinct;
  }

  /** What a step does to the owners is what it does to the positions the thread holds. */
  lemma StepEffect(t: nat, th: Thread, th': Thread, o: Owners, o': Owners)
    requires Ok(th) && Step(t, th, th', o, o')
    ensures HasEffect(t, th, th', o, o', EffectOf(th, th'))
  {
    hide Ok, Step, HasEffect, EffectOf;
    if CallStep(th.pc) {
      CallEffect(t, th, th', o, o');
    } else if th.pc.WantLock? || th.pc.TryAhead? || th.pc.UnwindAhead? {
      AheadEffect(t, th, th', o, o');
    } else {
      BetweenEffect(t, th, th', o, o');
    }
  }

  lemma CallOk(t: nat, th: Thread, th': Thread, o: Owners, o': Owners)
    requires Ok(th) && Step(t, th, th', o, o') && CallStep(th.pc)
    ensures Ok(th')
  {
    if th.pc.WantRest? {
      assert th'.outer[..|th'.outer| - 1] == th.outer;
    }
  }

  lemma LockOk(t: nat, th: Thread, th': Thread, o: Owners, o': Owners)
    requires Ok(th) && Step(t, th, th', o, o') && !CallStep(th.pc)
    ensures Ok(th')
  {
    hide Chain, Distinct;
  }

  lemma StepOk(t: nat, th: Thread, th': Thread, o: Owners, o': Owners)
    requires Ok(th) && Step(t, th, th', o, o')
    ensures Ok(th')
  {
    hide Ok, Step;
    if CallStep(th.pc) {
      CallOk(t, th, th', o, o');
    } else {
      LockOk(t, th, th', o, o');
    }
  }

  // Ownership

  predicate Owns(t: nat, o: Owners, m: Mutex) {
    m in o && o[m] == t
  }

  ghost predicate HeldAt(th: Thread, m: Mutex) {
    exists i :: 0 <= i < |th.range| && th.range[i] == m && Holds(th, i)
  }

  /** Thread t owns the mutexes that its control state says it holds, and no others. */
  ghost predicate OwnsExactly(t: nat, th: Thread, o: Owners) {
    && (forall i {:trigger Holds(th, i)} :: 0 <= i < |th.range| ==> (Holds(th, i) <==> Owns(t, o, th.range[i])))
    && (forall m :: Owns(t, o, m) ==> HeldAt(th, m))
  }

  lemma StepperOwns(t: nat, th: Thread, th': Thread, o: Owners, o': Owners, e: Effect)
    requires OwnsExactly(t, th, o) && HasEffect(t, th, th', o, o', e) && Distinct(th.range)
    ensures OwnsExactly(t, th', o')
  {
    hide Holds;
    match e {
      case Keep => KeepOwns(t, th, th', o);
      case Take(i) => TakeOwns(t, th, th', o, o', i);
      case Give(i) => GiveOwns(t, th, th', o, o', i);
    }
  }

  lemma KeepOwns(t: nat, th: Thread, th': Thread, o: Owners)
    requires OwnsExactly(t, th, o) && SameHeld(th, th')
    ensures OwnsExactly(t, th', o)
  {
    hide Holds;
    forall m | Owns(t, o, m)
      ensures HeldAt(th', m)
    {
      var i :| 0 <= i < |th.range| && th.range[i] == m && Holds(th, i);
      assert Holds(th', i);
    }
    if th'.range != th.range {
      assert forall m :: !HeldAt(th, m);
    }
  }

  lemma TakeOwns(t: nat, th: Thread, th': Thread, o: Owners, o': Owners, i: nat)
    requires OwnsExactly(t, th, o) && Distinct(th.range) && i < |th.range|
    requires Acquires(t, th.range[i], o, o') && HeldWith(th, th', i)
    ensures OwnsExactly(t, th', o')
  {
    hide Holds;
    forall m | Owns(t, o', m)
      ensures HeldAt(th', m)
    {
      if m != th.range[i] {
        assert Owns(t, o, m);
        var j :| 0 <= j < |th.range| && th.range[j] == m && Holds(th, j);
        assert Holds(th', j);
      }
    }
    forall j | 0 <= j < |th.range|
      ensures Holds(th', j) <==> Owns(t, o', th.range[j])
    {
      assert Holds(th, j) <==> Owns(t, o, th.range[j]);
    }
  }

  lemma GiveOwns(t: nat, th: Thread, th': Thread, o: Owners, o': Owners, i: nat)
    requires OwnsExactly(t, th, o) && Distinct(th.range) && i < |th.range|
    requires o' == o - {th.range[i]} && HeldWith(th', th, i)
    ensures OwnsExactly(t, th', o')
  {
    hide Holds;
    forall m | Owns(t, o', m)
      ensures HeldAt(th', m)
    {
      assert Owns(t, o, m);
      var j :| 0 <= j < |th.range| && th.range[j] == m && Holds(th, j);
      assert Holds(th', j);
    }
    forall j | 0 <= j < |th.range|
      ensures Holds(th', j) <==> Owns(t, o', th.range[j])
    {
      assert Holds(th, j) <==> Owns(t, o, th.range[j]);
    }
  }

  /** A step of thread t does not change what another thread owns. */
  lemma OthersOwn(t: nat, th: Thread, th': Thread, o: Owners, o': Owners, e: Effect, u: nat, other: Thread)
    requires OwnsExactly(t, th, o) && HasEffect(t, th, th', o, o', e) && u != t && OwnsExactly(u, other, o)
    ensures OwnsExactly(u, other, o')
  {
    hide Holds, HeldAt, SameHeld, HeldWith;
    assert forall m :: Owns(u, o', m) <==> Owns(u, o, m) by {
      match e {
        case Keep =>
        case Take(_) =>
        case Give(i) => assert Holds(th, i);
      }
    }
  }

  // All threads

  ghost predicate Inv(s: State) {
    && (forall t :: 0 <= t < |s.threads| ==> Ok(s.threads[t]) && OwnsExactly(t, s.threads[t], s.owner))
    && (forall m :: m in s.owner ==> s.owner[m] < |s.threads|)
  }

  /** Thread t takes a step. (Its local invariant, which steps need to be defined, holds in every reachable state.) */
  ghost predicate Next(s: State, s': State, t: nat) {
    && t < |s.threads| && |s'.threads| == |s.threads|
    && (forall u :: 0 <= u < |s.threads| && u != t ==> s'.threads[u] == s.threads[u])
    && Ok(s.threads[t]) && Step(t, s.threads[t], s'.threads[t], s.owner, s'.owner)
  }

  const OUTSIDE := Thread([], [], Frame(0, 1), Idle)

  /** Any number of threads, none of which has called LockRange. */
  predicate Init(s: State) {
    s.owner == map[] && forall t :: 0 <= t < |s.threads| ==> s.threads[t] == OUTSIDE
  }

  lemma InitInv(s: State)
    requires Init(s)
    ensures Inv(s)
  {
  }

  lemma NextInv(s: State, s': State, t: nat)
    requires Inv(s) && Next(s, s', t)
    ensures Inv(s')
  {
    hide Ok, Step, OwnsExactly, HasEffect;
    var th, th' := s.threads[t], s'.threads[t];
    var e := EffectOf(th, th');
    StepEffect(t, th, th', s.owner, s'.owner);
    StepOk(t, th, th', s.owner, s'.owner);
    OkDistinct(th);
    StepperOwns(t, th, th', s.owner, s'.owner, e);
    forall u | 0 <= u < |s.threads| && u != t
      ensures OwnsExactly(u, s'.threads[u], s'.owner)
    {
      OthersOwn(t, th, th', s.owner, s'.owner, e, u, s.threads[u]);
    }
    OwnersAreThreads(s, s', t, th, th', e);
  }

  lemma OkDistinct(th: Thread)
    requires Ok(th)
    ensures Distinct(th.range)
  {
  }

  lemma OwnersAreThreads(s: State, s': State, t: nat, th: Thread, th': Thread, e: Effect)
    requires t < |s.threads| && HasEffect(t, th, th', s.owner, s'.owner, e)
    requires forall m :: m in s.owner ==> s.owner[m] < |s.threads|
    ensures forall m :: m in s'.owner ==> s'.owner[m] < |s.threads|
  {
    hide Holds, SameHeld, HeldWith;
  }

  /** A run: each state follows from the one before by a step of some thread. */
  ghost predicate Run(run: seq<State>) {
    && run != [] && Init(run[0])
    && forall i, j {:trigger run[i], run[j]} :: 0 <= i && i + 1 == j < |run| ==> SomeStep(run[i], run[j])
  }

  ghost predicate SomeStep(s: State, s': State) {
    exists t :: Next(s, s', t)
  }

  ghost predicate Reachable(s: State) {
    exists run :: Run(run) && run[|run| - 1] == s
  }

  lemma {:induction false} RunInv(run: seq<State>, i: nat)
    requires Run(run) && i < |run|
    ensures Inv(run[i])
  {
    hide Inv, Init, Next;
    if i == 0 {
      InitInv(run[0]);
    } else {
      RunInv(run, i - 1);
      assert SomeStep(run[i - 1], run[i]);
      var t :| Next(run[i - 1], run[i], t);
      NextInv(run[i - 1], run[i], t);
    }
  }

  /** Every reachable state, in any interleaving of any number of threads, satisfies the invariant. */
  lemma ReachableInv(s: State)
    requires Reachable(s)
    ensures Inv(s)
  {
    hide Inv, SomeStep, Init;
    var run :| Run(run) && run[|run| - 1] == s;
    RunInv(run, |run| - 1);
  }

  // Deadlock

  /** Thread t is inside a blocking lock call on a mutex that another thread owns. */
  predicate Waits(s: State, t: nat, u: nat) {
    t < |s.threads| && u < |s.threads| &&
    var th := s.threads[t];
    th.pc.WantLock? && th.top.begin < |th.range| && Owns(u, s.owner, th.range[th.top.begin])
  }

  /** A thread that is about to block, at any depth of recursion, owns no mutex. */
  lemma BlockedOwnsNothing(s: State, t: nat)
    requires Reachable(s) && t < |s.threads| && s.threads[t].pc.WantLock?
    ensures forall m :: !Owns(t, s.owner, m)
  {
    ReachableInv(s);
    assert forall m :: !HeldAt(s.threads[t], m);
  }

  /** Nobody waits for a waiting thread, so there is no cycle of waiting threads. */
  lemma NoWaitChain(s: State, t: nat, u: nat, v: nat)
    requires Reachable(s) && Waits(s, t, u)
    ensures !Waits(s, u, v)
  {
    if Waits(s, u, v) {
      BlockedOwnsNothing(s, u);
    }
  }

  ghost predicate WaitCycle(s: State, cycle: seq<nat>) {
    && cycle != []
    && forall i :: 0 <= i < |cycle| ==> Waits(s, cycle[i], cycle[if i + 1 < |cycle| then i + 1 else 0])
  }

  lemma NoWaitCycle(s: State)
    requires Reachable(s)
    ensures forall cycle :: !WaitCycle(s, cycle)
  {
    hide Waits, Reachable;
    forall cycle
      ensures !WaitCycle(s, cycle)
    {
      if WaitCycle(s, cycle) {
        var n := |cycle|;
        var one := if 1 < n then 1 else 0;
        var two := if one + 1 < n then one + 1 else 0;
        assert Waits(s, cycle[0], cycle[one]) && Waits(s, cycle[one], cycle[two]);
        NoWaitChain(s, cycle[0], cycle[one], cycle[two]);
      }
    }
  }

  // Results

  /** LockRange has returned to the caller. */
  predicate Done(th: Thread) {
    th.pc.Returned? && th.outer == []
  }

  /** When LockRange returns, the thread owns every mutex of its range and nothing else. */
  lemma ReturnsWithAll(s: State, t: nat)
    requires Reachable(s) && t < |s.threads| && Done(s.threads[t])
    ensures forall m :: Owns(t, s.owner, m) <==> m in s.threads[t].range
  {
    ReachableInv(s);
    var th := s.threads[t];
    forall m
      ensures Owns(t, s.owner, m) <==> m in th.range
    {
      if m in th.range {
        var i :| 0 <= i < |th.range| && th.range[i] == m;
        assert Holds(th, i);
      }
      if Owns(t, s.owner, m) {
        assert HeldAt(th, m);
      }
    }
  }

  /** A step locks only a mutex that nobody owns, itself included, and unlocks only one that it owns. */
  lemma LocksAreUsedCorrectly(s: State, s': State, t: nat, m: Mutex)
    requires Inv(s) && Next(s, s', t)
    ensures m in s'.owner && m !in s.owner ==> Owns(t, s'.owner, m)
    ensures m !in s'.owner && m in s.owner ==> Owns(t, s.owner, m)
    ensures m in s'.owner && m in s.owner ==> s'.owner[m] == s.owner[m]
  {
    hide Step, SameHeld, HeldWith, Holds;
    var th, th' := s.threads[t], s'.threads[t];
    StepEffect(t, th, th', s.owner, s'.owner);
    var e := EffectOf(th, th');
    if e.Give? {
      assert Holds(th, e.i);
    }
  }

  /** The mutexes at positions from up to to. */
  predicate InSlice(th: Thread, from: nat, to: nat, m: Mutex)
    requires from <= to <= |th.range|
  {
    m in th.range[from..to]
  }

  /** The inner TryLockRange of either branch has locked up to its end. */
  predicate TriedAll(th: Thread) {
    th.pc == TryAhead(|th.range|) || th.pc == TryBetween(th.top.next)
  }

  /** The inner TryLockRange of either branch has failed and released its guards. */
  predicate TriedNone(th: Thread) {
    (th.pc.UnwindAhead? || th.pc.UnwindBetween?) && th.pc.k == th.top.begin + 1
  }

  /** TryLockRange that reaches its end leaves the thread with its whole range. */
  lemma TryLockRangeTakesAll(s: State, t: nat)
    requires Reachable(s) && t < |s.threads| && TriedAll(s.threads[t])
    ensures s.threads[t].top.begin <= |s.threads[t].range|
    ensures forall m :: Owns(t, s.owner, m) <==> InSlice(s.threads[t], s.threads[t].top.begin, |s.threads[t].range|, m)
  {
    hide Chain, Distinct, OwnsExactly;
    ReachableInv(s);
    OwnsSlice(t, s.threads[t], s.owner, s.threads[t].top.begin, |s.threads[t].range|);
  }

  /** TryLockRange that fails leaves the thread with what it owned before: the first mutex, and what the guard locked. */
  lemma TryLockRangeGivesBack(s: State, t: nat)
    requires Reachable(s) && t < |s.threads| && TriedNone(s.threads[t])
    ensures var th := s.threads[t]; th.top.begin < |th.range| && (th.pc.UnwindBetween? ==> th.top.next <= |th.range|)
    ensures var th := s.threads[t]; forall m :: Owns(t, s.owner, m) <==>
              m == th.range[th.top.begin] || (th.pc.UnwindBetween? && InSlice(th, th.top.next, |th.range|, m))
  {
    hide Chain, Distinct, OwnsExactly, InSlice;
    ReachableInv(s);
    var th, b, c := s.threads[t], s.threads[t].top.begin, s.threads[t].top.begin + 1;
    if th.pc.UnwindAhead? {
      OwnsSlice(t, th, s.owner, b, c);
      OneSlice(th, b, c);
    } else {
      OwnsFirstAndSlice(t, th, s.owner, b, th.top.next);
    }
  }

  /** The position that a failed TryLockRange is about to report. */
  predicate Fails(th: Thread, f: nat) {
    (th.pc.UnwindAhead? || th.pc.UnwindBetween?) && th.pc.failed == f
  }

  /**
   TryLockRange fails at the first mutex it could not take: when it turns back, the thread owns all
   mutexes of the call before that position, and not the one there.
   */
  lemma FailsAtFirst(s: State, s': State, t: nat, f: nat)
    requires Reachable(s) && Next(s, s', t) && !Fails(s.threads[t], f) && Fails(s'.threads[t], f)
    ensures var th, b := s'.threads[t], s'.threads[t].top.begin;
      && b < f < |th.range|
      && (forall i {:trigger th.range[i]} :: b <= i < f ==> Owns(t, s'.owner, th.range[i]))
      && !Owns(t, s'.owner, th.range[f])
  {
    hide OwnsExactly;
    ReachableInv(s);
    NextInv(s, s', t);
    hide Chain, Distinct, Next, Step;
    TurnsBack(s, s', t, f);
    HeldIsOwned(t, s'.threads[t], s'.owner);
  }

  lemma TurnsBack(s: State, s': State, t: nat, f: nat)
    requires Next(s, s', t) && !Fails(s.threads[t], f) && Fails(s'.threads[t], f)
    ensures s'.threads[t].pc.k == f
  {
    hide Chain, Distinct;
  }

  lemma HeldIsOwned(t: nat, th: Thread, o: Owners)
    requires OwnsExactly(t, th, o)
    ensures forall i {:trigger th.range[i]} :: 0 <= i < |th.range| ==> (Holds(th, i) <==> Owns(t, o, th.range[i]))
  {
    hide Holds, HeldAt;
  }

  /** That position is reported: it stays the same while the guards are released, and the next turn starts from it. */
  lemma FailureIsReported(s: State, s': State, t: nat, f: nat)
    requires Next(s, s', t) && Fails(s.threads[t], f)
    ensures var th, th' := s.threads[t], s'.threads[t];
      && th'.range == th.range
      && if Fails(th', f) then th'.top == th.top
         else th'.top == Frame(th.top.begin, f) && (th'.pc == WantRest || th'.pc == DropGuard(th.top.next, true))
  {
    hide Chain, Distinct;
  }

  lemma OneSlice(th: Thread, b: nat, c: nat)
    requires b + 1 == c <= |th.range|
    ensures forall m :: InSlice(th, b, c, m) <==> m == th.range[b]
  {
  }

  lemma OwnsSlice(t: nat, th: Thread, o: Owners, from: nat, to: nat)
    requires OwnsExactly(t, th, o) && from <= to <= |th.range|
    requires forall i :: 0 <= i < |th.range| ==> (Holds(th, i) <==> from <= i < to)
    ensures forall m :: Owns(t, o, m) <==> InSlice(th, from, to, m)
  {
    hide Holds;
    forall m
      ensures Owns(t, o, m) <==> InSlice(th, from, to, m)
    {
      if InSlice(th, from, to, m) {
        var j :| 0 <= j < to - from && th.range[from..to][j] == m;
        assert Holds(th, from + j);
      }
      if Owns(t, o, m) {
        var i :| 0 <= i < |th.range| && th.range[i] == m && Holds(th, i);
        assert th.range[from..to][i - from] == m;
      }
    }
  }

  lemma OwnsFirstAndSlice(t: nat, th: Thread, o: Owners, b: nat, from: nat)
    requires OwnsExactly(t, th, o) && b < from <= |th.range|
    requires forall i :: 0 <= i < |th.range| ==> (Holds(th, i) <==> i == b || from <= i)
    ensures forall m :: Owns(t, o, m) <==> m == th.range[b] || InSlice(th, from, |th.range|, m)
  {
    hide Holds;
    assert Holds(th, b);
    forall m
      ensures Owns(t, o, m) <==> m == th.range[b] || InSlice(th, from, |th.range|, m)
    {
      if InSlice(th, from, |th.range|, m) {
        var j :| 0 <= j < |th.range| - from && th.range[from..][j] == m;
        assert Holds(th, from + j);
      }
      if Owns(t, o, m) && m != th.range[b] {
        var i :| 0 <= i < |th.range| && th.range[i] == m && Holds(th, i);
        assert th.range[from..][i - from] == m;
      }
    }
  }

  // Progress

  /** The step that a thread takes when nothing is in its way: every try-lock succeeds. */
  function Proceed(th: Thread): Thread
    requires Ok(th)
  {
    var n, b, next := |th.range|, th.top.begin, th.top.next;
    match th.pc
    case Idle => th
    case WantLock => th.(pc := TryAhead(next))
    case TryAhead(k) => th.(pc := if k == n then Returned else TryAhead(k + 1))
    case UnwindAhead(k, f) => if k > b + 1 then th.(pc := UnwindAhead(k - 1, f)) else th.(top := Frame(b, f), pc := WantRest)
    case WantRest => th.(outer := th.outer + [th.top], top := Frame(next, next + 1), pc := WantLock)
    case TryBegin => th.(pc := TryBetween(b + 1))
    case TryBetween(k) => th.(pc := if k == next then Returned else TryBetween(k + 1))
    case UnwindBetween(k, f) => if k > b + 1 then th.(pc := UnwindBetween(k - 1, f)) else th.(top := Frame(b, f), pc := DropGuard(next, true))
    case DropGuard(j, owns) => th.(pc := if j < n then DropGuard(j + 1, owns) else if owns then WantRest else WantLock)
    case Returned =>
      if th.outer == [] then th.(pc := Release(0))
      else th.(outer := th.outer[..|th.outer| - 1], top := th.outer[|th.outer| - 1], pc := TryBegin)
    case Release(j) => if j < n then th.(pc := Release(j + 1)) else OUTSIDE
  }

  /** The mutexes of the thread's range are free or its own. */
  ghost predicate Unobstructed(t: nat, th: Thread, o: Owners) {
    forall i {:trigger th.range[i]} :: 0 <= i < |th.range| ==> th.range[i] !in o || Owns(t, o, th.range[i])
  }

  function NewOwners(t: nat, th: Thread, o: Owners): Owners
    requires Ok(th)
  {
    match EffectOf(th, Proceed(th))
    case Keep => o
    case Take(i) => if i < |th.range| then o[th.range[i] := t] else o
    case Give(i) => if i < |th.range| then o - {th.range[i]} else o
  }

  lemma ProceedIsStep(t: nat, th: Thread, o: Owners)
    requires Ok(th) && OwnsExactly(t, th, o) && !th.pc.Idle? && Unobstructed(t, th, o)
    ensures Step(t, th, Proceed(th), o, NewOwners(t, th, o))
  {
    hide Chain, Distinct, HeldAt;
    var b := th.top.begin;
    match th.pc {
      case WantLock => assert !Holds(th, b);
      case TryAhead(k) => assert k < |th.range| ==> !Holds(th, k);
      case TryBegin => assert !Holds(th, b);
      case TryBetween(k) => assert k < th.top.next ==> !Holds(th, k);
      case _ =>
    }
  }

  /** An upper bound on the unobstructed steps to the return of the outermost call. */
  function Cost(th: Thread): nat
    requires Ok(th)
  {
    var n, b, next := |th.range|, th.top.begin, th.top.next;
    OuterCost(n, |th.outer|) +
    match th.pc
    case Idle => 0
    case WantLock => n + 2
    case TryAhead(k) => n - k + 1
    case UnwindAhead(k, _) => k + 2 * n + 10
    case WantRest => 2 * n + 8
    case TryBegin => n + 2
    case TryBetween(k) => next - k + 1
    case UnwindBetween(k, _) => k + 3 * n + 12
    case DropGuard(j, _) => n - j + 2 * n + 9
    case Returned => 0
    case Release(_) => 0
  }

  function OuterCost(n: nat, depth: nat): nat {
    if depth == 0 then 0 else OuterCost(n, depth - 1) + n + 5
  }

  lemma ProceedCost(th: Thread)
    requires Ok(th) && Ok(Proceed(th)) && !th.pc.Idle? && !th.pc.Release? && !Done(th)
    ensures Cost(Proceed(th)) < Cost(th)
  {
    hide Chain, Distinct;
  }

  /** A state in which thread t goes on unobstructed. */
  function After(s: State, t: nat): State
    requires Inv(s) && t < |s.threads|
  {
    State(s.threads[t := Proceed(s.threads[t])], NewOwners(t, s.threads[t], s.owner))
  }

  lemma AfterIsNext(s: State, t: nat)
    requires Inv(s) && t < |s.threads| && !s.threads[t].pc.Idle? && Unobstructed(t, s.threads[t], s.owner)
    ensures Next(s, After(s, t), t) && Inv(After(s, t))
  {
    hide Ok, OwnsExactly, Step, Unobstructed, Proceed, NewOwners;
    ProceedIsStep(t, s.threads[t], s.owner);
    NextInv(s, After(s, t), t);
  }

  lemma StillUnobstructed(t: nat, th: Thread, o: Owners)
    requires Ok(th) && !th.pc.Idle? && Unobstructed(t, th, o) && Proceed(th).range == th.range
    ensures Unobstructed(t, Proceed(th), NewOwners(t, th, o))
  {
    hide Chain, Distinct, Proceed, EffectOf;
  }

  lemma ProceedKeepsRange(th: Thread)
    requires Ok(th) && !th.pc.Idle? && !th.pc.Release?
    ensures Proceed(th).range == th.range && !Proceed(th).pc.Idle?
    ensures !Done(th) ==> !Proceed(th).pc.Release?
  {
    hide Chain, Distinct;
  }

  /** A run in which only thread t moves. */
  ghost predicate SoloRun(run: seq<State>, t: nat) {
    && run != [] && (forall i :: 0 <= i < |run| ==> Inv(run[i]))
    && forall i :: 0 <= i < |run| - 1 ==> Next(run[i], run[i + 1], t)
  }

  /**
   Progress: from every state inside LockRange, if the other threads hold none of the mutexes
   of its range, the thread returns by its own steps.
   */
  lemma {:induction false} SoloReturns(s: State, t: nat) returns (run: seq<State>)
    requires Inv(s) && t < |s.threads| && Unobstructed(t, s.threads[t], s.owner)
    requires !s.threads[t].pc.Idle? && !s.threads[t].pc.Release?
    ensures SoloRun(run, t) && run[0] == s && |run[|run| - 1].threads| == |s.threads|
    ensures Done(run[|run| - 1].threads[t])
    decreases Cost(s.threads[t])
  {
    hide Ok, OwnsExactly, Proceed, NewOwners, Step, Unobstructed, Cost;
    if Done(s.threads[t]) {
      run := [s];
    } else {
      var s' := After(s, t);
      AfterIsNext(s, t);
      ProceedCost(s.threads[t]);
      ProceedKeepsRange(s.threads[t]);
      StillUnobstructed(t, s.threads[t], s.owner);
      var rest := SoloReturns(s', t);
      run := [s] + rest;
      forall i | 0 <= i < |run| - 1
        ensures Next(run[i], run[i + 1], t)
      {
        assert run[i + 1] == rest[i];
        assert i > 0 ==> run[i] == rest[i - 1];
      }
    }
  }

  /** No deadlock: while some thread is between its call and the end of its unlocking, some such thread can step. */
  lemma SomeoneCanStep(s: State, t: nat) returns (u: nat, s': State)
    requires Reachable(s) && t < |s.threads| && !s.threads[t].pc.Idle?
    ensures Inv(s) && u < |s.threads| && !s.threads[u].pc.Idle? && Next(s, s', u)
  {
    ReachableInv(s);
    var th := s.threads[t];
    u := t;
    if th.pc.WantLock? && th.range[th.top.begin] in s.owner {
      u := s.owner[th.range[th.top.begin]];
      assert Waits(s, t, u);
      OwnerIsInside(u, s.threads[u], s.owner, th.range[th.top.begin]);
      NotWaiting(s, t, u);
    }
    s' := FreeStep(s, u);
  }

  lemma OwnerIsInside(t: nat, th: Thread, o: Owners, m: Mutex)
    requires OwnsExactly(t, th, o) && Owns(t, o, m)
    ensures !th.pc.Idle?
  {
    assert HeldAt(th, m);
  }

  lemma NotWaiting(s: State, t: nat, u: nat)
    requires Reachable(s) && Inv(s) && Waits(s, t, u)
    ensures !s.threads[u].pc.WantLock?
  {
    if s.threads[u].pc.WantLock? {
      BlockedOwnsNothing(s, u);
    }
  }

  /** A thread that is not about to block has a step, whatever the others own. */
  lemma FreeStep(s: State, t: nat) returns (s': State)
    requires Inv(s) && t < |s.threads| && !s.threads[t].pc.Idle?
    requires s.threads[t].pc.WantLock? ==> s.threads[t].range[s.threads[t].top.begin] !in s.owner
    ensures Next(s, s', t)
  {
    hide Chain, Distinct, OwnsExactly;
    var th, o := s.threads[t], s.owner;
    var b, n, next := th.top.begin, |th.range|, th.top.next;
    var th', o' := Proceed(th), NewOwners(t, th, o);
    match th.pc {
      case TryAhead(k) => if k < n && th.range[k] in o { th', o' := th.(pc := UnwindAhead(k, k)), o; }
      case TryBegin => if th.range[b] in o { th', o' := th.(top := Frame(b, b + 1), pc := DropGuard(next, false)), o; }
      case TryBetween(k) => if k < next && th.range[k] in o { th', o' := th.(pc := UnwindBetween(k, k)), o; }
      case _ =>
    }
    s' := State(s.threads[t := th'], o');
  }
}
