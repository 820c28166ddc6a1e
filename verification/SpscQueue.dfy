/**
 The bounded queue of one producer and one consumer, as atomic steps of the two threads and of a
 thread that requests a stop. Indices are unsigned 64-bit numbers that wrap around; each mutex and
 each condition variable is abstract: a waiting thread may wake up at any time.
 */
module SpscQueue {
  import opened Options
  import opened Binary
  import opened Words
  import opened WordBits
  import opened Division

  /** Who holds a mutex. */
  datatype Owner = Free | ByProducer | ByConsumer

  datatype ProducerPc<T> =
    | PIdle
    // m_write_index is loaded
    | PStart(wait: bool, v: T, wi: nat)
    // in producer_cv.wait: woken up or entering, the mutex still to be locked
    | PLocking(v: T, wi: nat)
    // with the producer mutex: before the predicate, after it failed, after it held
    | PTest(v: T, wi: nat)
    | PFailed(v: T, wi: nat)
    | PPassed(v: T, wi: nat)
    | PAsleep(v: T, wi: nat)
    // the slot is to be written, then the index incremented
    | PWrite(v: T, wi: nat)
    | PIncrement(v: T, wi: nat)
    // the consumer mutex is to be locked, then the consumer notified, then the mutex unlocked
    | PNotifyLock
    | PNotify
    | PUnlock

  datatype PopMode = Try | Wait | WaitWithStopToken

  datatype ConsumerPc<T> =
    | CIdle
    | CStart(mode: PopMode, ri: nat)
    | CLocking(mode: PopMode, ri: nat)
    // with the consumer mutex: before the stop test, before the predicate, after it failed, after the wait
    | CStopTest(mode: PopMode, ri: nat)
    | CTest(mode: PopMode, ri: nat)
    | CFailed(mode: PopMode, ri: nat)
    | CWaited(mode: PopMode, ri: nat)
    | CAsleep(mode: PopMode, ri: nat)
    | CRead(ri: nat)
    | CIncrement(v: T, ri: nat)
    | CNotifyLock
    | CNotify
    | CUnlock

  datatype QueueState<T> = QueueState(
    cap: nat, read: nat, write: nat, data: seq<T>,
    p: ProducerPc<T>, c: ConsumerPc<T>, producerMutex: Owner, consumerMutex: Owner,
    // the stop token, and whether the request still has to wake up waiters
    stop: bool, stopPending: bool,
    // history: all values pushed and popped so far
    pushed: seq<T>, popped: seq<T>)

  // Steps of the producer

  /** Unsigned subtraction. */
  function Sub(a: nat, b: nat): nat {
    (a - b) % U64
  }

  function Incremented(a: nat): nat {
    (a + 1) % U64
  }

  ghost predicate ProducerStep<T(!new)>(s: QueueState<T>, s': QueueState<T>) {
    match s.p
    case PIdle => exists wait, v :: s' == s.(p := PStart(wait, v, s.write))
    case PStart(wait, v, wi) =>
      if wait then s' == s.(p := PLocking(v, wi))
      else s' == s.(p := if Sub(wi, s.read) == s.cap then PIdle else PWrite(v, wi))
    case PLocking(v, wi) => s.producerMutex == Free && s' == s.(p := PTest(v, wi), producerMutex := ByProducer)
    case PTest(v, wi) => s' == s.(p := if Sub(wi, s.read) < s.cap then PPassed(v, wi) else PFailed(v, wi))
    case PFailed(v, wi) => s' == s.(p := PAsleep(v, wi), producerMutex := Free)
    case PPassed(v, wi) => s' == s.(p := PWrite(v, wi), producerMutex := Free)
    case PAsleep(v, wi) => s' == s.(p := PLocking(v, wi))
    case PWrite(v, wi) => 0 < s.cap == |s.data| && s' == s.(p := PIncrement(v, wi), data := s.data[wi % s.cap := v])
    case PIncrement(v, wi) => s' == s.(p := PNotifyLock, write := Incremented(s.write), pushed := s.pushed + [v])
    case PNotifyLock => s.consumerMutex == Free && s' == s.(p := PNotify, consumerMutex := ByProducer)
    case PNotify => s' == s.(p := PUnlock, c := WakeConsumer(s.c))
    case PUnlock => s' == s.(p := PIdle, consumerMutex := Free)
  }

  function WakeConsumer<T>(c: ConsumerPc<T>): ConsumerPc<T> {
    if c.CAsleep? then CLocking(c.mode, c.ri) else c
  }

  function WakeProducer<T>(p: ProducerPc<T>): ProducerPc<T> {
    if p.PAsleep? then PLocking(p.v, p.wi) else p
  }

  // Steps of the consumer

  predicate Stopped<T>(s: QueueState<T>, mode: PopMode) {
    mode == WaitWithStopToken && s.stop
  }

  ghost predicate ConsumerStep<T(!new)>(s: QueueState<T>, s': QueueState<T>) {
    match s.c
    case CIdle => exists mode :: s' == s.(c := CStart(mode, s.read))
    case CStart(mode, ri) =>
      if mode == Try then s' == s.(c := if ri == s.write then CIdle else CRead(ri))
      else s' == s.(c := CLocking(mode, ri))
    case CLocking(mode, ri) => s.consumerMutex == Free && s' == s.(c := CStopTest(mode, ri), consumerMutex := ByConsumer)
    case CStopTest(mode, ri) => s' == s.(c := if Stopped(s, mode) then CWaited(mode, ri) else CTest(mode, ri))
    case CTest(mode, ri) => s' == s.(c := if ri != s.write then CWaited(mode, ri) else CFailed(mode, ri))
    case CFailed(mode, ri) =>
      // a wait with a stop token does not block once a stop is requested
      if Stopped(s, mode) then s' == s.(c := CStopTest(mode, ri))
      else s' == s.(c := CAsleep(mode, ri), consumerMutex := Free)
    case CWaited(mode, ri) => s' == s.(c := if Stopped(s, mode) then CIdle else CRead(ri), consumerMutex := Free)
    case CAsleep(mode, ri) => s' == s.(c := CLocking(mode, ri))
    case CRead(ri) => 0 < s.cap == |s.data| && s' == s.(c := CIncrement(s.data[ri % s.cap], ri))
    case CIncrement(v, ri) => s' == s.(c := CNotifyLock, read := Incremented(s.read), popped := s.popped + [v])
    case CNotifyLock => s.producerMutex == Free && s' == s.(c := CNotify, producerMutex := ByConsumer)
    case CNotify => s' == s.(c := CUnlock, p := WakeProducer(s.p))
    case CUnlock => s' == s.(c := CIdle, producerMutex := Free)
  }

  // Steps of the thread that requests a stop

  predicate StopStep<T(==)>(s: QueueState<T>, s': QueueState<T>) {
    || (!s.stop && s' == s.(stop := true, stopPending := true))
    || (s.stopPending && s' == s.(stopPending := false, c := if s.c.CAsleep? && s.c.mode == WaitWithStopToken then WakeConsumer(s.c) else s.c))
  }

  ghost predicate Next<T(!new)>(s: QueueState<T>, s': QueueState<T>) {
    ProducerStep(s, s') || ConsumerStep(s, s') || StopStep(s, s')
  }

  ghost predicate Init<T>(s: QueueState<T>) {
    && 0 < s.cap < U64 && And(s.cap, s.cap - 1) == 0 && |s.data| == s.cap
    && s.read == s.write == 0 && s.p.PIdle? && s.c.CIdle? && s.producerMutex == s.consumerMutex == Free
    && !s.stopPending && s.pushed == s.popped == []
  }

  // Invariants

  /** The capacity divides the range of the indices. */
  ghost predicate CapacityOk(cap: nat) {
    0 < cap < U64 && exists m: nat :: cap * m == U64
  }

  /** Indices and slots against the history. */
  ghost predicate QueueInv<T>(cap: nat, data: seq<T>, write: nat, read: nat, pushed: seq<T>, popped: seq<T>) {
    && CapacityOk(cap) && |data| == cap
    && write == |pushed| % U64 && read == |popped| % U64
    && |popped| <= |pushed| <= |popped| + cap
    && popped == pushed[..|popped|]
    && forall i :: |popped| <= i < |pushed| ==> data[i % cap] == pushed[i]
  }

  function Queued<T>(s: QueueState<T>): int {
    |s.pushed| - |s.popped|
  }

  ghost predicate ProducerInv<T>(p: ProducerPc<T>, write: nat, queued: int, cap: nat, data: seq<T>) {
    match p
    case PIdle => true
    case PStart(_, _, wi) => wi == write
    case PLocking(_, wi) => wi == write
    case PTest(_, wi) => wi == write
    case PFailed(_, wi) => wi == write
    case PPassed(_, wi) => wi == write && queued < cap
    case PAsleep(_, wi) => wi == write
    case PWrite(_, wi) => wi == write && queued < cap
    case PIncrement(v, wi) => wi == write && queued < cap && 0 < cap == |data| && data[wi % cap] == v
    case PNotifyLock => true
    case PNotify => true
    case PUnlock => true
  }

  ghost predicate ConsumerInv<T>(c: ConsumerPc<T>, read: nat, pushed: seq<T>, popped: seq<T>, stop: bool) {
    match c
    case CIdle => true
    case CStart(_, ri) => ri == read
    case CLocking(mode, ri) => ri == read && mode != Try
    case CStopTest(mode, ri) => ri == read && mode != Try
    case CTest(mode, ri) => ri == read && mode != Try
    case CFailed(mode, ri) => ri == read && mode != Try
    case CWaited(mode, ri) => ri == read && mode != Try && (|popped| < |pushed| || (mode == WaitWithStopToken && stop))
    case CAsleep(mode, ri) => ri == read && mode != Try
    case CRead(ri) => ri == read && |popped| < |pushed|
    case CIncrement(v, ri) => ri == read && |popped| < |pushed| && pushed[|popped|] == v
    case CNotifyLock => true
    case CNotify => true
    case CUnlock => true
  }

  predicate MutexInv<T>(s: QueueState<T>) {
    && (s.producerMutex == ByProducer <==> s.p.PTest? || s.p.PFailed? || s.p.PPassed?)
    && (s.producerMutex == ByConsumer <==> s.c.CNotify? || s.c.CUnlock?)
    && (s.consumerMutex == ByProducer <==> s.p.PNotify? || s.p.PUnlock?)
    && (s.consumerMutex == ByConsumer <==> s.c.CStopTest? || s.c.CTest? || s.c.CFailed? || s.c.CWaited?)
  }

  /** Whoever has seen the predicate fail will be notified if it no longer fails. */
  predicate WakeInv<T>(s: QueueState<T>) {
    && ((s.c.CFailed? || s.c.CAsleep?) && Queued(s) > 0 ==> s.p.PNotifyLock? || s.p.PNotify?)
    && ((s.p.PFailed? || s.p.PAsleep?) && Queued(s) < s.cap ==> s.c.CNotifyLock? || s.c.CNotify?)
    && (s.stopPending ==> s.stop)
    && (s.c.CAsleep? && Stopped(s, s.c.mode) ==> s.stopPending)
  }

  ghost predicate Inv<T>(s: QueueState<T>) {
    && QueueInv(s.cap, s.data, s.write, s.read, s.pushed, s.popped)
    && ProducerInv(s.p, s.write, Queued(s), s.cap, s.data) && ConsumerInv(s.c, s.read, s.pushed, s.popped, s.stop) && MutexInv(s) && WakeInv(s)
  }

  // Arithmetic of wrapping indices

  lemma {:induction false} Pow2Split(j: nat, k: nat)
    ensures Pow2(j + k) == Pow2(j) * Pow2(k)
  {
    if j > 0 {
      Pow2Split(j - 1, k);
      MulAssoc(2, Pow2(j - 1), Pow2(k));
    }
  }

  /** Every power of two that is an index divides the range of the indices. */
  lemma PowerOfTwoOk(k: nat)
    requires k <= 63
    ensures CapacityOk(Pow2(k))
  {
    WordIsPow2();
    Pow2Split(k, 64 - k);
    assert Pow2(64 - k) == 2 * Pow2(63 - k);
    MulAtLeast(Pow2(k), Pow2(64 - k));
  }

  lemma MulAtLeast(a: nat, b: nat)
    requires 0 < a && 2 <= b
    ensures a < a * b
  {
    assert a * b == a + a * (b - 1);
  }

  /** The slot of a wrapped index is the slot of the index itself. */
  lemma SlotOfWrapped(i: nat, cap: nat)
    requires CapacityOk(cap)
    ensures i % U64 % cap == i % cap
  {
    var m: nat :| cap * m == U64;
    var q, r := i / U64, i % U64;
    var p, t := r / cap, r % cap;
    assert r == cap * p + t;
    MulAssoc(cap, m, q);
    MulDistributes(cap, m * q, p);
    DivUnique(i, cap, m * q + p, t);
  }

  /** Numbers with the same remainder are not less than the divisor apart. */
  lemma SameSlot(i: nat, j: nat, cap: nat, q: nat, p: nat, r: nat)
    requires i == cap * q + r && j == cap * p + r && i < j
    ensures i + cap <= j
  {
    if q < p {
      MulGap(cap, q, p);
    } else if p < q {
      MulGap(cap, p, q);
    }
  }

  /** Indices less than the capacity apart have different slots. */
  lemma SlotsDiffer(i: nat, j: nat, cap: nat)
    requires i < j < i + cap
    ensures i % cap != j % cap
  {
    if i % cap == j % cap {
      QuotientRemainder(i, cap);
      QuotientRemainder(j, cap);
      SameSlot(i, j, cap, i / cap, j / cap, i % cap);
      assert false;
    }
  }

  lemma WrappedDistance(a: nat, b: nat)
    requires b <= a < b + U64
    ensures Sub(a % U64, b % U64) == a - b
  {
  }

  // The steps that touch the queue

  /** Writing the next slot overwrites no value that is still to be read. */
  lemma WriteSlot<T>(cap: nat, data: seq<T>, write: nat, read: nat, pushed: seq<T>, popped: seq<T>, v: T)
    requires QueueInv(cap, data, write, read, pushed, popped) && |pushed| - |popped| < cap
    ensures QueueInv(cap, data[write % cap := v], write, read, pushed, popped)
    ensures write % cap == |pushed| % cap
  {
    SlotOfWrapped(|pushed|, cap);
    forall i | |popped| <= i < |pushed|
      ensures i % cap != |pushed| % cap
    {
      SlotsDiffer(i, |pushed|, cap);
    }
  }

  lemma PushSlot<T>(cap: nat, data: seq<T>, write: nat, read: nat, pushed: seq<T>, popped: seq<T>, v: T)
    requires QueueInv(cap, data, write, read, pushed, popped) && |pushed| - |popped| < cap && data[write % cap] == v
    ensures QueueInv(cap, data, Incremented(write), read, pushed + [v], popped)
  {
    SlotOfWrapped(|pushed|, cap);
    WrappedNext(|pushed|);
  }

  lemma WrappedNext(n: nat)
    ensures Incremented(n % U64) == (n + 1) % U64
  {
  }

  /** The slot at the read index holds the oldest value that is still queued. */
  lemma ReadSlot<T>(cap: nat, data: seq<T>, write: nat, read: nat, pushed: seq<T>, popped: seq<T>)
    requires QueueInv(cap, data, write, read, pushed, popped) && |popped| < |pushed|
    ensures data[read % cap] == pushed[|popped|]
  {
    SlotOfWrapped(|popped|, cap);
    var i := |popped|;
    assert data[i % cap] == pushed[i];
  }

  lemma PopSlot<T>(cap: nat, data: seq<T>, write: nat, read: nat, pushed: seq<T>, popped: seq<T>)
    requires QueueInv(cap, data, write, read, pushed, popped) && |popped| < |pushed|
    ensures QueueInv(cap, data, write, Incremented(read), pushed, popped + [pushed[|popped|]])
  {
    WrappedNext(|popped|);
  }

  /** The tests on the wrapped indices are tests on the number of queued values. */
  lemma IndexTests<T>(cap: nat, data: seq<T>, write: nat, read: nat, pushed: seq<T>, popped: seq<T>)
    requires QueueInv(cap, data, write, read, pushed, popped)
    ensures Sub(write, read) == |pushed| - |popped|
    ensures read == write <==> |pushed| == |popped|
    ensures |popped| <= |pushed| <= |popped| + cap
  {
    WrappedDistance(|pushed|, |popped|);
    WrappedEqual(|pushed|, |popped|);
  }

  lemma WrappedEqual(a: nat, b: nat)
    requires b <= a < b + U64
    ensures a % U64 == b % U64 <==> a == b
  {
  }

  /** The producer is calling or waiting, and has not begun to place its value. */
  predicate Offering<T>(p: ProducerPc<T>) {
    p.PIdle? || p.PStart? || p.PLocking? || p.PTest? || p.PFailed? || p.PPassed? || p.PAsleep?
  }

  lemma OfferingStepInv<T(!new)>(s: QueueState<T>, s': QueueState<T>)
    requires Inv(s) && ProducerStep(s, s') && Offering(s.p)
    ensures Inv(s')
  {
    hide QueueInv, ConsumerInv, CapacityOk, Sub, Incremented;
    IndexTests(s.cap, s.data, s.write, s.read, s.pushed, s.popped);
  }

  lemma PlacingStepInv<T(!new)>(s: QueueState<T>, s': QueueState<T>)
    requires Inv(s) && ProducerStep(s, s') && !Offering(s.p)
    ensures Inv(s')
  {
    hide QueueInv, CapacityOk, Sub, Incremented;
    IndexTests(s.cap, s.data, s.write, s.read, s.pushed, s.popped);
    match s.p {
      case PWrite(v, wi) => WriteSlot(s.cap, s.data, s.write, s.read, s.pushed, s.popped, v);
      case PIncrement(v, wi) => PushSlot(s.cap, s.data, s.write, s.read, s.pushed, s.popped, v);
      case _ =>
    }
  }

  lemma ProducerStepInv<T(!new)>(s: QueueState<T>, s': QueueState<T>)
    requires Inv(s) && ProducerStep(s, s')
    ensures Inv(s')
  {
    hide Inv, ProducerStep;
    if Offering(s.p) {
      OfferingStepInv(s, s');
    } else {
      PlacingStepInv(s, s');
    }
  }

  /** The consumer is calling or waiting, and has not begun to take a value. */
  predicate Arriving<T>(c: ConsumerPc<T>) {
    c.CIdle? || c.CStart? || c.CLocking? || c.CStopTest? || c.CTest? || c.CFailed? || c.CWaited? || c.CAsleep?
  }

  lemma ArrivingStepInv<T(!new)>(s: QueueState<T>, s': QueueState<T>)
    requires Inv(s) && ConsumerStep(s, s') && Arriving(s.c)
    ensures Inv(s')
  {
    hide QueueInv, ProducerInv, CapacityOk, Sub, Incremented;
    IndexTests(s.cap, s.data, s.write, s.read, s.pushed, s.popped);
  }

  lemma TakingStepInv<T(!new)>(s: QueueState<T>, s': QueueState<T>)
    requires Inv(s) && ConsumerStep(s, s') && !Arriving(s.c)
    ensures Inv(s')
  {
    hide QueueInv, CapacityOk, Sub, Incremented;
    IndexTests(s.cap, s.data, s.write, s.read, s.pushed, s.popped);
    match s.c {
      case CRead(_) => ReadSlot(s.cap, s.data, s.write, s.read, s.pushed, s.popped);
      case CIncrement(_, _) => PopSlot(s.cap, s.data, s.write, s.read, s.pushed, s.popped);
      case _ =>
    }
  }

  lemma ConsumerStepInv<T(!new)>(s: QueueState<T>, s': QueueState<T>)
    requires Inv(s) && ConsumerStep(s, s')
    ensures Inv(s')
  {
    hide Inv, ConsumerStep;
    if Arriving(s.c) {
      ArrivingStepInv(s, s');
    } else {
      TakingStepInv(s, s');
    }
  }

  lemma StopStepInv<T>(s: QueueState<T>, s': QueueState<T>)
    requires Inv(s) && StopStep(s, s')
    ensures Inv(s')
  {
    hide QueueInv;
  }

  // The compile-time test of the capacity

  lemma {:induction false} AndSelf(a: nat)
    ensures And(a, a) == a
  {
    if a > 0 {
      AndSelf(a / 2);
    }
  }

  /** A positive number passes the test exactly when it is a power of two. */
  lemma {:induction false} PowerOfTwoTest(c: nat) returns (k: nat)
    requires 0 < c
    ensures And(c, c - 1) == 0 <==> c == Pow2(k)
    ensures And(c, c - 1) != 0 ==> forall j: nat :: c != Pow2(j)
  {
    var d := c / 2;
    if c == 1 {
      k := 0;
    } else if c % 2 == 1 {
      AndSelf(d);
      k := 0;
      forall j: nat
        ensures c != Pow2(j)
      {
      }
    } else {
      var i := PowerOfTwoTest(d);
      assert And(c, c - 1) == 2 * And(d, d - 1);
      k := i + 1;
      forall j: nat
        ensures And(c, c - 1) != 0 ==> c != Pow2(j)
      {
        assert j > 0 ==> Pow2(j) == 2 * Pow2(j - 1);
      }
    }
  }

  /** The test as the compiler evaluates it, on unsigned 64-bit numbers. */
  predicate CapacityTest(c: nat) {
    And(c, (c + U64 - 1) % U64) == 0
  }

  /** It accepts the powers of two, and zero. */
  lemma CapacityTestExact(c: nat)
    requires c < U64
    ensures CapacityTest(c) <==> c == 0 || exists k: nat :: c == Pow2(k)
  {
    if c != 0 {
      assert (c + U64 - 1) % U64 == c - 1;
      var k := PowerOfTwoTest(c);
    }
  }

  lemma Pow2TooLarge(k: nat)
    requires Pow2(k) < U64
    ensures k <= 63
  {
    WordIsPow2();
    if k >= 64 {
      Pow2Monotone(64, k);
    }
  }

  lemma InitInv<T>(s: QueueState<T>)
    requires Init(s)
    ensures Inv(s)
  {
    var k := PowerOfTwoTest(s.cap);
    Pow2TooLarge(k);
    PowerOfTwoOk(k);
  }

  // Runs

  ghost predicate Run<T(!new)>(run: seq<QueueState<T>>) {
    run != [] && Init(run[0]) && forall i, j {:trigger run[i], run[j]} :: 0 <= i && i + 1 == j < |run| ==> Next(run[i], run[j])
  }

  ghost predicate Reachable<T(!new)>(s: QueueState<T>) {
    exists run :: Run(run) && run[|run| - 1] == s
  }

  lemma {:induction false} RunInv<T(!new)>(run: seq<QueueState<T>>, i: nat)
    requires Run(run) && i < |run|
    ensures Inv(run[i])
  {
    hide Inv, ProducerStep, ConsumerStep, StopStep, Init;
    if i == 0 {
      InitInv(run[0]);
    } else {
      RunInv(run, i - 1);
      var s, s' := run[i - 1], run[i];
      assert Next(s, s');
      if ProducerStep(s, s') {
        ProducerStepInv(s, s');
      } else if ConsumerStep(s, s') {
        ConsumerStepInv(s, s');
      } else {
        StopStepInv(s, s');
      }
    }
  }

  lemma ReachableInv<T(!new)>(s: QueueState<T>)
    requires Reachable(s)
    ensures Inv(s)
  {
    hide Inv, Next;
    var run :| Run(run) && run[|run| - 1] == s;
    RunInv(run, |run| - 1);
  }

  // Main results, for every interleaving

  /** The values come out in the order in which they went in, and never more than the capacity are queued. */
  lemma FirstInFirstOut<T(!new)>(s: QueueState<T>)
    requires Reachable(s)
    ensures s.popped <= s.pushed && |s.pushed| - |s.popped| <= s.cap
  {
    ReachableInv(s);
  }

  /** The slot about to be written is not the slot of any value that is still to be read. */
  lemma NoOverwrite<T(!new)>(s: QueueState<T>, i: nat)
    requires Reachable(s) && s.p.PWrite? && |s.popped| <= i < |s.pushed|
    ensures s.cap != 0 && s.p.wi % s.cap != i % s.cap
  {
    ReachableInv(s);
    SlotOfWrapped(|s.pushed|, s.cap);
    SlotsDiffer(i, |s.pushed|, s.cap);
  }

  /** The value handed to the caller of a pop is the oldest one that was not yet popped. */
  lemma PopsOldest<T(!new)>(s: QueueState<T>)
    requires Reachable(s) && s.c.CIncrement?
    ensures |s.popped| < |s.pushed| && s.c.v == s.pushed[|s.popped|]
  {
    ReachableInv(s);
  }

  /** A try-push is refused exactly when the queue is full, a try-pop exactly when it is empty. */
  lemma TryRefusals<T(!new)>(s: QueueState<T>, s': QueueState<T>)
    requires Reachable(s)
    ensures s.p.PStart? && !s.p.wait && ProducerStep(s, s') ==> (s'.p.PIdle? <==> |s.pushed| == |s.popped| + s.cap)
    ensures s.c.CStart? && s.c.mode == Try && ConsumerStep(s, s') ==> (s'.c.CIdle? <==> s.pushed == s.popped)
  {
    ReachableInv(s);
    IndexTests(s.cap, s.data, s.write, s.read, s.pushed, s.popped);
  }

  /** No lost wakeup: a sleeper whose condition holds has a notification under way. */
  lemma NoLostWakeup<T(!new)>(s: QueueState<T>)
    requires Reachable(s)
    ensures s.c.CAsleep? && s.popped != s.pushed ==> s.p.PNotifyLock? || s.p.PNotify?
    ensures s.p.PAsleep? && |s.pushed| < |s.popped| + s.cap ==> s.c.CNotifyLock? || s.c.CNotify?
    ensures s.c.CAsleep? && s.c.mode == WaitWithStopToken && s.stop ==> s.stopPending
  {
    ReachableInv(s);
  }

  /** The two threads never sleep at the same time. */
  lemma NeverBothAsleep<T(!new)>(s: QueueState<T>)
    requires Reachable(s)
    ensures !(s.p.PAsleep? && s.c.CAsleep?)
  {
    ReachableInv(s);
  }

  /** Whether a thread waits for a mutex that the other one holds. */
  predicate ProducerBlocked<T>(s: QueueState<T>) {
    (s.p.PLocking? && s.producerMutex != Free) || (s.p.PNotifyLock? && s.consumerMutex != Free)
  }

  predicate ConsumerBlocked<T>(s: QueueState<T>) {
    (s.c.CLocking? && s.consumerMutex != Free) || (s.c.CNotifyLock? && s.producerMutex != Free)
  }

  /** The mutexes cause no deadlock: a blocked thread waits for one that is neither blocked nor asleep. */
  lemma NoMutexDeadlock<T(!new)>(s: QueueState<T>)
    requires Reachable(s)
    ensures ProducerBlocked(s) ==> !ConsumerBlocked(s) && !s.c.CAsleep? && !s.c.CIdle?
    ensures ConsumerBlocked(s) ==> !ProducerBlocked(s) && !s.p.PAsleep? && !s.p.PIdle?
  {
    hide QueueInv, ProducerInv, ConsumerInv, Reachable;
    ReachableInv(s);
  }

  /** A pop that is cut short by the stop token leaves the read index where it was when the pop began, and the queue as it is. */
  lemma StoppedPopConsumesNothing<T(!new)>(s: QueueState<T>, s': QueueState<T>)
    requires Reachable(s) && s.c.CWaited? && ConsumerStep(s, s')
    ensures s'.c.CIdle? <==> s.c.mode == WaitWithStopToken && s.stop
    ensures s'.c.CIdle? ==> s'.read == s.c.ri && s'.data == s.data && s'.popped == s.popped && s'.pushed == s.pushed
    ensures !s'.c.CIdle? ==> s'.c == CRead(s.c.ri) && s.popped != s.pushed
  {
    ReachableInv(s);
  }

  // Calls

  /** How far a call has come: not in a call, in a call that has not taken effect, in one that has. */
  datatype Progress<T> = Outside | Before(v: Option<T>) | After

  function ProducerProgress<T>(p: ProducerPc<T>): Progress<T> {
    match p
    case PIdle => Outside
    case PStart(_, v, _) => Before(Some(v))
    case PLocking(v, _) => Before(Some(v))
    case PTest(v, _) => Before(Some(v))
    case PFailed(v, _) => Before(Some(v))
    case PPassed(v, _) => Before(Some(v))
    case PAsleep(v, _) => Before(Some(v))
    case PWrite(v, _) => Before(Some(v))
    case PIncrement(v, _) => Before(Some(v))
    case PNotifyLock => After
    case PNotify => After
    case PUnlock => After
  }

  function ConsumerProgress<T>(c: ConsumerPc<T>): Progress<T> {
    if c.CIdle? then Outside
    else if c.CNotifyLock? || c.CNotify? || c.CUnlock? then After
    else Before(None)
  }

  /** What a step does to a call of Emplace. */
  ghost predicate EmplaceEffect<T>(s: QueueState<T>, s': QueueState<T>) {
    var before, after := ProducerProgress(s.p), ProducerProgress(s'.p);
    match before
    case Outside => s'.pushed == s.pushed && !after.After?
    case Before(v) =>
      if after.Outside? then s'.pushed == s.pushed && s.p.PStart? && !s.p.wait && |s.pushed| == |s.popped| + s.cap
      else if after.After? then v.Some? && s'.pushed == s.pushed + [v.value]
      else s'.pushed == s.pushed && after == before
    case After => s'.pushed == s.pushed && !after.Before?
  }

  /** What a step does to a call of Pop. */
  ghost predicate PopEffect<T>(s: QueueState<T>, s': QueueState<T>) {
    var before, after := ConsumerProgress(s.c), ConsumerProgress(s'.c);
    match before
    case Outside => s'.popped == s.popped && !after.After?
    case Before(_) =>
      if after.Outside? then s'.popped == s.popped && (Refused(s) || GivenUp(s))
      else if after.After? then |s.popped| < |s.pushed| && s'.popped == s.popped + [s.pushed[|s.popped|]]
      else s'.popped == s.popped
    case After => s'.popped == s.popped && !after.Before?
  }

  predicate Refused<T>(s: QueueState<T>) {
    s.c.CStart? && s.c.mode == Try && |s.pushed| == |s.popped|
  }

  predicate GivenUp<T>(s: QueueState<T>) {
    s.c.CWaited? && s.c.mode == WaitWithStopToken && s.stop
  }

  lemma OwnStepEmplace<T(!new)>(s: QueueState<T>, s': QueueState<T>)
    requires Inv(s) && ProducerStep(s, s')
    ensures EmplaceEffect(s, s')
  {
    hide QueueInv, ConsumerInv, MutexInv, WakeInv, Sub, Incremented, WakeConsumer;
    IndexTests(s.cap, s.data, s.write, s.read, s.pushed, s.popped);
  }

  lemma ArrivingStepPop<T(!new)>(s: QueueState<T>, s': QueueState<T>)
    requires Inv(s) && ConsumerStep(s, s') && Arriving(s.c)
    ensures PopEffect(s, s')
  {
    hide QueueInv, ProducerInv, MutexInv, WakeInv, Sub, Incremented, WakeProducer;
    IndexTests(s.cap, s.data, s.write, s.read, s.pushed, s.popped);
  }

  lemma TakingStepPop<T(!new)>(s: QueueState<T>, s': QueueState<T>)
    requires Inv(s) && ConsumerStep(s, s') && !Arriving(s.c)
    ensures PopEffect(s, s')
  {
    hide QueueInv, ProducerInv, MutexInv, WakeInv, Sub, Incremented, WakeProducer;
  }

  lemma OtherStepEmplace<T(!new)>(s: QueueState<T>, s': QueueState<T>)
    requires ConsumerStep(s, s') || StopStep(s, s')
    ensures EmplaceEffect(s, s')
  {
    hide Incremented, WakeConsumer;
  }

  lemma OtherStepPop<T(!new)>(s: QueueState<T>, s': QueueState<T>)
    requires ProducerStep(s, s') || StopStep(s, s')
    ensures PopEffect(s, s')
  {
    hide Sub, Incremented, WakeProducer;
  }

  /** Every call of Emplace appends its value exactly once before it returns, unless it is a refused try. */
  lemma EmplaceOnce<T(!new)>(s: QueueState<T>, s': QueueState<T>)
    requires Reachable(s) && Next(s, s')
    ensures EmplaceEffect(s, s')
  {
    hide Inv, Reachable, ProducerStep, ConsumerStep, StopStep, EmplaceEffect;
    ReachableInv(s);
    if ProducerStep(s, s') {
      OwnStepEmplace(s, s');
    } else {
      OtherStepEmplace(s, s');
    }
  }

  /** Every call of Pop takes the oldest value exactly once before it returns, unless it is a refused try or a stopped wait. */
  lemma PopOnce<T(!new)>(s: QueueState<T>, s': QueueState<T>)
    requires Reachable(s) && Next(s, s')
    ensures PopEffect(s, s')
  {
    hide Inv, Reachable, ProducerStep, ConsumerStep, StopStep, PopEffect, Arriving;
    ReachableInv(s);
    if ConsumerStep(s, s') {
      if Arriving(s.c) {
        ArrivingStepPop(s, s');
      } else {
        TakingStepPop(s, s');
      }
    } else {
      OtherStepPop(s, s');
    }
  }

  // Progress

  /** An upper bound on the steps to the end of a call of Emplace that finds room. */
  function EmplaceRank<T>(p: ProducerPc<T>): nat {
    match p
    case PIdle => 0
    case PStart(_, _, _) => 11
    case PFailed(_, _) => 10
    case PAsleep(_, _) => 9
    case PLocking(_, _) => 8
    case PTest(_, _) => 7
    case PPassed(_, _) => 6
    case PWrite(_, _) => 5
    case PIncrement(_, _) => 4
    case PNotifyLock => 3
    case PNotify => 2
    case PUnlock => 1
  }

  /** The same for a call of Pop that finds a value. */
  function PopRank<T>(c: ConsumerPc<T>): nat {
    match c
    case CIdle => 0
    case CStart(_, _) => 12
    case CFailed(_, _) => 11
    case CAsleep(_, _) => 10
    case CLocking(_, _) => 9
    case CStopTest(_, _) => 8
    case CTest(_, _) => 7
    case CWaited(_, _) => 6
    case CRead(_) => 5
    case CIncrement(_, _) => 4
    case CNotifyLock => 3
    case CNotify => 2
    case CUnlock => 1
  }

  lemma RankWithRoom<T(!new)>(s: QueueState<T>, s': QueueState<T>)
    requires ProducerStep(s, s') && !s.p.PIdle? && ProducerInv(s.p, s.write, Queued(s), s.cap, s.data)
    requires Sub(s.write, s.read) < s.cap
    ensures EmplaceRank(s'.p) < EmplaceRank(s.p)
  {
    hide Sub, Incremented, WakeConsumer;
  }

  lemma RankWithValue<T(!new)>(s: QueueState<T>, s': QueueState<T>)
    requires ConsumerStep(s, s') && !s.c.CIdle? && ConsumerInv(s.c, s.read, s.pushed, s.popped, s.stop)
    requires s.read != s.write
    ensures PopRank(s'.c) < PopRank(s.c)
  {
    hide Sub, Incremented, WakeProducer;
  }

  /** While there is room, every step of the producer brings its call nearer to the end. */
  lemma EmplaceAdvances<T(!new)>(s: QueueState<T>, s': QueueState<T>)
    requires Reachable(s) && ProducerStep(s, s') && !s.p.PIdle? && |s.pushed| < |s.popped| + s.cap
    ensures EmplaceRank(s'.p) < EmplaceRank(s.p)
  {
    hide Reachable, ProducerStep, ProducerInv, ConsumerInv, QueueInv, MutexInv, WakeInv, Sub, EmplaceRank;
    ReachableInv(s);
    IndexTests(s.cap, s.data, s.write, s.read, s.pushed, s.popped);
    RankWithRoom(s, s');
  }

  /** While values are queued, every step of the consumer brings its call nearer to the end. */
  lemma PopAdvances<T(!new)>(s: QueueState<T>, s': QueueState<T>)
    requires Reachable(s) && ConsumerStep(s, s') && !s.c.CIdle? && |s.popped| < |s.pushed|
    ensures PopRank(s'.c) < PopRank(s.c)
  {
    hide Reachable, ConsumerStep, ProducerInv, ConsumerInv, QueueInv, MutexInv, WakeInv, Sub, PopRank;
    ReachableInv(s);
    IndexTests(s.cap, s.data, s.write, s.read, s.pushed, s.popped);
    RankWithValue(s, s');
  }

  /** A producer inside a call has a step, unless it waits for a mutex. */
  lemma ProducerCanStep<T(!new)>(s: QueueState<T>) returns (s': QueueState<T>)
    requires Reachable(s) && !s.p.PIdle? && !ProducerBlocked(s)
    ensures ProducerStep(s, s')
  {
    ReachableInv(s);
    hide CapacityOk, ConsumerInv, ProducerInv, MutexInv, WakeInv, Sub, Incremented, WakeConsumer, Reachable;
    match s.p {
      case PStart(wait, v, wi) => s' := s.(p := if wait then PLocking(v, wi) else if Sub(wi, s.read) == s.cap then PIdle else PWrite(v, wi));
      case PLocking(v, wi) => s' := s.(p := PTest(v, wi), producerMutex := ByProducer);
      case PTest(v, wi) => s' := s.(p := if Sub(wi, s.read) < s.cap then PPassed(v, wi) else PFailed(v, wi));
      case PFailed(v, wi) => s' := s.(p := PAsleep(v, wi), producerMutex := Free);
      case PPassed(v, wi) => s' := s.(p := PWrite(v, wi), producerMutex := Free);
      case PAsleep(v, wi) => s' := s.(p := PLocking(v, wi));
      case PWrite(v, wi) => s' := s.(p := PIncrement(v, wi), data := s.data[wi % s.cap := v]);
      case PIncrement(v, wi) => s' := s.(p := PNotifyLock, write := Incremented(s.write), pushed := s.pushed + [v]);
      case PNotifyLock => s' := s.(p := PNotify, consumerMutex := ByProducer);
      case PNotify => s' := s.(p := PUnlock, c := WakeConsumer(s.c));
      case PUnlock => s' := s.(p := PIdle, consumerMutex := Free);
    }
  }

  /** A consumer inside a call has a step, unless it waits for a mutex. */
  lemma ConsumerCanStep<T(!new)>(s: QueueState<T>) returns (s': QueueState<T>)
    requires Reachable(s) && !s.c.CIdle? && !ConsumerBlocked(s)
    ensures ConsumerStep(s, s')
  {
    ReachableInv(s);
    hide CapacityOk, ConsumerInv, ProducerInv, MutexInv, WakeInv, Sub, Incremented, WakeProducer, Reachable;
    match s.c {
      case CStart(mode, ri) => s' := s.(c := if mode != Try then CLocking(mode, ri) else if ri == s.write then CIdle else CRead(ri));
      case CLocking(mode, ri) => s' := s.(c := CStopTest(mode, ri), consumerMutex := ByConsumer);
      case CStopTest(mode, ri) => s' := s.(c := if Stopped(s, mode) then CWaited(mode, ri) else CTest(mode, ri));
      case CTest(mode, ri) => s' := s.(c := if ri != s.write then CWaited(mode, ri) else CFailed(mode, ri));
      case CFailed(mode, ri) =>
        s' := if Stopped(s, mode) then s.(c := CStopTest(mode, ri)) else s.(c := CAsleep(mode, ri), consumerMutex := Free);
      case CWaited(mode, ri) => s' := s.(c := if Stopped(s, mode) then CIdle else CRead(ri), consumerMutex := Free);
      case CAsleep(mode, ri) => s' := s.(c := CLocking(mode, ri));
      case CRead(ri) => s' := s.(c := CIncrement(s.data[ri % s.cap], ri));
      case CIncrement(v, ri) => s' := s.(c := CNotifyLock, read := Incremented(s.read), popped := s.popped + [v]);
      case CNotifyLock => s' := s.(c := CNotify, producerMutex := ByConsumer);
      case CNotify => s' := s.(c := CUnlock, p := WakeProducer(s.p));
      case CUnlock => s' := s.(c := CIdle, producerMutex := Free);
    }
  }
}
