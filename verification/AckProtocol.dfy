/**
 The acknowledged-insert protocol: threads draw ids from an atomic counter, mark each finished id
 in a ring of WINDOW slots, and whichever thread wins the try-lock sweeps the contiguous prefix of
 marked ids into `limit`. Any number of threads run, interleaved at the granularity of single
 shared-memory accesses.

 Three fields of the model record history and are read by no step: `acked` (every id whose slot
 has been written), `swept` (the last id whose slot has been cleared, which runs ahead of `limit`
 during a sweep) and the `seen` component of a sweeping thread (`acked` when its sweep began).
 */
module AckProtocol {

  const WINDOW: int := 0x10_0000

  /** The slot of an id: `id & (WINDOW - 1)` on two's complement is the non-negative remainder. */
  function Slot(id: int): (slot: int)
    ensures 0 <= slot < WINDOW
  {
    id % WINDOW
  }

  /** Where a thread stands inside Next followed by Acknowledge. */
  datatype Pc =
    | Idle
    | Holding(id: int)                                     // Next returned id
    | Vetted(id: int)                                      // its slot was read as free
    | Marked                                               // its slot was written
    | Locked                                               // the try-lock succeeded
    | Sweeping(from: int, index: int, seen: set<int>)      // at the loop head
    | Clearing(from: int, index: int, seen: set<int>)      // the slot was read as marked
    | Publishing(from: int, index: int, seen: set<int>)    // the loop has ended
    | Unlocking
    | Panicked
  {
    predicate Owns(candidate: int) {
      (Holding? || Vetted?) && id == candidate
    }

    predicate InCriticalSection() {
      Locked? || Sweeping? || Clearing? || Publishing? || Unlocking?
    }
  }

  datatype State = State(
    start: int,
    counter: int,
    window: seq<bool>,
    limit: int,
    locked: bool,
    pcs: seq<Pc>,
    acked: set<int>,
    swept: int)

  function Init(start: int, threads: nat): State {
    State(start, start, seq(WINDOW, _ => false), start - 1, false, seq(threads, _ => Idle), {}, start - 1)
  }

  /** A thread can move unless it has panicked or its next id would leave the window. */
  predicate Enabled(s: State, t: int) {
    && 0 <= t < |s.pcs|
    && |s.window| == WINDOW
    && !s.pcs[t].Panicked?
    && (s.pcs[t].Idle? ==> s.counter <= s.limit + WINDOW)
  }

  /** One atomic step of thread t. */
  function Step(s: State, t: int): State
    requires Enabled(s, t)
  {
    match s.pcs[t]
    case Idle => s.(counter := s.counter + 1, pcs := s.pcs[t := Holding(s.counter)])
    case Holding(id) => s.(pcs := s.pcs[t := if s.window[Slot(id)] then Panicked else Vetted(id)])
    case Vetted(id) =>
      s.(window := s.window[Slot(id) := true], acked := s.acked + {id}, pcs := s.pcs[t := Marked])
    case Marked =>
      if s.locked then s.(pcs := s.pcs[t := Idle]) else s.(locked := true, pcs := s.pcs[t := Locked])
    case Locked => s.(pcs := s.pcs[t := Sweeping(s.limit, s.limit + 1, s.acked)])
    case Sweeping(from, index, seen) =>
      if index == Slot(from) || !s.window[Slot(index)] then
        s.(pcs := s.pcs[t := Publishing(from, index, seen)])
      else
        s.(pcs := s.pcs[t := Clearing(from, index, seen)])
    case Clearing(from, index, seen) =>
      s.(window := s.window[Slot(index) := false], swept := index,
         pcs := s.pcs[t := Sweeping(from, index + 1, seen)])
    case Publishing(_, index, _) => s.(limit := index - 1, pcs := s.pcs[t := Unlocking])
    case Unlocking => s.(locked := false, pcs := s.pcs[t := Idle])
  }

  /** A schedule names the thread that moves at each step. */
  predicate Admissible(s: State, schedule: seq<int>)
    decreases |schedule|
  {
    schedule == [] || (Enabled(s, schedule[0]) && Admissible(Step(s, schedule[0]), schedule[1..]))
  }

  function Run(s: State, schedule: seq<int>): State
    requires Admissible(s, schedule)
    decreases |schedule|
  {
    if schedule == [] then s else Run(Step(s, schedule[0]), schedule[1..])
  }

  // ----- the invariant

  /** Every slot is true exactly when the one unswept id it stands for has been marked. */
  ghost predicate RingExact(s: State)
    requires |s.window| == WINDOW
  {
    forall id :: s.swept < id <= s.swept + WINDOW ==> (s.window[Slot(id)] <==> id in s.acked)
  }

  ghost predicate PrefixAcked(s: State) {
    forall id :: s.start <= id <= s.swept ==> id in s.acked
  }

  ghost predicate AckedIssued(s: State) {
    forall id :: id in s.acked ==> s.start <= id < s.counter
  }

  /** A sweep in progress: what it saw at its start is acknowledged and holds every id up to the limit. */
  ghost predicate SweepOk(s: State, from: int, index: int, seen: set<int>) {
    && from == s.limit && s.swept == index - 1 && seen <= s.acked
    && forall id :: s.start <= id <= from ==> id in seen
  }

  /** The index has not passed the slot that ends the loop, where that slot lies ahead at all. */
  ghost predicate GuardAhead(from: int, index: int) {
    -WINDOW <= from < 0 ==> index <= from + WINDOW
  }

  ghost predicate ThreadOk(s: State, pc: Pc) {
    match pc
    case Idle => true
    case Marked => true
    case Holding(id) => s.start <= id < s.counter && id !in s.acked
    case Vetted(id) => s.start <= id < s.counter && id !in s.acked
    case Locked => s.swept == s.limit
    case Sweeping(from, index, seen) => SweepOk(s, from, index, seen) && GuardAhead(from, index)
    case Clearing(from, index, seen) =>
      SweepOk(s, from, index, seen) && index in s.acked && GuardAhead(from, index + 1)
    case Publishing(from, index, seen) =>
      SweepOk(s, from, index, seen) && GuardAhead(from, index) && (index in seen ==> index == Slot(from))
    case Unlocking => s.swept == s.limit
    case Panicked => false
  }

  /** No two threads own the same id, and at most one is inside the critical section. */
  ghost predicate Exclusive(s: State) {
    forall t, u :: 0 <= t < |s.pcs| && 0 <= u < |s.pcs| && t != u ==> Compatible(s.pcs[t], s.pcs[u])
  }

  ghost predicate Compatible(p: Pc, q: Pc) {
    && !(p.InCriticalSection() && q.InCriticalSection())
    && ((p.Holding? || p.Vetted?) ==> !q.Owns(p.id))
  }

  ghost predicate LockExact(s: State) {
    && (s.locked <==> exists t :: 0 <= t < |s.pcs| && s.pcs[t].InCriticalSection())
    && (!s.locked ==> s.swept == s.limit)
  }

  /** An issued id is either acknowledged or still owned by some thread. */
  ghost predicate NoneLost(s: State) {
    forall id :: s.start <= id < s.counter && id !in s.acked ==>
                   exists t :: 0 <= t < |s.pcs| && s.pcs[t].Owns(id)
  }

  ghost predicate Bounds(s: State) {
    && |s.window| == WINDOW
    && s.start - 1 <= s.limit <= s.swept < s.counter <= s.limit + WINDOW + 1
  }

  ghost predicate Inv(s: State) {
    && Bounds(s)
    && RingExact(s)
    && PrefixAcked(s)
    && AckedIssued(s)
    && (forall t :: 0 <= t < |s.pcs| ==> ThreadOk(s, s.pcs[t]))
    && Exclusive(s)
    && LockExact(s)
    && NoneLost(s)
  }

  // ----- every step keeps the invariant

  lemma SlotInjective(a: int, b: int)
    requires Slot(a) == Slot(b) && -WINDOW < a - b < WINDOW
    ensures a == b
  {}

  lemma InitInv(start: int, threads: nat)
    ensures Inv(Init(start, threads))
  {}

  /** Moving one thread to a new position keeps the facts about pairs of threads. */
  lemma MoveThread(s: State, t: int, pc: Pc)
    requires 0 <= t < |s.pcs| && Exclusive(s)
    requires pc.InCriticalSection() ==> s.pcs[t].InCriticalSection()
    requires (pc.Holding? || pc.Vetted?) ==> s.pcs[t].Owns(pc.id)
    ensures Exclusive(s.(pcs := s.pcs[t := pc]))
  {}

  lemma LockKept(s: State, s': State, t: int)
    requires 0 <= t < |s.pcs| == |s'.pcs| && LockExact(s)
    requires s'.pcs == s.pcs[t := s'.pcs[t]] && s'.locked == s.locked
    requires s'.pcs[t].InCriticalSection() <==> s.pcs[t].InCriticalSection()
    requires !s.locked ==> s'.swept == s'.limit
    ensures LockExact(s')
  {
    if s.locked {
      var u :| 0 <= u < |s.pcs| && s.pcs[u].InCriticalSection();
      assert s'.pcs[u].InCriticalSection();
    }
  }

  lemma OwnersKept(s: State, s': State, t: int)
    requires 0 <= t < |s.pcs| == |s'.pcs| && NoneLost(s)
    requires s'.start == s.start && s'.counter == s.counter && s.acked <= s'.acked
    requires s'.pcs == s.pcs[t := s'.pcs[t]]
    requires forall id :: s.pcs[t].Owns(id) ==> id in s'.acked || s'.pcs[t].Owns(id)
    ensures NoneLost(s')
  {
    forall id | s'.start <= id < s'.counter && id !in s'.acked
      ensures exists u :: 0 <= u < |s'.pcs| && s'.pcs[u].Owns(id)
    {
      var u :| 0 <= u < |s.pcs| && s.pcs[u].Owns(id);
      assert s'.pcs[u].Owns(id);
    }
  }

  lemma IssueKeepsInv(s: State, t: int)
    requires Inv(s) && Enabled(s, t) && s.pcs[t].Idle?
    ensures Inv(Step(s, t))
  {
    var s' := Step(s, t);
    LockKept(s, s', t);
    assert forall u :: 0 <= u < |s'.pcs| ==> ThreadOk(s', s'.pcs[u]) by {
      forall u | 0 <= u < |s'.pcs| ensures ThreadOk(s', s'.pcs[u]) {
        assert ThreadOk(s, s.pcs[u]);
      }
    }
    forall id | s'.start <= id < s'.counter && id !in s'.acked
      ensures exists u :: 0 <= u < |s'.pcs| && s'.pcs[u].Owns(id)
    {
      if id == s.counter {
        assert s'.pcs[t].Owns(id);
      } else {
        var u :| 0 <= u < |s.pcs| && s.pcs[u].Owns(id);
        assert s'.pcs[u].Owns(id);
      }
    }
    assert forall u :: 0 <= u < |s.pcs| ==> !s.pcs[u].Owns(s.counter) by {
      forall u | 0 <= u < |s.pcs| ensures !s.pcs[u].Owns(s.counter) {
        assert ThreadOk(s, s.pcs[u]);
      }
    }
  }

  /** The slot of an id still to be marked is free, so the panic branch is never taken. */
  lemma VettingSucceeds(s: State, t: int)
    requires Inv(s) && Enabled(s, t) && s.pcs[t].Holding?
    ensures !s.window[Slot(s.pcs[t].id)]
  {
    assert ThreadOk(s, s.pcs[t]);
  }

  lemma MarkKeepsRing(s: State, id: int)
    requires Bounds(s) && RingExact(s) && PrefixAcked(s)
    requires s.start <= id < s.counter && id !in s.acked
    ensures RingExact(s.(window := s.window[Slot(id) := true], acked := s.acked + {id}))
  {
    forall other | s.swept < other <= s.swept + WINDOW && Slot(other) == Slot(id) ensures other == id {
      SlotInjective(other, id);
    }
  }

  /**
   Past the window, where no thread of the model gets: the panic test sees the id one lap back, and
   for an id it lets pass, marking keeps the ring exact exactly inside the window. Past it, the slot
   then stands for the id one lap back, which is not acknowledged but would be swept as if it were.
   */
  lemma PastTheWindow(s: State, id: int)
    requires |s.window| == WINDOW && RingExact(s) && s.swept < id <= s.swept + 2 * WINDOW && id !in s.acked
    ensures id > s.swept + WINDOW ==> (s.window[Slot(id)] <==> id - WINDOW in s.acked)
    ensures var marked := s.(window := s.window[Slot(id) := true], acked := s.acked + {id});
            !s.window[Slot(id)] ==>
              && (RingExact(marked) <==> id <= s.swept + WINDOW)
              && (id > s.swept + WINDOW ==> marked.window[Slot(id - WINDOW)] && id - WINDOW !in marked.acked)
  {
    if id > s.swept + WINDOW {
      assert Slot(id) == Slot(id - WINDOW);
    } else {
      forall other | s.swept < other <= s.swept + WINDOW && Slot(other) == Slot(id) ensures other == id {
        SlotInjective(other, id);
      }
    }
  }

  lemma MarkKeepsInv(s: State, t: int)
    requires Inv(s) && Enabled(s, t) && s.pcs[t].Vetted?
    ensures Inv(Step(s, t))
  {
    var s', id := Step(s, t), s.pcs[t].id;
    assert ThreadOk(s, s.pcs[t]);
    MarkKeepsRing(s, id);
    MoveThread(s, t, Marked);
    LockKept(s, s', t);
    OwnersKept(s, s', t);
    forall u | 0 <= u < |s'.pcs| ensures ThreadOk(s', s'.pcs[u]) {
      assert ThreadOk(s, s.pcs[u]);
      assert u != t ==> Compatible(s.pcs[t], s.pcs[u]);
    }
  }

  lemma TryLockKeepsInv(s: State, t: int)
    requires Inv(s) && Enabled(s, t) && s.pcs[t].Marked?
    ensures Inv(Step(s, t))
  {
    var s' := Step(s, t);
    OwnersKept(s, s', t);
    forall u | 0 <= u < |s'.pcs| ensures ThreadOk(s', s'.pcs[u]) {
      assert ThreadOk(s, s.pcs[u]);
    }
    if s.locked {
      MoveThread(s, t, Idle);
      LockKept(s, s', t);
    } else {
      assert s'.pcs[t].InCriticalSection();
    }
  }

  lemma ClearKeepsRing(s: State, index: int)
    requires Bounds(s) && RingExact(s) && AckedIssued(s) && index == s.swept + 1
    ensures RingExact(s.(window := s.window[Slot(index) := false], swept := index))
  {
    var s' := s.(window := s.window[Slot(index) := false], swept := index);
    forall id | s'.swept < id <= s'.swept + WINDOW ensures s'.window[Slot(id)] <==> id in s'.acked {
      if id == index + WINDOW {
        assert Slot(id) == Slot(index);
      } else if Slot(id) == Slot(index) {
        SlotInjective(id, index);
      }
    }
  }

  /** The steps of a sweep: only the thread inside the critical section moves `swept` and `limit`. */
  lemma SweepKeepsInv(s: State, t: int)
    requires Inv(s) && Enabled(s, t) && s.pcs[t].InCriticalSection() && !s.pcs[t].Unlocking?
    ensures Inv(Step(s, t))
  {
    var s' := Step(s, t);
    assert ThreadOk(s, s.pcs[t]);
    assert s.locked;
    if s.pcs[t].Sweeping? {
      assert s.window[Slot(s.pcs[t].index)] <==> s.pcs[t].index in s.acked;
    }
    if s.pcs[t].Clearing? {
      ClearKeepsRing(s, s.pcs[t].index);
    }
    MoveThread(s, t, s'.pcs[t]);
    LockKept(s, s', t);
    OwnersKept(s, s', t);
    forall u | 0 <= u < |s'.pcs| ensures ThreadOk(s', s'.pcs[u]) {
      assert ThreadOk(s, s.pcs[u]);
      assert u != t ==> Compatible(s.pcs[t], s.pcs[u]);
    }
  }

  lemma UnlockKeepsInv(s: State, t: int)
    requires Inv(s) && Enabled(s, t) && s.pcs[t].Unlocking?
    ensures Inv(Step(s, t))
  {
    var s' := Step(s, t);
    assert ThreadOk(s, s.pcs[t]);
    MoveThread(s, t, Idle);
    OwnersKept(s, s', t);
    forall u | 0 <= u < |s'.pcs|
      ensures ThreadOk(s', s'.pcs[u]) && !s'.pcs[u].InCriticalSection()
    {
      assert ThreadOk(s, s.pcs[u]);
      assert u != t ==> Compatible(s.pcs[t], s.pcs[u]);
    }
  }

  lemma VetKeepsInv(s: State, t: int)
    requires Inv(s) && Enabled(s, t) && s.pcs[t].Holding?
    ensures Inv(Step(s, t))
  {
    var s' := Step(s, t);
    VettingSucceeds(s, t);
    MoveThread(s, t, s'.pcs[t]);
    LockKept(s, s', t);
    OwnersKept(s, s', t);
    forall u | 0 <= u < |s'.pcs| ensures ThreadOk(s', s'.pcs[u]) {
      assert ThreadOk(s, s.pcs[u]);
    }
  }

  /** Every atomic step of every thread keeps the invariant; nothing that has been granted is taken back. */
  lemma StepKeepsInv(s: State, t: int)
    requires Inv(s) && Enabled(s, t)
    ensures Inv(Step(s, t))
    ensures s.limit <= Step(s, t).limit && s.acked <= Step(s, t).acked && s.start == Step(s, t).start
  {
    assert ThreadOk(s, s.pcs[t]);
    match s.pcs[t] {
      case Idle => IssueKeepsInv(s, t);
      case Holding(_) => VetKeepsInv(s, t);
      case Vetted(_) => MarkKeepsInv(s, t);
      case Marked => TryLockKeepsInv(s, t);
      case Unlocking => UnlockKeepsInv(s, t);
      case _ => SweepKeepsInv(s, t);
    }
  }

  // ----- whole runs

  lemma {:induction false} RunKeepsInv(s: State, schedule: seq<int>)
    requires Inv(s) && Admissible(s, schedule)
    ensures Inv(Run(s, schedule))
    ensures s.limit <= Run(s, schedule).limit && s.acked <= Run(s, schedule).acked
    ensures s.start == Run(s, schedule).start
    decreases |schedule|
  {
    if schedule != [] {
      StepKeepsInv(s, schedule[0]);
      RunKeepsInv(Step(s, schedule[0]), schedule[1..]);
    }
  }

  /**
   Safety over every interleaving of any number of threads: the value Last() reports covers only
   acknowledged ids, every ring slot is exact (also in the middle of a sweep), and no thread panics.
   */
  lemma Safety(start: int, threads: nat, schedule: seq<int>)
    requires Admissible(Init(start, threads), schedule)
    ensures var s := Run(Init(start, threads), schedule);
            && |s.window| == WINDOW
            && RingExact(s)
            && (forall id :: start <= id <= s.limit ==> id in s.acked)
            && (forall id :: id in s.acked ==> start <= id < s.counter)
            && (forall t :: 0 <= t < |s.pcs| ==> !s.pcs[t].Panicked?)
  {
    InitInv(start, threads);
    RunKeepsInv(Init(start, threads), schedule);
    var s := Run(Init(start, threads), schedule);
    forall t | 0 <= t < |s.pcs| ensures !s.pcs[t].Panicked? {
      assert ThreadOk(s, s.pcs[t]);
    }
  }

  /** Last() never decreases between any two points of any run. */
  lemma LastNeverDecreases(start: int, threads: nat, before: seq<int>, after: seq<int>)
    requires Admissible(Init(start, threads), before)
    requires Admissible(Run(Init(start, threads), before), after)
    ensures Run(Init(start, threads), before).limit <= Run(Run(Init(start, threads), before), after).limit
  {
    InitInv(start, threads);
    RunKeepsInv(Init(start, threads), before);
    RunKeepsInv(Run(Init(start, threads), before), after);
  }

  /**
   The index guard `index != beforeFirstSlot` cuts a sweep short: the sweep begins at a limit in
   [-WINDOW, 0) with all WINDOW ids after it acknowledged.
   */
  ghost predicate GuardFires(limit: int, acked: set<int>) {
    -WINDOW <= limit < 0 && forall id :: limit < id <= limit + WINDOW ==> id in acked
  }

  /**
   Progress of a sweep: what it publishes covers every n for which start..n was acknowledged when the
   sweep began, exactly when the guard did not fire; when it fires, the sweep stops one id short of
   the whole ring.
   */
  lemma SweepReachesMarkedPrefixIff(s: State, t: int)
    requires Inv(s) && Enabled(s, t) && s.pcs[t].Publishing?
    ensures (forall n :: AllIn(s.start, n, s.pcs[t].seen) ==> n <= Step(s, t).limit)
       <==> !GuardFires(s.limit, s.pcs[t].seen)
    ensures GuardFires(s.limit, s.pcs[t].seen) ==> Step(s, t).limit == s.limit + WINDOW - 1
  {
    assert ThreadOk(s, s.pcs[t]);
    var index, seen := s.pcs[t].index, s.pcs[t].seen;
    forall n | AllIn(s.start, n, seen) && index <= n ensures GuardFires(s.limit, seen) {
      assert index in seen;
      assert index == Slot(s.limit);
    }
    if GuardFires(s.limit, seen) {
      assert index in seen;
      assert AllIn(s.start, index, seen);
    }
  }

  ghost predicate AllIn(from: int, to: int, ids: set<int>) {
    forall id :: from <= id <= to ==> id in ids
  }

  /** No thread is ever stuck, except that drawing an id waits while the window is full. */
  lemma NeverStuck(s: State, t: int)
    requires Inv(s) && 0 <= t < |s.pcs|
    ensures Enabled(s, t) <==> !(s.pcs[t].Idle? && s.counter == s.limit + 1048576 + 1)
  {
    assert ThreadOk(s, s.pcs[t]);
  }

  // ----- a call that runs alone

  function Repeat(t: int, k: nat): seq<int> {
    if k == 0 then [] else [t] + Repeat(t, k - 1)
  }

  /** The limit is the largest n with start..n all acknowledged. */
  ghost predicate LimitExact(start: int, acked: set<int>, limit: int) {
    forall n :: start - 1 <= n ==> (AllIn(start, n, acked) <==> n <= limit)
  }

  /**
   Thread t, moving alone k times from s, is back from its call: the lock is free, nothing but its
   own id was acknowledged, no other thread was touched, and the limit is exact exactly when the
   guard did not fire for the limit the sweep started from.
   */
  ghost predicate Returns(s: State, t: int, k: nat, acked: set<int>, counter: int) {
    && 0 <= t < |s.pcs| && Admissible(s, Repeat(t, k))
    && var s' := Run(s, Repeat(t, k));
    && s'.pcs == s.pcs[t := Idle] && !s'.locked && s'.start == s.start
    && s'.acked == acked && s'.counter == counter
    && (LimitExact(s.start, acked, s'.limit) <==> !GuardFires(s.limit, acked))
  }

  lemma OneMoreStep(s: State, t: int, k: nat, acked: set<int>, counter: int)
    requires Inv(s) && Enabled(s, t) && Returns(Step(s, t), t, k, acked, counter) && Step(s, t).limit == s.limit
    ensures Returns(s, t, k + 1, acked, counter)
  {
    hide Inv, GuardFires, LimitExact, Run, Admissible;
    RepeatMore(s, t, k);
    StepKeepsInv(s, t);
    assert s.pcs[t := Step(s, t).pcs[t]][t := Idle] == s.pcs[t := Idle];
  }

  lemma RepeatMore(s: State, t: int, k: nat)
    requires Enabled(s, t) && Admissible(Step(s, t), Repeat(t, k))
    ensures Admissible(s, Repeat(t, k + 1)) && Run(s, Repeat(t, k + 1)) == Run(Step(s, t), Repeat(t, k))
  {
    assert Repeat(t, k + 1)[1..] == Repeat(t, k);
  }

  lemma TwoSteps(s: State, t: int)
    requires Enabled(s, t) && Enabled(Step(s, t), t)
    ensures Admissible(s, Repeat(t, 2)) && Run(s, Repeat(t, 2)) == Step(Step(s, t), t)
  {
    var s1 := Step(s, t);
    assert Run(Step(s1, t), Repeat(t, 0)) == Step(s1, t);
    RepeatMore(s1, t, 0);
    RepeatMore(s, t, 1);
  }

  lemma PublishAndUnlock(s: State, t: int)
    requires Inv(s) && 0 <= t < |s.pcs| && s.pcs[t].Publishing? && s.pcs[t].seen == s.acked
    ensures Returns(s, t, 2, s.acked, s.counter)
  {
    var s1 := Step(s, t);
    StepKeepsInv(s, t);
    var s2 := Step(s1, t);
    StepKeepsInv(s1, t);
    TwoSteps(s, t);
    SweepReachesMarkedPrefixIff(s, t);
    assert s.pcs[t := Unlocking][t := Idle] == s.pcs[t := Idle];
    forall n | n <= s2.limit ensures AllIn(s.start, n, s.acked) {}
  }

  /** The sweep of a thread that runs alone. */
  lemma {:induction false} SweepAlone(s: State, t: int) returns (k: nat)
    requires Inv(s) && 0 <= t < |s.pcs| && s.pcs[t].Sweeping? && s.pcs[t].seen == s.acked
    ensures Returns(s, t, k, s.acked, s.counter)
    decreases s.limit + WINDOW + 1 - s.swept
  {
    hide Returns, GuardFires, LimitExact;
    assert ThreadOk(s, s.pcs[t]);
    var s1 := Step(s, t);
    StepKeepsInv(s, t);
    if s1.pcs[t].Publishing? {
      PublishAndUnlock(s1, t);
      OneMoreStep(s, t, 2, s.acked, s.counter);
      k := 3;
    } else {
      var s2 := Step(s1, t);
      StepKeepsInv(s1, t);
      var rest := SweepAlone(s2, t);
      OneMoreStep(s1, t, rest, s.acked, s.counter);
      OneMoreStep(s, t, rest + 1, s.acked, s.counter);
      k := rest + 2;
    }
  }

  /**
   A thread that finds the lock free takes it and sweeps: from any state of any run, its call comes
   to an end when it runs alone, and the limit is then the largest n with start..n all acknowledged,
   exactly when the guard does not fire.
   */
  lemma FreeLockSweeps(s: State, t: int) returns (k: nat)
    requires Inv(s) && 0 <= t < |s.pcs| && s.pcs[t].Marked? && !s.locked
    ensures Returns(s, t, k, s.acked, s.counter)
  {
    hide Returns, GuardFires, LimitExact;
    var s1 := Step(s, t);
    StepKeepsInv(s, t);
    var s2 := Step(s1, t);
    StepKeepsInv(s1, t);
    k := SweepAlone(s2, t);
    OneMoreStep(s1, t, k, s.acked, s.counter);
    OneMoreStep(s, t, k + 1, s.acked, s.counter);
    k := k + 2;
  }

  /** A whole call of Next and Acknowledge that runs alone acknowledges exactly the id it drew. */
  lemma CallAlone(s: State, t: int) returns (k: nat)
    requires Inv(s) && Enabled(s, t) && s.pcs[t].Idle? && !s.locked
    ensures Returns(s, t, k, s.acked + {s.counter}, s.counter + 1)
  {
    hide Returns, GuardFires, LimitExact;
    var s1 := Step(s, t);
    StepKeepsInv(s, t);
    VettingSucceeds(s1, t);
    var s2 := Step(s1, t);
    StepKeepsInv(s1, t);
    var s3 := Step(s2, t);
    StepKeepsInv(s2, t);
    k := FreeLockSweeps(s3, t);
    OneMoreStep(s2, t, k, s3.acked, s3.counter);
    OneMoreStep(s1, t, k + 1, s3.acked, s3.counter);
    OneMoreStep(s, t, k + 2, s3.acked, s3.counter);
    k := k + 3;
  }

  /** A thread that finds the lock taken returns at once and changes nothing else. */
  lemma TakenLockReturns(s: State, t: int)
    requires Inv(s) && 0 <= t < |s.pcs| && s.pcs[t].Marked? && s.locked
    ensures Step(s, t) == s.(pcs := s.pcs[t := Idle])
  {}

  /** start..n are acknowledged, and were so when thread t last began a sweep. */
  ghost predicate Covers(s: State, t: int, n: int)
    requires 0 <= t < |s.pcs|
  {
    forall id :: s.start <= id <= n ==>
                   && id in s.acked
                   && (s.pcs[t].Sweeping? || s.pcs[t].Clearing? || s.pcs[t].Publishing? ==> id in s.pcs[t].seen)
  }

  lemma StepKeepsCover(s: State, u: int, t: int, n: int)
    requires Inv(s) && Enabled(s, u) && 0 <= t < |s.pcs| && Covers(s, t, n)
    ensures |Step(s, u).pcs| == |s.pcs| && Covers(Step(s, u), t, n)
  {
    StepKeepsInv(s, u);
  }

  lemma {:induction false} RunKeepsCover(s: State, schedule: seq<int>, t: int, n: int)
    requires Inv(s) && Admissible(s, schedule) && 0 <= t < |s.pcs| && Covers(s, t, n)
    ensures |Run(s, schedule).pcs| == |s.pcs| && Covers(Run(s, schedule), t, n)
    decreases |schedule|
  {
    if schedule != [] {
      StepKeepsInv(s, schedule[0]);
      StepKeepsCover(s, schedule[0], t, n);
      RunKeepsCover(Step(s, schedule[0]), schedule[1..], t, n);
    }
  }

  /**
   The same over whole runs: once start..n are acknowledged, every sweep that any thread begins
   afterwards publishes a limit of at least n, whatever the other threads do meanwhile; and with a
   positive start without exception.
   */
  lemma LaterSweepCatchesUp(start: int, threads: nat, before: seq<int>, after: seq<int>, t: nat, n: int)
    requires Admissible(Init(start, threads), before) && t < |Run(Init(start, threads), before).pcs|
    requires var s := Run(Init(start, threads), before);
             && (forall id :: start <= id <= n ==> id in s.acked)
             && !s.pcs[t].InCriticalSection()
             && Admissible(s, after)
    requires var s := Run(Run(Init(start, threads), before), after);
             t < |s.pcs| && Enabled(s, t) && s.pcs[t].Publishing?
    ensures var s := Run(Run(Init(start, threads), before), after);
            && (n <= Step(s, t).limit || (GuardFires(s.limit, s.acked) && Step(s, t).limit == s.limit + WINDOW - 1))
            && (start > 0 ==> n <= Step(s, t).limit)
  {
    InitInv(start, threads);
    RunKeepsInv(Init(start, threads), before);
    var s := Run(Init(start, threads), before);
    RunKeepsCover(s, after, t, n);
    RunKeepsInv(s, after);
    var s' := Run(s, after);
    SweepReachesMarkedPrefixIff(s', t);
    assert ThreadOk(s', s'.pcs[t]);
    assert AllIn(s'.start, n, s'.pcs[t].seen);
  }

  /**
   The index guard ends the loop exactly at the WINDOW-th id after a limit in [-WINDOW, 0); with a
   non-negative limit it never does.
   */
  lemma GuardEndsLoopIff(s: State, t: int)
    requires Inv(s) && Enabled(s, t) && s.pcs[t].Sweeping?
    ensures s.pcs[t].index == Slot(s.pcs[t].from) <==> -WINDOW <= s.limit < 0 && s.pcs[t].index == s.limit + WINDOW
  {
    assert ThreadOk(s, s.pcs[t]);
  }

  /** A sweep clears at most WINDOW slots, however many ids other threads mark meanwhile. */
  lemma SweepIsBounded(s: State, t: int)
    requires Inv(s) && 0 <= t < |s.pcs| && (s.pcs[t].Sweeping? || s.pcs[t].Clearing?)
    ensures s.pcs[t].index - s.pcs[t].from - 1 <= WINDOW
  {
    assert ThreadOk(s, s.pcs[t]);
  }

  // ----- rest

  ghost predicate AtRest(s: State) {
    forall t :: 0 <= t < |s.pcs| ==> s.pcs[t].Idle?
  }

  /**
   When no call is in progress every issued id has been acknowledged. Last() has caught up with all
   of them exactly when the slot after it is free: a thread that marks an id just after the sweeper
   read its slot, and loses the try-lock, leaves its id behind until the next Acknowledge.
   */
  lemma CaughtUpIff(start: int, threads: nat, schedule: seq<int>)
    requires Admissible(Init(start, threads), schedule)
    requires AtRest(Run(Init(start, threads), schedule))
    ensures var s := Run(Init(start, threads), schedule);
            && |s.window| == WINDOW
            && (forall id :: start <= id < s.counter <==> id in s.acked)
            && (s.limit == s.counter - 1 <==> !s.window[Slot(s.limit + 1)])
  {
    InitInv(start, threads);
    RunKeepsInv(Init(start, threads), schedule);
    var s := Run(Init(start, threads), schedule);
    assert !s.locked;
    assert s.window[Slot(s.limit + 1)] <==> s.limit + 1 in s.acked;
  }

  /** A schedule can be extended by any thread that can move. */
  lemma {:induction false} Extend(s: State, schedule: seq<int>, t: int)
    requires Admissible(s, schedule) && Enabled(Run(s, schedule), t)
    ensures Admissible(s, schedule + [t]) && Run(s, schedule + [t]) == Step(Run(s, schedule), t)
    decreases |schedule|
  {
    if schedule == [] {
      assert schedule + [t] == [t];
      assert Admissible(Step(s, t), [t][1..]);
    } else {
      Extend(Step(s, schedule[0]), schedule[1..], t);
      assert (schedule + [t])[1..] == schedule[1..] + [t];
    }
  }

  /** Thread 0 takes id 1, thread 1 takes id 2, and thread 0 marks its id and wins the try-lock. */
  lemma LagPartOne() returns (schedule: seq<int>)
    ensures Admissible(Init(1, 2), schedule)
    ensures var s := Run(Init(1, 2), schedule);
            && s.pcs == [Locked, Holding(2)] && s.counter == 3 && s.limit == 0 && s.locked && s.acked == {1}
            && s.window == Init(1, 2).window[1 := true]
  {
    schedule := ExtendBy(Init(1, 2), [], 0);
    schedule := ExtendBy(Init(1, 2), schedule, 1);
    assert Run(Init(1, 2), schedule).pcs == [Holding(1), Holding(2)];
    schedule := ExtendBy(Init(1, 2), schedule, 0);
    schedule := ExtendBy(Init(1, 2), schedule, 0);
    schedule := ExtendBy(Init(1, 2), schedule, 0);
  }

  /** Thread 0 clears slot 1 and finds slot 2 free, so it leaves its loop. */
  lemma LagPartTwo() returns (schedule: seq<int>)
    ensures Admissible(Init(1, 2), schedule)
    ensures var s := Run(Init(1, 2), schedule);
            && s.pcs == [Publishing(0, 2, {1}), Holding(2)] && s.counter == 3 && s.limit == 0
            && s.locked && s.acked == {1} && s.window == Init(1, 2).window
  {
    schedule := LagPartOne();
    schedule := ExtendBy(Init(1, 2), schedule, 0);
    schedule := ExtendBy(Init(1, 2), schedule, 0);
    assert Run(Init(1, 2), schedule).pcs == [Clearing(0, 1, {1}), Holding(2)];
    schedule := ExtendBy(Init(1, 2), schedule, 0);
    assert Run(Init(1, 2), schedule).window == Init(1, 2).window;
    schedule := ExtendBy(Init(1, 2), schedule, 0);
  }

  /** Two threads suffice to come to rest with an acknowledged id that Last() does not report. */
  lemma LastCanLag() returns (schedule: seq<int>)
    ensures Admissible(Init(1, 2), schedule)
    ensures var s := Run(Init(1, 2), schedule);
            AtRest(s) && s.acked == {1, 2} && s.counter == 3 && s.limit == 1
  {
    schedule := LagPartTwo();
    schedule := ExtendBy(Init(1, 2), schedule, 1);
    schedule := ExtendBy(Init(1, 2), schedule, 1);
    schedule := ExtendBy(Init(1, 2), schedule, 1);
    assert Run(Init(1, 2), schedule).pcs == [Publishing(0, 2, {1}), Idle];
    schedule := ExtendBy(Init(1, 2), schedule, 0);
    schedule := ExtendBy(Init(1, 2), schedule, 0);
  }

  lemma ExtendBy(s: State, schedule: seq<int>, t: int) returns (longer: seq<int>)
    requires Admissible(s, schedule) && Enabled(Run(s, schedule), t)
    ensures Admissible(s, longer) && Run(s, longer) == Step(Run(s, schedule), t)
  {
    Extend(s, schedule, t);
    longer := schedule + [t];
  }
}
