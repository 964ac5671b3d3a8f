/**
 The Zipfian generator's cached zeta sum. The sum is extended incrementally under a spin lock taken
 after an unlocked comparison. The terms 1/i^theta and the formula for eta are parameters.
 */
module Zipfian {

  /** term(i) is 1/pow(i+1, theta); eta is the formula applied to zetan. */
  datatype Shape = Shape(term: int -> real, eta: real -> real, allowDecrease: bool)

  function SumTerms(term: int -> real, st: int, n: int): real
    decreases n - st
  {
    if n <= st then 0.0 else SumTerms(term, st, n - 1) + term(n - 1)
  }

  /** The sum from scratch. */
  function Zeta(term: int -> real, n: int): real {
    SumTerms(term, 0, n)
  }

  lemma {:induction false} SumTermsSplit(term: int -> real, a: int, b: int, c: int)
    requires a <= b <= c
    ensures SumTerms(term, a, c) == SumTerms(term, a, b) + SumTerms(term, b, c)
    decreases c - b
  {
    if b < c {
      SumTermsSplit(term, a, b, c - 1);
    }
  }

  /** What a sum misses or has too much after growing from a to b terms, for any sign of a and b. */
  lemma GrowFrom(term: int -> real, a: int, b: int)
    requires a < b
    ensures Zeta(term, a) + SumTerms(term, a, b) == Zeta(term, b) + SumTerms(term, a, if b < 0 then b else 0)
  {
    if a >= 0 {
      SumTermsSplit(term, 0, a, b);
    } else if b >= 0 {
      SumTermsSplit(term, a, 0, b);
    }
  }

  method ZetaStatic(term: int -> real, st: int, n: int, initialSum: real) returns (sum: real)
    ensures sum == initialSum + SumTerms(term, st, n)
    ensures 0 <= st <= n && initialSum == Zeta(term, st) ==> sum == Zeta(term, n)
  {
    sum := initialSum;
    var i := st;
    while i < n
      invariant st <= i && (i == st || i <= n)
      invariant sum == initialSum + SumTerms(term, st, i)
    {
      sum := sum + term(i);
      i := i + 1;
    }
    if 0 <= st <= n {
      SumTermsSplit(term, 0, st, n);
    }
  }

  class Zipfian {
    const shape: Shape
    const items: int
    const base: int
    var zetan: real
    var eta: real
    var zeta2Theta: real
    var countForZeta: int

    ghost predicate Valid()
      reads this
    {
      zetan == Zeta(shape.term, countForZeta) && eta == shape.eta(zetan)
    }

    /** NewZipfianWithRange: items min..max, with the sum computed from scratch. */
    constructor (min: int, max: int, shape: Shape)
      ensures Valid() && countForZeta == items == max - min + 1 && base == min && this.shape == shape
      ensures zeta2Theta == Zeta(shape.term, 2)
    {
      var count := max - min + 1;
      var sum := ZetaStatic(shape.term, 0, count, 0.0);
      this.shape, items, base := shape, count, min;
      zetan, countForZeta, eta := sum, 0, 0.0;
      new;
      zeta2Theta := ComputeZeta(0, 2, 0.0);
      countForZeta := count;
      eta := shape.eta(zetan);
    }

    /** zeta: notes the count first, then sums. */
    method ComputeZeta(st: int, n: int, initialSum: real) returns (sum: real)
      modifies this`countForZeta
      ensures countForZeta == n
      ensures sum == initialSum + SumTerms(shape.term, st, n)
      ensures 0 <= st <= n && initialSum == Zeta(shape.term, st) ==> sum == Zeta(shape.term, n)
    {
      countForZeta := n;
      sum := ZetaStatic(shape.term, st, n, initialSum);
    }

    /**
     The update at the head of next, run by one caller. It keeps the cached sum exact except when it
     grows from a negative count: the terms with negative indices are then added as well.
     */
    method Adjust(itemCount: int)
      requires Valid()
      modifies this
      ensures zeta2Theta == old(zeta2Theta) && eta == shape.eta(zetan)
      ensures countForZeta ==
              if itemCount > old(countForZeta) || shape.allowDecrease then itemCount else old(countForZeta)
      ensures Valid() <==>
              (itemCount > old(countForZeta) ==>
                 SumTerms(shape.term, old(countForZeta), if itemCount < 0 then itemCount else 0) == 0.0)
      ensures old(countForZeta) >= 0 ==> Valid()
    {
      if itemCount > countForZeta {
        GrowFrom(shape.term, countForZeta, itemCount);
      }
      if itemCount != countForZeta {
        if itemCount > countForZeta {
          zetan := ComputeZeta(countForZeta, itemCount, zetan);
          eta := shape.eta(zetan);
        } else if itemCount < countForZeta && shape.allowDecrease {
          zetan := ComputeZeta(0, itemCount, 0.0);
          eta := shape.eta(zetan);
        }
      }
    }
  }

  // ----- many callers

  datatype Pc =
    | Idle
    | Called(n: int)                                   // next was called with this item count
    | Waiting(n: int)                                  // spinning on the lock
    | Locked(n: int)                                   // compares again under the lock
    | Setting(n: int, i: int, sum: real)               // about to note the new count
    | Summing(n: int, i: int, sum: real, before: int)  // inside the loop
    | Stored(n: int)                                   // zetan written, eta still old
    | Unlocking(n: int)
    | Drawing(n: int)                                  // past the update
  {
    predicate InCriticalSection() {
      Locked? || Setting? || Summing? || Stored? || Unlocking?
    }
  }

  /**
   owner is the thread that holds the lock, -1 when the lock word is zero. The fields after pcs record
   history: the initial count, the counts whose critical section has ended, the indices of the terms
   added since the sum was last begun from zero, and all values countForZeta has had. So does
   `before` in Summing: the count that was noted when the update began.
   */
  datatype State = State(
    zetan: real,
    eta: real,
    countForZeta: int,
    owner: int,
    pcs: seq<Pc>,
    initial: int,
    handled: set<int>,
    added: seq<int>,
    noted: set<int>)

  function UpTo(n: nat): seq<int> {
    seq(n, i => i)
  }

  function Init(shape: Shape, initial: nat, threads: nat): State {
    var zetan := Zeta(shape.term, initial);
    State(zetan, shape.eta(zetan), initial, -1, seq(threads, _ => Idle), initial, {}, UpTo(initial), {initial})
  }

  /** A step names the thread that moves and, for a new call, its item count. */
  datatype Move = Move(thread: int, itemCount: int)

  predicate Enabled(shape: Shape, s: State, m: Move) {
    0 <= m.thread < |s.pcs| && (shape.allowDecrease ==> m.itemCount >= 0)
  }

  function Step(shape: Shape, s: State, m: Move): State
    requires Enabled(shape, s, m)
  {
    var t := m.thread;
    match s.pcs[t]
    case Idle => s.(pcs := s.pcs[t := Called(m.itemCount)])
    case Called(n) => s.(pcs := s.pcs[t := if n == s.countForZeta then Drawing(n) else Waiting(n)])
    case Waiting(n) => if s.owner == -1 then s.(owner := t, pcs := s.pcs[t := Locked(n)]) else s
    case Locked(n) =>
      if n > s.countForZeta then s.(pcs := s.pcs[t := Setting(n, s.countForZeta, s.zetan)])
      else if n < s.countForZeta && shape.allowDecrease then s.(pcs := s.pcs[t := Setting(n, 0, 0.0)], added := [])
      else s.(pcs := s.pcs[t := Unlocking(n)])
    case Setting(n, i, sum) =>
      s.(countForZeta := n, noted := s.noted + {n}, pcs := s.pcs[t := Summing(n, i, sum, s.countForZeta)])
    case Summing(n, i, sum, before) =>
      if i < n then s.(pcs := s.pcs[t := Summing(n, i + 1, sum + shape.term(i), before)], added := s.added + [i])
      else s.(zetan := sum, pcs := s.pcs[t := Stored(n)])
    case Stored(n) => s.(eta := shape.eta(s.zetan), pcs := s.pcs[t := Unlocking(n)])
    case Unlocking(n) => s.(owner := -1, handled := s.handled + {n}, pcs := s.pcs[t := Drawing(n)])
    case Drawing(_) => s.(pcs := s.pcs[t := Idle])
  }

  predicate Admissible(shape: Shape, s: State, moves: seq<Move>) {
    forall i :: 0 <= i < |moves| ==> 0 <= moves[i].thread < |s.pcs| && (shape.allowDecrease ==> moves[i].itemCount >= 0)
  }

  function Run(shape: Shape, s: State, moves: seq<Move>): (s': State)
    requires Admissible(shape, s, moves)
    ensures |s'.pcs| == |s.pcs|
    decreases |moves|
  {
    if moves == [] then s else Run(shape, Step(shape, s, moves[0]), moves[1..])
  }

  // ----- the invariant

  /** The cached values are those of the noted count. */
  ghost predicate Consistent(shape: Shape, s: State) {
    && s.countForZeta >= 0
    && s.zetan == Zeta(shape.term, s.countForZeta)
    && s.eta == shape.eta(s.zetan)
  }

  ghost predicate IsMax(m: int, initial: int, counts: set<int>) {
    initial <= m && (m == initial || m in counts) && forall n :: n in counts ==> n <= m
  }

  ghost predicate Settled(shape: Shape, s: State, counts: set<int>) {
    && Consistent(shape, s)
    && s.added == UpTo(s.countForZeta)
    && (!shape.allowDecrease ==> IsMax(s.countForZeta, s.initial, counts))
  }

  /** No handled count exceeds n, when counts only grow. */
  ghost predicate Topmost(shape: Shape, s: State, n: int) {
    !shape.allowDecrease ==> s.initial <= n && forall h :: h in s.handled ==> h <= n
  }

  ghost predicate OwnerOk(shape: Shape, s: State, pc: Pc) {
    match pc
    case Locked(_) => Settled(shape, s, s.handled)
    case Setting(n, i, sum) =>
      && Consistent(shape, s) && 0 <= i <= n && sum == Zeta(shape.term, i) && s.added == UpTo(i)
      && Topmost(shape, s, n) && (if shape.allowDecrease then n != s.countForZeta else n > s.countForZeta)
    case Summing(n, i, sum, before) =>
      && s.countForZeta == n && 0 <= i <= n && sum == Zeta(shape.term, i) && s.added == UpTo(i)
      && Topmost(shape, s, n) && 0 <= before != n && s.zetan == Zeta(shape.term, before)
    case Stored(n) =>
      && s.countForZeta == n && n >= 0 && s.zetan == Zeta(shape.term, n) && s.added == UpTo(n)
      && Topmost(shape, s, n)
    case Unlocking(n) => Settled(shape, s, s.handled + {n})
    case _ => false
  }

  ghost predicate CountOk(shape: Shape, pc: Pc) {
    pc.Idle? || (shape.allowDecrease ==> pc.n >= 0)
  }

  /** A draw has had its update, or was compared with the noted count; without decreases none is left behind. */
  ghost predicate DrawOk(shape: Shape, s: State, n: int) {
    (n in s.handled || n in s.noted) && (!shape.allowDecrease ==> n <= s.countForZeta)
  }

  ghost predicate Inv(shape: Shape, s: State) {
    && -1 <= s.owner < |s.pcs|
    && (forall t :: 0 <= t < |s.pcs| ==> (s.pcs[t].InCriticalSection() <==> t == s.owner))
    && (forall t :: 0 <= t < |s.pcs| ==> CountOk(shape, s.pcs[t]))
    && (forall t :: 0 <= t < |s.pcs| && s.pcs[t].Drawing? ==> DrawOk(shape, s, s.pcs[t].n))
    && s.countForZeta in s.noted
    && (if s.owner == -1 then Settled(shape, s, s.handled) else OwnerOk(shape, s, s.pcs[s.owner]))
  }

  lemma InitInv(shape: Shape, initial: nat, threads: nat)
    ensures Inv(shape, Init(shape, initial, threads))
  {}

  lemma OwnerStep(shape: Shape, s: State, m: Move)
    requires Inv(shape, s) && Enabled(shape, s, m) && m.thread == s.owner
    ensures Inv(shape, Step(shape, s, m))
  {
    var s' := Step(shape, s, m);
    var pc := s.pcs[s.owner];
    assert CountOk(shape, pc) && OwnerOk(shape, s, pc);
    if pc.Summing? && pc.i < pc.n {
      assert Zeta(shape.term, pc.i + 1) == pc.sum + shape.term(pc.i);
      assert UpTo(pc.i) + [pc.i] == UpTo(pc.i + 1);
    }
    assert CountOk(shape, s'.pcs[m.thread]);
    if pc.Unlocking? {
      assert Settled(shape, s', s'.handled);
    } else {
      assert OwnerOk(shape, s', s'.pcs[s'.owner]);
    }
  }

  lemma StepKeepsInv(shape: Shape, s: State, m: Move)
    requires Inv(shape, s) && Enabled(shape, s, m)
    ensures Inv(shape, Step(shape, s, m)) && |Step(shape, s, m).pcs| == |s.pcs|
  {
    if m.thread == s.owner {
      OwnerStep(shape, s, m);
    } else {
      assert CountOk(shape, s.pcs[m.thread]);
      assert !s.pcs[m.thread].InCriticalSection();
    }
  }

  lemma {:induction false} RunKeepsInv(shape: Shape, s: State, moves: seq<Move>)
    requires Inv(shape, s) && Admissible(shape, s, moves)
    ensures Inv(shape, Run(shape, s, moves)) && Run(shape, s, moves).initial == s.initial
    decreases |moves|
  {
    if moves != [] {
      StepKeepsInv(shape, s, moves[0]);
      RunKeepsInv(shape, Step(shape, s, moves[0]), moves[1..]);
    }
  }

  /**
   Whenever the lock is free, in every interleaving of any number of calls with arbitrary item counts:
   zetan is the sum from scratch up to countForZeta, every term went in exactly once, eta belongs
   to this zetan, and countForZeta is the largest of the initial count and the counts handled so far.
   */
  lemma CachedSumExact(shape: Shape, initial: nat, threads: nat, moves: seq<Move>)
    requires Admissible(shape, Init(shape, initial, threads), moves)
    ensures var s := Run(shape, Init(shape, initial, threads), moves);
            s.owner == -1 ==>
              && s.zetan == Zeta(shape.term, s.countForZeta)
              && s.eta == shape.eta(s.zetan)
              && s.countForZeta >= 0 && s.added == UpTo(s.countForZeta)
              && (!shape.allowDecrease ==> IsMax(s.countForZeta, initial, s.handled))
  {
    InitInv(shape, initial, threads);
    RunKeepsInv(shape, Init(shape, initial, threads), moves);
  }

  /**
   In every interleaving, a draw has been through the lock with its count or was compared with a count
   then noted; and as long as counts only grow, its count has been taken into the sum.
   */
  lemma DrawsAfterUpdate(shape: Shape, initial: nat, threads: nat, moves: seq<Move>, t: int)
    requires Admissible(shape, Init(shape, initial, threads), moves)
    requires var s := Run(shape, Init(shape, initial, threads), moves); 0 <= t < |s.pcs| && s.pcs[t].Drawing?
    ensures var s := Run(shape, Init(shape, initial, threads), moves);
            && (s.pcs[t].n in s.handled || s.pcs[t].n in s.noted)
            && (!shape.allowDecrease ==> s.pcs[t].n <= s.countForZeta)
  {
    InitInv(shape, initial, threads);
    RunKeepsInv(shape, Init(shape, initial, threads), moves);
  }

  // ----- a call that runs alone

  function Repeat(m: Move, k: nat): seq<Move> {
    seq(k, _ => m)
  }

  /** Thread m.thread, moving alone k times, is at its draw with the lock free and the count updated. */
  ghost predicate Finishes(shape: Shape, s: State, m: Move, k: nat, n: int, count: int) {
    && 0 <= m.thread < |s.pcs| && (shape.allowDecrease ==> m.itemCount >= 0)
    && var s' := Run(shape, s, Repeat(m, k));
    s'.pcs == s.pcs[m.thread := Drawing(n)] && s'.owner == -1 && s'.countForZeta == count
  }

  lemma OneMoreMove(shape: Shape, s: State, m: Move, k: nat, n: int, count: int)
    requires Enabled(shape, s, m) && |Step(shape, s, m).pcs| == |s.pcs|
    requires Step(shape, s, m).pcs == s.pcs[m.thread := Step(shape, s, m).pcs[m.thread]]
    requires Finishes(shape, Step(shape, s, m), m, k, n, count)
    ensures Finishes(shape, s, m, k + 1, n, count)
  {
    hide Step;
    assert Repeat(m, k + 1)[1..] == Repeat(m, k) && Repeat(m, k + 1)[0] == m;
  }

  lemma UnlockAlone(shape: Shape, s: State, m: Move)
    requires Enabled(shape, s, m) && s.pcs[m.thread].Unlocking?
    ensures Finishes(shape, s, m, 1, s.pcs[m.thread].n, s.countForZeta)
  {
    assert Repeat(m, 1)[1..] == Repeat(m, 0) == [];
    assert Run(shape, s, Repeat(m, 1)) == Step(shape, s, m);
  }

  lemma {:induction false} SumAlone(shape: Shape, s: State, m: Move) returns (k: nat)
    requires Enabled(shape, s, m) && s.pcs[m.thread].Summing? && s.pcs[m.thread].i <= s.pcs[m.thread].n
    ensures Finishes(shape, s, m, k, s.pcs[m.thread].n, s.countForZeta)
    decreases s.pcs[m.thread].n - s.pcs[m.thread].i
  {
    hide Finishes;
    var s1, n := Step(shape, s, m), s.pcs[m.thread].n;
    if s1.pcs[m.thread].Summing? {
      k := SumAlone(shape, s1, m);
    } else {
      var s2 := Step(shape, s1, m);
      UnlockAlone(shape, s2, m);
      OneMoreMove(shape, s1, m, 1, n, s.countForZeta);
      k := 2;
    }
    OneMoreMove(shape, s, m, k, n, s.countForZeta);
    k := k + 1;
  }

  /**
   A caller that waits for a free lock gets it and its update: from any state of any run its call
   comes to the draw when it runs alone, with the count grown to its own, or, when decreasing is
   allowed, equal to it.
   */
  lemma UpdateAlone(shape: Shape, s: State, m: Move) returns (k: nat)
    requires Inv(shape, s) && Enabled(shape, s, m) && s.pcs[m.thread].Waiting? && s.owner == -1
    ensures var n := s.pcs[m.thread].n;
            Finishes(shape, s, m, k, n, if n > s.countForZeta || shape.allowDecrease then n else s.countForZeta)
  {
    hide Finishes;
    var n := s.pcs[m.thread].n;
    var count := if n > s.countForZeta || shape.allowDecrease then n else s.countForZeta;
    assert CountOk(shape, s.pcs[m.thread]);
    var s1 := Step(shape, s, m);
    var s2 := Step(shape, s1, m);
    if s2.pcs[m.thread].Unlocking? {
      UnlockAlone(shape, s2, m);
      k := 1;
    } else {
      var s3 := Step(shape, s2, m);
      k := SumAlone(shape, s3, m);
      OneMoreMove(shape, s2, m, k, n, count);
      k := k + 1;
    }
    OneMoreMove(shape, s1, m, k, n, count);
    OneMoreMove(shape, s, m, k + 1, n, count);
    k := k + 2;
  }

  /** A caller whose count is the noted one draws without the lock; any other goes for the lock. */
  lemma NotedCountSkipsLock(shape: Shape, s: State, m: Move)
    requires Enabled(shape, s, m) && s.pcs[m.thread].Called?
    ensures var s', n := Step(shape, s, m), s.pcs[m.thread].n;
            && s'.pcs[m.thread] == (if n == s.countForZeta then Drawing(n) else Waiting(n))
            && s'.owner == s.owner && s'.zetan == s.zetan && s'.countForZeta == s.countForZeta
  {}

  /** A caller that finds the lock taken keeps waiting. */
  lemma TakenLockWaits(shape: Shape, s: State, m: Move)
    requires Enabled(shape, s, m) && s.pcs[m.thread].Waiting? && s.owner != -1
    ensures Step(shape, s, m) == s
  {}

  lemma {:induction false} ZetaGrows(term: int -> real, a: int, b: int)
    requires 0 <= a < b && forall i :: i >= 0 ==> term(i) > 0.0
    ensures Zeta(term, a) < Zeta(term, b)
    decreases b
  {
    if a < b - 1 {
      ZetaGrows(term, a, b - 1);
    }
  }

  /** The count that zetan belongs to: while a thread is summing it is still the one noted before. */
  function CountOfSum(s: State): int {
    if 0 <= s.owner < |s.pcs| && s.pcs[s.owner].Summing? then s.pcs[s.owner].before else s.countForZeta
  }

  lemma ZetaSame(term: int -> real, a: int, b: int)
    requires forall i :: i >= 0 ==> term(i) > 0.0
    ensures Zeta(term, a) == Zeta(term, b) <==> a == b || (a <= 0 && b <= 0)
  {
    if 0 <= a < b {
      ZetaGrows(term, a, b);
    } else if 0 <= b < a {
      ZetaGrows(term, b, a);
    } else if a < 0 < b {
      ZetaGrows(term, 0, b);
    } else if b < 0 < a {
      ZetaGrows(term, 0, a);
    }
  }

  /**
   In every interleaving, zetan is the sum for a count n exactly when n is the count that zetan belongs to:
   countForZeta when no thread is inside its summing loop, and the count noted before otherwise. A count
   below zero stands for an empty sum. With n the count a thread at Drawing was compared with, this
   says exactly when its draw is stale; with n the noted count, exactly when the cache is.
   */
  lemma SumBelongsIff(shape: Shape, initial: nat, threads: nat, moves: seq<Move>, n: int)
    requires forall i :: i >= 0 ==> shape.term(i) > 0.0
    requires Admissible(shape, Init(shape, initial, threads), moves)
    ensures var s := Run(shape, Init(shape, initial, threads), moves);
            s.zetan == Zeta(shape.term, n) <==> (if n < 0 then 0 else n) == CountOfSum(s)
  {
    InitInv(shape, initial, threads);
    RunKeepsInv(shape, Init(shape, initial, threads), moves);
    var s := Run(shape, Init(shape, initial, threads), moves);
    ZetaSame(shape.term, CountOfSum(s), n);
  }

  /** A draw that was compared with n uses the sum for n exactly when n is the count that zetan belongs to. */
  lemma DrawExactIff(shape: Shape, initial: nat, threads: nat, moves: seq<Move>, t: int)
    requires forall i :: i >= 0 ==> shape.term(i) > 0.0
    requires Admissible(shape, Init(shape, initial, threads), moves)
    requires var s := Run(shape, Init(shape, initial, threads), moves); 0 <= t < |s.pcs| && s.pcs[t].Drawing?
    ensures var s := Run(shape, Init(shape, initial, threads), moves);
            var n := s.pcs[t].n;
            && (s.zetan == Zeta(shape.term, n) <==> (if n < 0 then 0 else n) == CountOfSum(s))
            && ((forall u :: 0 <= u < |s.pcs| ==> !s.pcs[u].Summing?) && n >= 0 ==>
                  (s.zetan == Zeta(shape.term, n) <==> n == s.countForZeta))
  {
    var s := Run(shape, Init(shape, initial, threads), moves);
    SumBelongsIff(shape, initial, threads, moves, s.pcs[t].n);
  }

  /** zetan is that of countForZeta exactly when no thread is inside its summing loop. */
  lemma CachedSumExactIff(shape: Shape, initial: nat, threads: nat, moves: seq<Move>)
    requires forall i :: i >= 0 ==> shape.term(i) > 0.0
    requires Admissible(shape, Init(shape, initial, threads), moves)
    ensures var s := Run(shape, Init(shape, initial, threads), moves);
            s.zetan == Zeta(shape.term, s.countForZeta) <==> !(exists t :: 0 <= t < |s.pcs| && s.pcs[t].Summing?)
  {
    InitInv(shape, initial, threads);
    RunKeepsInv(shape, Init(shape, initial, threads), moves);
    var s := Run(shape, Init(shape, initial, threads), moves);
    SumBelongsIff(shape, initial, threads, moves, s.countForZeta);
  }

  lemma {:induction false} RunLast(shape: Shape, s: State, moves: seq<Move>, m: Move)
    requires Admissible(shape, s, moves + [m])
    ensures Admissible(shape, s, moves) && Enabled(shape, Run(shape, s, moves), m)
    ensures Run(shape, s, moves + [m]) == Step(shape, Run(shape, s, moves), m)
    decreases |moves|
  {
    assert m == (moves + [m])[|moves|];
    assert forall i :: 0 <= i < |moves| ==> moves[i] == (moves + [m])[i];
    if moves == [] {
      assert (moves + [m])[1..] == [];
    } else {
      assert (moves + [m])[1..] == moves[1..] + [m];
      RunLast(shape, Step(shape, s, moves[0]), moves[1..], m);
    }
  }

  lemma Advance(shape: Shape, s: State, moves: seq<Move>, m: Move) returns (longer: seq<Move>)
    requires Admissible(shape, s, moves) && Enabled(shape, s, m)
    ensures Admissible(shape, s, longer) && Run(shape, s, longer) == Step(shape, Run(shape, s, moves), m)
  {
    longer := moves + [m];
    RunLast(shape, s, moves, m);
  }

  lemma CountNotedFirst(shape: Shape) returns (moves: seq<Move>)
    ensures Admissible(shape, Init(shape, 0, 2), moves)
    ensures Run(shape, Init(shape, 0, 2), moves) ==
            Init(shape, 0, 2).(pcs := [Summing(1, 0, 0.0, 0), Idle], owner := 0, countForZeta := 1, noted := {0, 1})
  {
    var s := Init(shape, 0, 2);
    moves := Advance(shape, s, [], Move(0, 1));
    moves := Advance(shape, s, moves, Move(0, 1));
    moves := Advance(shape, s, moves, Move(0, 1));
    assert Run(shape, s, moves) == s.(pcs := [Locked(1), Idle], owner := 0);
    moves := Advance(shape, s, moves, Move(0, 1));
    moves := Advance(shape, s, moves, Move(0, 1));
    assert Run(shape, s, moves).pcs == [Summing(1, 0, 0.0, 0), Idle];
  }

  /**
   The unlocked comparison can pass while the sum is still being extended: the count is noted before
   zetan is written, so a draw may use a zetan that does not belong to countForZeta.
   */
  lemma UnlockedReadCanBeStale(shape: Shape) returns (moves: seq<Move>)
    requires shape.term(0) != 0.0
    ensures Admissible(shape, Init(shape, 0, 2), moves)
    ensures var s := Run(shape, Init(shape, 0, 2), moves);
            s.pcs[1] == Drawing(1) && s.countForZeta == 1 && s.zetan != Zeta(shape.term, 1)
  {
    var s := Init(shape, 0, 2);
    moves := CountNotedFirst(shape);
    moves := Advance(shape, s, moves, Move(1, 1));
    moves := Advance(shape, s, moves, Move(1, 1));
    assert Zeta(shape.term, 1) == Zeta(shape.term, 0) + shape.term(0);
  }

  lemma ComparedFirst(shape: Shape) returns (moves: seq<Move>)
    ensures Admissible(shape, Init(shape, 0, 2), moves)
    ensures Run(shape, Init(shape, 0, 2), moves) == Init(shape, 0, 2).(pcs := [Drawing(0), Idle])
  {
    var s := Init(shape, 0, 2);
    moves := Advance(shape, s, [], Move(0, 0));
    moves := Advance(shape, s, moves, Move(0, 0));
    assert Run(shape, s, moves).pcs == [Drawing(0), Idle];
  }

  lemma ComparedThenUpdated(shape: Shape) returns (moves: seq<Move>)
    ensures Admissible(shape, Init(shape, 0, 2), moves)
    ensures Run(shape, Init(shape, 0, 2), moves) ==
            Init(shape, 0, 2).(pcs := [Drawing(0), Summing(1, 0, 0.0, 0)], owner := 1, countForZeta := 1,
                               noted := {0, 1})
  {
    hide Run, Admissible;
    var s := Init(shape, 0, 2);
    moves := ComparedFirst(shape);
    moves := Advance(shape, s, moves, Move(1, 1));
    moves := Advance(shape, s, moves, Move(1, 1));
    moves := Advance(shape, s, moves, Move(1, 1));
    assert Run(shape, s, moves) == s.(pcs := [Drawing(0), Locked(1)], owner := 1);
    moves := Advance(shape, s, moves, Move(1, 1));
    moves := Advance(shape, s, moves, Move(1, 1));
  }

  /**
   A draw can also be overtaken: thread 0 passes the comparison with count 0, thread 1 completes its
   update to count 1, and with the lock free again thread 0 draws with the sum for 1. While thread 1
   was still summing, thread 0 would have drawn with the right sum.
   */
  lemma DrawCanBeOvertaken(shape: Shape) returns (during: seq<Move>, moves: seq<Move>)
    requires shape.term(0) != 0.0
    ensures Admissible(shape, Init(shape, 0, 2), during) && Admissible(shape, Init(shape, 0, 2), moves)
    ensures var s := Run(shape, Init(shape, 0, 2), during);
            s.pcs == [Drawing(0), Summing(1, 0, 0.0, 0)] && s.zetan == Zeta(shape.term, 0)
    ensures var s := Run(shape, Init(shape, 0, 2), moves);
            s.pcs == [Drawing(0), Drawing(1)] && s.owner == -1 && s.zetan != Zeta(shape.term, 0)
  {
    hide Run, Admissible;
    var s := Init(shape, 0, 2);
    during := ComparedThenUpdated(shape);
    moves := Advance(shape, s, during, Move(1, 1));
    assert Run(shape, s, moves).pcs == [Drawing(0), Summing(1, 1, 0.0 + shape.term(0), 0)];
    moves := Advance(shape, s, moves, Move(1, 1));
    assert Run(shape, s, moves).pcs == [Drawing(0), Stored(1)];
    moves := Advance(shape, s, moves, Move(1, 1));
    moves := Advance(shape, s, moves, Move(1, 1));
  }
}
