/**
 The load phase: the total is split into worker quotas, and the workers draw key numbers from one
 atomic counter and insert them, in any interleaving.
 */
module LoadRun {
  import opened Options

  /** The operation count of a worker; None stands for leaving the process with an error. */
  function Quota(total: int, threads: int, id: int): Option<int>
    requires threads >= 1
  {
    if total < threads then None
    else Some(total / threads + if id < total % threads then 1 else 0)
  }

  function QuotaSum(total: int, threads: int, k: nat): int
    requires 1 <= threads <= total
  {
    if k == 0 then 0 else QuotaSum(total, threads, k - 1) + Quota(total, threads, k - 1).value
  }

  lemma {:induction false} QuotaSumClosed(total: int, threads: int, k: nat)
    requires 1 <= threads <= total && k <= threads
    ensures QuotaSum(total, threads, k) == k * (total / threads) + if k < total % threads then k else total % threads
  {
    if k > 0 {
      QuotaSumClosed(total, threads, k - 1);
      assert k * (total / threads) == (k - 1) * (total / threads) + total / threads;
    }
  }

  /** The quotas add up to the total, differ by at most one, and leave no worker without work. */
  lemma QuotasFair(total: int, threads: int)
    requires 1 <= threads <= total
    ensures QuotaSum(total, threads, threads) == total
    ensures forall i, j {:trigger Quota(total, threads, i), Quota(total, threads, j)} ::
              -1 <= Quota(total, threads, i).value - Quota(total, threads, j).value <= 1
    ensures forall i :: Quota(total, threads, i).value >= 1
  {
    QuotaSumClosed(total, threads, threads);
    assert total / threads >= 1 by {
      var q := total / threads;
      assert total == threads * q + total % threads;
      assert q <= 0 ==> threads * q <= 0;
    }
  }

  // ----- one insert

  function AtLeastZero(n: int): nat {
    if n < 0 then 0 else n
  }

  /**
   The retry loop of DoInsert. A failure ends it at once, so nothing is ever retried; a success is
   repeated until the retry limit is used up or the run is cancelled, so a successful row is inserted
   once exactly when the limit is not positive or the run is cancelled at once. A cancelled run
   reports success.
   */
  method InsertWithRetry(fails: nat -> bool, cancelled: nat -> bool, retryLimit: int) returns (calls: nat, ok: bool)
    ensures 1 <= calls <= AtLeastZero(retryLimit) + 1
    ensures forall i :: 0 <= i < calls - 1 ==> !fails(i) && !cancelled(i)
    ensures calls <= AtLeastZero(retryLimit) ==> fails(calls - 1) || cancelled(calls - 1)
    ensures ok <==> !fails(calls - 1)
    ensures ok ==> (calls == 1 <==> retryLimit <= 0 || cancelled(0))
  {
    calls := 0;
    var numOfRetries := 0;
    while true
      invariant numOfRetries == calls && (calls == 0 || calls <= retryLimit)
      invariant forall i :: 0 <= i < calls ==> !fails(i) && !cancelled(i)
      decreases retryLimit + 1 - numOfRetries
    {
      var failed := fails(calls);
      calls := calls + 1;
      if failed {
        return calls, false;
      }
      if cancelled(calls - 1) {
        return calls, true;
      }
      numOfRetries := numOfRetries + 1;
      if numOfRetries > retryLimit {
        return calls, true;
      }
    }
  }

  // ----- the interleaved run

  datatype Worker = Worker(quota: int, opsDone: int, pending: Option<int>)
  {
    predicate Holds(key: int) {
      pending == Some(key)
    }

    /** Steps already taken: two for every finished insert, one for a key in hand. */
    function Steps(): int {
      2 * opsDone + if pending.Some? then 1 else 0
    }

    function Drawn(): int {
      opsDone + if pending.Some? then 1 else 0
    }
  }

  datatype State = State(start: int, counter: int, workers: seq<Worker>, inserted: multiset<int>)

  function Init(start: int, total: int, threads: int): State
    requires 1 <= threads <= total
  {
    State(start, start, seq(threads, i => Worker(Quota(total, threads, i).value, 0, None)), multiset{})
  }

  /** A worker moves while it holds a key or has operations left. */
  predicate Enabled(s: State, w: int) {
    0 <= w < |s.workers| && (s.workers[w].pending.Some? || s.workers[w].opsDone < s.workers[w].quota)
  }

  function Step(s: State, w: int): State
    requires Enabled(s, w)
  {
    var worker := s.workers[w];
    match worker.pending
    case None => s.(counter := s.counter + 1, workers := s.workers[w := worker.(pending := Some(s.counter))])
    case Some(key) =>
      s.(inserted := s.inserted + multiset{key},
         workers := s.workers[w := worker.(pending := None, opsDone := worker.opsDone + 1)])
  }

  predicate Admissible(s: State, schedule: seq<int>)
    decreases |schedule|
  {
    schedule == [] || (Enabled(s, schedule[0]) && Admissible(Step(s, schedule[0]), schedule[1..]))
  }

  function Run(s: State, schedule: seq<int>): State
    requires Admissible(s, schedule)
    decreases |schedule|
  {
    if schedule == [] then s else Run(Step(s, schedule[0]), schedule[1..])
  }

  function Total(workers: seq<Worker>, measure: Worker -> int): int {
    if workers == [] then 0 else measure(workers[0]) + Total(workers[1..], measure)
  }

  lemma {:induction false} TotalUpdate(workers: seq<Worker>, measure: Worker -> int, w: nat, worker: Worker)
    requires w < |workers|
    ensures Total(workers[w := worker], measure) == Total(workers, measure) - measure(workers[w]) + measure(worker)
  {
    if w == 0 {
      assert workers[0 := worker][1..] == workers[1..];
    } else {
      TotalUpdate(workers[1..], measure, w - 1, worker);
      assert workers[w := worker][1..] == workers[1..][w - 1 := worker];
    }
  }

  function StepsOf(w: Worker): int { w.Steps() }
  function DrawnOf(w: Worker): int { w.Drawn() }
  function QuotaOf(w: Worker): int { w.quota }

  ghost predicate Inv(s: State) {
    && (forall w :: 0 <= w < |s.workers| ==> 0 <= s.workers[w].opsDone && s.workers[w].Drawn() <= s.workers[w].quota)
    && s.counter - s.start == Total(s.workers, DrawnOf)
    && Keys(s)
  }

  /** Every key below the counter is inserted once or held by exactly one worker. */
  ghost predicate Keys(s: State) {
    && (forall k :: k in s.inserted ==> s.start <= k < s.counter && s.inserted[k] == 1)
    && (forall w :: 0 <= w < |s.workers| && s.workers[w].pending.Some? ==>
          s.start <= s.workers[w].pending.value < s.counter && s.workers[w].pending.value !in s.inserted)
    && (forall v, w :: 0 <= v < w < |s.workers| && s.workers[v].pending.Some? ==>
          s.workers[v].pending != s.workers[w].pending)
    && (forall k :: s.start <= k < s.counter && k !in s.inserted ==> HeldBySome(s, k))
  }

  ghost predicate HeldBySome(s: State, k: int) {
    exists w :: 0 <= w < |s.workers| && s.workers[w].Holds(k)
  }

  lemma HoldersKept(s: State, w: int, k: int)
    requires Enabled(s, w) && Keys(s) && HeldBySome(s, k) && !s.workers[w].Holds(k)
    ensures HeldBySome(Step(s, w), k)
  {
    var v :| 0 <= v < |s.workers| && s.workers[v].Holds(k);
    assert Step(s, w).workers[v].Holds(k);
  }

  lemma StepKeepsKeys(s: State, w: int)
    requires Keys(s) && s.start <= s.counter && Enabled(s, w)
    ensures Keys(Step(s, w))
  {
    var s' := Step(s, w);
    forall k | s'.start <= k < s'.counter && k !in s'.inserted ensures HeldBySome(s', k) {
      if k == s.counter {
        assert s'.workers[w].Holds(k);
      } else {
        HoldersKept(s, w, k);
      }
    }
  }

  lemma StepKeepsInv(s: State, w: int)
    requires Inv(s) && s.start <= s.counter && Enabled(s, w)
    ensures Inv(Step(s, w)) && s.start <= Step(s, w).counter && Step(s, w).start == s.start
    ensures Total(Step(s, w).workers, StepsOf) == Total(s.workers, StepsOf) + 1
    ensures Total(Step(s, w).workers, QuotaOf) == Total(s.workers, QuotaOf)
  {
    var s' := Step(s, w);
    TotalUpdate(s.workers, StepsOf, w, s'.workers[w]);
    TotalUpdate(s.workers, DrawnOf, w, s'.workers[w]);
    TotalUpdate(s.workers, QuotaOf, w, s'.workers[w]);
    StepKeepsKeys(s, w);
  }

  lemma {:induction false} RunKeepsInv(s: State, schedule: seq<int>)
    requires Inv(s) && s.start <= s.counter && Admissible(s, schedule)
    ensures var s' := Run(s, schedule);
            && Inv(s') && s'.start == s.start
            && Total(s'.workers, StepsOf) == Total(s.workers, StepsOf) + |schedule|
            && Total(s'.workers, QuotaOf) == Total(s.workers, QuotaOf)
    decreases |schedule|
  {
    if schedule != [] {
      StepKeepsInv(s, schedule[0]);
      RunKeepsInv(Step(s, schedule[0]), schedule[1..]);
    }
  }

  lemma {:induction false} TotalOfQuotas(total: int, threads: int, k: nat)
    requires 1 <= threads <= total && k <= threads
    ensures var tail := Init(0, total, threads).workers[k..];
            && Total(tail, QuotaOf) == QuotaSum(total, threads, threads) - QuotaSum(total, threads, k)
            && Total(tail, StepsOf) == 0 && Total(tail, DrawnOf) == 0
    decreases threads - k
  {
    if k < threads {
      TotalOfQuotas(total, threads, k + 1);
      var workers := Init(0, total, threads).workers;
      assert workers[k..][1..] == workers[k + 1..];
    }
  }

  lemma InitInv(start: int, total: int, threads: int)
    requires 1 <= threads <= total
    ensures var s := Init(start, total, threads);
            Inv(s) && Total(s.workers, QuotaOf) == total && Total(s.workers, StepsOf) == 0
  {
    QuotasFair(total, threads);
    TotalOfQuotas(total, threads, 0);
    assert Init(0, total, threads).workers[0..] == Init(start, total, threads).workers;
  }

  lemma {:induction false} StepsWithinQuotas(workers: seq<Worker>)
    requires forall w :: 0 <= w < |workers| ==> workers[w].Drawn() <= workers[w].quota
    ensures Total(workers, StepsOf) <= 2 * Total(workers, QuotaOf)
  {
    if workers != [] {
      StepsWithinQuotas(workers[1..]);
    }
  }

  lemma {:induction false} AllDrawn(workers: seq<Worker>)
    requires forall w :: 0 <= w < |workers| ==> workers[w].pending == None && workers[w].opsDone == workers[w].quota
    ensures Total(workers, DrawnOf) == Total(workers, QuotaOf)
  {
    if workers != [] {
      AllDrawn(workers[1..]);
    }
  }

  /** No interleaving takes more than two steps per operation, so the workers terminate. */
  lemma RunTerminates(start: int, total: int, threads: int, schedule: seq<int>)
    requires 1 <= threads <= total && Admissible(Init(start, total, threads), schedule)
    ensures |schedule| <= 2 * total
  {
    InitInv(start, total, threads);
    RunKeepsInv(Init(start, total, threads), schedule);
    StepsWithinQuotas(Run(Init(start, total, threads), schedule).workers);
  }

  /** When no worker can move, the keys start..start+total-1 have been inserted, each exactly once. */
  lemma LoadComplete(start: int, total: int, threads: int, schedule: seq<int>)
    requires 1 <= threads <= total && Admissible(Init(start, total, threads), schedule)
    requires forall w :: !Enabled(Run(Init(start, total, threads), schedule), w)
    ensures var s := Run(Init(start, total, threads), schedule);
            && s.counter == start + total
            && forall k :: s.inserted[k] == if start <= k < start + total then 1 else 0
  {
    InitInv(start, total, threads);
    RunKeepsInv(Init(start, total, threads), schedule);
    var s := Run(Init(start, total, threads), schedule);
    forall w | 0 <= w < |s.workers|
      ensures s.workers[w].pending == None && s.workers[w].opsDone == s.workers[w].quota
    {
      assert !Enabled(s, w);
    }
    AllDrawn(s.workers);
    forall k ensures s.inserted[k] == if start <= k < start + total then 1 else 0 {
      if start <= k < start + total {
        assert !HeldBySome(s, k);
      }
    }
  }
}
