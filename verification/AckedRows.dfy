/**
 The transaction phase as a whole: threads draw key numbers, insert their rows and acknowledge them, while
 other clients update, read, scan and insert. What Last() reports can be read back from the stored bytes.
 */
module AckedRows {
  import opened RowCodec
  import opened BadgerStore
  import opened Integrity
  import AckProtocol
  import KeyNames

  /**
   done[t] says that the insert of the id which thread t holds has returned. stored and failed are
   history: the ids whose insert succeeded, and those whose insert returned an error. Both kinds are
   acknowledged.
   */
  datatype State = State(ack: AckProtocol.State, done: seq<bool>, ops: seq<Op>, stored: set<int>, failed: set<int>)

  /** A thread moves, its insert succeeding or not when it comes to that; or a client operation takes effect. */
  datatype Move = Thread(t: int, succeeds: bool) | Client(op: Op)

  /** The key name of a key number may be any function. */
  datatype Setup = Setup(w: Workload, c: Codec, name: int -> string)
  {
    ghost predicate Valid() {
      w.Valid(c)
    }

    ghost predicate Full(rows: Table, key: string)
      requires Valid()
    {
      key in rows && rows[key] == w.FullRow(key)
    }

    predicate Inserts(s: State, t: int) {
      0 <= t < |s.ack.pcs| == |s.done| && s.ack.pcs[t].Holding? && !s.done[t]
    }

    /** Clients write deterministic values, delete nothing and leave the keys of the sequence to the threads. */
    ghost predicate ClientOp(start: int, op: Op)
      requires Valid()
    {
      && w.Issues(c, op) && !op.Delete?
      && (op.Insert? ==> op.values == w.FullRow(op.key) && forall id :: id >= start ==> op.key != name(id))
    }

    ghost predicate Enabled(s: State, m: Move)
      requires Valid()
    {
      match m
      case Thread(t, _) => |s.done| == |s.ack.pcs| && (Inserts(s, t) || AckProtocol.Enabled(s.ack, t))
      case Client(op) => ClientOp(s.ack.start, op)
    }

    ghost function InsertOp(id: int): Op
      requires Valid()
    {
      Op.Insert(name(id), w.FullRow(name(id)))
    }

    ghost function Step(s: State, m: Move): State
      requires Valid() && Enabled(s, m)
    {
      match m
      case Client(op) => s.(ops := s.ops + [op])
      case Thread(t, succeeds) =>
        if Inserts(s, t) then
          var id := s.ack.pcs[t].id;
          if succeeds then
            s.(done := s.done[t := true], ops := s.ops + [InsertOp(id)], stored := s.stored + {id})
          else
            s.(done := s.done[t := true], failed := s.failed + {id})
        else
          s.(ack := AckProtocol.Step(s.ack, t), done := if s.ack.pcs[t].Idle? then s.done[t := false] else s.done)
    }

    ghost predicate Admissible(s: State, moves: seq<Move>)
      requires Valid()
      decreases |moves|
    {
      moves == [] || (Enabled(s, moves[0]) && Admissible(Step(s, moves[0]), moves[1..]))
    }

    ghost function Run(s: State, moves: seq<Move>): State
      requires Valid() && Admissible(s, moves)
      decreases |moves|
    {
      if moves == [] then s else Run(Step(s, moves[0]), moves[1..])
    }

    function Init(start: int, threads: nat): State {
      State(AckProtocol.Init(start, threads), seq(threads, _ => false), [], {}, {})
    }

    // ----- the invariant

    ghost predicate StoredFull(s: State)
      requires Valid()
    {
      forall id :: id in s.stored ==> Full(After(s.ops), name(id))
    }

    /** The insert of every acknowledged id has returned, and so has that of every id about to be. */
    ghost predicate Accounted(s: State)
      requires |s.done| == |s.ack.pcs|
    {
      && s.ack.acked <= s.stored + s.failed
      && forall t :: 0 <= t < |s.ack.pcs| && (s.ack.pcs[t].Vetted? || (s.ack.pcs[t].Holding? && s.done[t])) ==>
                       s.ack.pcs[t].id in s.stored + s.failed
    }

    ghost predicate KnownOps(s: State) {
      forall i :: 0 <= i < |s.ops| ==> KnownOp(c, s.ops[i])
    }

    ghost predicate Inv(s: State)
      requires Valid()
    {
      AckProtocol.Inv(s.ack) && |s.done| == |s.ack.pcs| && StoredFull(s) && Accounted(s) && KnownOps(s)
    }

    /** Names of the sequence are distinct, as ordered names are. */
    ghost predicate Injective(start: int) {
      forall a, b :: start <= a && start <= b && name(a) == name(b) ==> a == b
    }

    lemma OrderedNamesInjective(prefix: string, zeroPadding: nat, start: nat)
      requires forall id: nat :: id >= start ==> name(id) == KeyNames.KeyName(prefix, id, zeroPadding)
      ensures Injective(start)
    {
      forall a, b | start <= a && start <= b && name(a) == name(b) ensures a == b {
        KeyNames.NamesDistinct(prefix, a, b, zeroPadding);
      }
    }

    ghost predicate OnlyStored(s: State) {
      forall id :: id >= s.ack.start && name(id) in After(s.ops) ==> id in s.stored
    }

    // ----- every step keeps it

    lemma OneMoreOp(ops: seq<Op>, op: Op)
      ensures After(ops + [op]) == Effect(After(ops), op)
    {
      assert (ops + [op])[..|ops|] == ops;
    }

    /** Writing genuine values of known fields into a full row leaves it as it was. */
    lemma FullKept(rows: Table, op: Op, key: string)
      requires Valid() && Full(rows, key) && w.Issues(c, op) && !op.Delete?
      requires op.Insert? ==> op.values == w.FullRow(op.key)
      ensures Full(Effect(rows, op), key)
    {
      if op.Update? && op.key == key {
        assert forall f :: f in op.values ==> f in op.values.Keys;
        assert w.FullRow(key) + op.values == w.FullRow(key);
      }
    }

    lemma InsertIssued(id: int)
      requires Valid()
      ensures w.Issues(c, InsertOp(id))
    {
      assert w.FullRow(name(id)).Keys == set f | f in c.fields;
    }

    /** A write keeps every stored row stored. */
    lemma OpKeepsInv(s: State, op: Op)
      requires Valid() && Inv(s) && w.Issues(c, op) && !op.Delete?
      requires op.Insert? ==> op.values == w.FullRow(op.key)
      ensures Inv(s.(ops := s.ops + [op]))
    {
      hide Effect, AckProtocol.Inv, Full, After;
      var s' := s.(ops := s.ops + [op]);
      OneMoreOp(s.ops, op);
      forall key | Full(After(s.ops), key) ensures Full(After(s'.ops), key) {
        FullKept(After(s.ops), op, key);
      }
    }

    lemma InsertStores(ops: seq<Op>, id: int)
      requires Valid()
      ensures Full(After(ops + [InsertOp(id)]), name(id))
    {
      OneMoreOp(ops, InsertOp(id));
    }

    lemma InsertKeepsInv(s: State, t: int, succeeds: bool)
      requires Valid() && Inv(s) && Inserts(s, t)
      ensures Inv(Step(s, Thread(t, succeeds)))
    {
      hide Effect, AckProtocol.Inv, Full, After, InsertOp;
      var id := s.ack.pcs[t].id;
      if succeeds {
        InsertIssued(id);
        InsertIsInsert(id);
        OpKeepsInv(s, InsertOp(id));
        InsertStores(s.ops, id);
      }
    }

    lemma InsertIsInsert(id: int)
      requires Valid()
      ensures InsertOp(id).Insert? && InsertOp(id).key == name(id) && InsertOp(id).values == w.FullRow(name(id))
    {}

    lemma ProtocolKeepsInv(s: State, t: int, succeeds: bool)
      requires Valid() && Inv(s) && !Inserts(s, t) && AckProtocol.Enabled(s.ack, t)
      ensures Inv(Step(s, Thread(t, succeeds)))
    {
      hide AckProtocol.Inv, Full, After;
      AckProtocol.StepKeepsInv(s.ack, t);
    }

    lemma StepKeepsInv(s: State, m: Move)
      requires Valid() && Inv(s) && Enabled(s, m)
      ensures Inv(Step(s, m)) && Step(s, m).ack.start == s.ack.start
    {
      hide AckProtocol.Inv, StoredFull, Accounted, KnownOps;
      match m {
        case Client(op) => OpKeepsInv(s, op);
        case Thread(t, succeeds) =>
          if Inserts(s, t) {
            InsertKeepsInv(s, t, succeeds);
          } else {
            ProtocolKeepsInv(s, t, succeeds);
            AckProtocol.StepKeepsInv(s.ack, t);
          }
      }
    }

    /** With distinct names only a successful insert brings a key of the sequence into the table. */
    lemma StepKeepsOnlyStored(s: State, m: Move)
      requires Valid() && Inv(s) && Enabled(s, m) && Injective(s.ack.start) && OnlyStored(s)
      ensures OnlyStored(Step(s, m))
    {
      hide AckProtocol.Inv, Full;
      match m {
        case Client(op) => OneMoreOp(s.ops, op);
        case Thread(t, succeeds) =>
          if Inserts(s, t) {
            HeldIsIssued(s.ack, t);
            OneMoreOp(s.ops, InsertOp(s.ack.pcs[t].id));
          } else {
            AckProtocol.StepKeepsInv(s.ack, t);
          }
      }
    }

    lemma HeldIsIssued(a: AckProtocol.State, t: int)
      requires AckProtocol.Inv(a) && 0 <= t < |a.pcs| && a.pcs[t].Holding?
      ensures a.start <= a.pcs[t].id
    {
      assert AckProtocol.ThreadOk(a, a.pcs[t]);
    }

    /** What becomes of an insert: its id is stored or failed, as it went, and no other id is touched. */
    lemma InsertOutcome(s: State, t: int, succeeds: bool)
      requires Valid() && Inserts(s, t)
      ensures var s', id := Step(s, Thread(t, succeeds)), s.ack.pcs[t].id;
              && s'.stored == (if succeeds then s.stored + {id} else s.stored)
              && s'.failed == (if succeeds then s.failed else s.failed + {id})
              && s'.ops == (if succeeds then s.ops + [Op.Insert(name(id), w.FullRow(name(id)))] else s.ops)
    {}

    ghost predicate AllSucceed(moves: seq<Move>) {
      forall i :: 0 <= i < |moves| && moves[i].Thread? ==> moves[i].succeeds
    }

    lemma {:induction false} NoneFails(s: State, moves: seq<Move>)
      requires Valid() && Admissible(s, moves) && AllSucceed(moves) && s.failed == {}
      ensures Run(s, moves).failed == {}
      decreases |moves|
    {
      if moves != [] {
        NoneFails(Step(s, moves[0]), moves[1..]);
      }
    }

    // ----- whole runs

    lemma {:induction false} RunKeepsInv(s: State, moves: seq<Move>)
      requires Valid() && Inv(s) && Admissible(s, moves)
      ensures Inv(Run(s, moves)) && Run(s, moves).ack.start == s.ack.start
      ensures Injective(s.ack.start) && OnlyStored(s) ==> OnlyStored(Run(s, moves))
      decreases |moves|
    {
      hide Inv, OnlyStored, Injective, Step, Enabled;
      if moves != [] {
        StepKeepsInv(s, moves[0]);
        if Injective(s.ack.start) && OnlyStored(s) {
          StepKeepsOnlyStored(s, moves[0]);
        }
        RunKeepsInv(Step(s, moves[0]), moves[1..]);
      }
    }

    lemma InitInv(start: int, threads: nat)
      requires Valid()
      ensures Inv(Init(start, threads)) && OnlyStored(Init(start, threads))
    {
      AckProtocol.InitInv(start, threads);
    }

    /** Reading the key of an id from the bytes yields the full genuine row, cut to the requested fields. */
    ghost predicate ReadsBack(store: Store, id: int)
      requires Valid()
    {
      forall fields, resp ::
        (forall f :: f in fields ==> f in c.fields) && ReadStep(c, RowKey(w.table, name(id)), fields, store, resp) ==>
          resp == Found(Chosen(w.FullRow(name(id)), fields))
    }

    lemma StoredReadsBack(store: Store, rows: Table, id: int)
      requires Valid() && Refines(c, w.table, store, rows) && Full(rows, name(id))
      ensures ReadsBack(store, id)
    {
      hide Refines, ReadStep, RowKey;
      forall fields, resp |
        (forall f :: f in fields ==> f in c.fields) && ReadStep(c, RowKey(w.table, name(id)), fields, store, resp)
        ensures resp == Found(Chosen(w.FullRow(name(id)), fields))
      {
        ReadRefines(c, w.table, store, rows, name(id), fields, resp);
      }
    }

    lemma MissingNotFound(store: Store, rows: Table, id: int)
      requires Valid() && Refines(c, w.table, store, rows) && name(id) !in rows
      ensures ReadStep(c, RowKey(w.table, name(id)), c.fields, store, NotFound) && !ReadsBack(store, id)
    {
      assert RowKey(w.table, name(id)) !in store;
      assert ReadStep(c, RowKey(w.table, name(id)), c.fields, store, NotFound);
    }

    /**
     In every interleaving of threads and clients, through the encoded bytes: a key number from start to
     Last() reads back as its full genuine row exactly when its insert succeeded, and only a failed
     insert keeps one from it. Without failures everything Last() reports can be read.
     */
    lemma ReportedReadsBackIff(start: int, threads: nat, moves: seq<Move>, stores: seq<Store>,
                               resps: seq<Response>, id: int)
      requires Valid() && Admissible(Init(start, threads), moves)
      requires ByteRun(c, w.table, Run(Init(start, threads), moves).ops, stores, resps)
      requires start <= id <= Run(Init(start, threads), moves).ack.limit
      ensures var s := Run(Init(start, threads), moves);
              && (id in s.stored ==> ReadsBack(stores[|s.ops|], id))
              && (id in s.stored || id in s.failed)
              && (Injective(start) ==> (ReadsBack(stores[|s.ops|], id) <==> id in s.stored))
              && (AllSucceed(moves) ==> ReadsBack(stores[|s.ops|], id))
    {
      hide ReadsBack, Refines, Full, AckProtocol.Inv;
      InitInv(start, threads);
      RunKeepsInv(Init(start, threads), moves);
      var s := Run(Init(start, threads), moves);
      RunRefines(c, w.table, s.ops, stores, resps);
      ReportedIsAcked(s.ack, id);
      if AllSucceed(moves) {
        NoneFails(Init(start, threads), moves);
      }
      if id in s.stored {
        StoredReadsBack(stores[|s.ops|], After(s.ops), id);
      } else if Injective(start) {
        MissingNotFound(stores[|s.ops|], After(s.ops), id);
      }
    }

    lemma ReportedIsAcked(a: AckProtocol.State, id: int)
      requires AckProtocol.Inv(a) && a.start <= id <= a.limit
      ensures id in a.acked
    {}

    // ----- a failed insert is reported all the same

    lemma {:induction false} Extend(s: State, moves: seq<Move>, m: Move) returns (longer: seq<Move>)
      requires Valid() && Admissible(s, moves) && Enabled(Run(s, moves), m)
      ensures Admissible(s, longer) && Run(s, longer) == Step(Run(s, moves), m)
      decreases |moves|
    {
      hide Step, Enabled;
      if moves == [] {
        longer := [m];
        assert Admissible(Step(s, m), longer[1..]);
      } else {
        var tail := Extend(Step(s, moves[0]), moves[1..], m);
        longer := [moves[0]] + tail;
        assert longer[1..] == tail;
      }
    }

    lemma FailedAndMarked() returns (moves: seq<Move>)
      requires Valid()
      ensures Admissible(Init(1, 1), moves)
      ensures var s := Run(Init(1, 1), moves);
              && s.ack == AckProtocol.Init(1, 1).(counter := 2, window := AckProtocol.Init(1, 1).window[1 := true],
                                                  acked := {1}, pcs := [AckProtocol.Marked])
              && s.done == [true] && s.ops == [] && s.stored == {} && s.failed == {1}
    {
      var fail := Thread(0, false);
      moves := Extend(Init(1, 1), [], fail);
      assert Run(Init(1, 1), moves).ack.pcs == [AckProtocol.Holding(1)];
      moves := Extend(Init(1, 1), moves, fail);
      moves := Extend(Init(1, 1), moves, fail);
      assert Run(Init(1, 1), moves).ack.pcs == [AckProtocol.Vetted(1)];
      moves := Extend(Init(1, 1), moves, fail);
    }

    lemma FailedAndLocked() returns (moves: seq<Move>)
      requires Valid()
      ensures Admissible(Init(1, 1), moves)
      ensures var s := Run(Init(1, 1), moves);
              && s.ack == AckProtocol.Init(1, 1).(counter := 2, window := AckProtocol.Init(1, 1).window[1 := true],
                                                  acked := {1}, locked := true,
                                                  pcs := [AckProtocol.Sweeping(0, 1, {1})])
              && s.done == [true] && s.ops == [] && s.stored == {} && s.failed == {1}
    {
      var fail := Thread(0, false);
      moves := FailedAndMarked();
      moves := Extend(Init(1, 1), moves, fail);
      assert Run(Init(1, 1), moves).ack.pcs == [AckProtocol.Locked];
      moves := Extend(Init(1, 1), moves, fail);
    }

    lemma FailedAndCleared() returns (moves: seq<Move>)
      requires Valid()
      ensures Admissible(Init(1, 1), moves)
      ensures var s := Run(Init(1, 1), moves);
              && s.ack == AckProtocol.Init(1, 1).(counter := 2, acked := {1}, swept := 1, locked := true,
                                                  pcs := [AckProtocol.Sweeping(0, 2, {1})])
              && s.done == [true] && s.ops == [] && s.stored == {} && s.failed == {1}
    {
      var fail := Thread(0, false);
      moves := FailedAndLocked();
      moves := Extend(Init(1, 1), moves, fail);
      assert Run(Init(1, 1), moves).ack.pcs == [AckProtocol.Clearing(0, 1, {1})];
      moves := Extend(Init(1, 1), moves, fail);
      assert Run(Init(1, 1), moves).ack.window == AckProtocol.Init(1, 1).window;
    }

    /** One thread whose only insert fails: Last() reports the id, and no row was ever stored. */
    lemma FailedIsReported() returns (moves: seq<Move>)
      requires Valid()
      ensures Admissible(Init(1, 1), moves)
      ensures var s := Run(Init(1, 1), moves); s.ack.limit == 1 && s.failed == {1} && After(s.ops) == map[]
    {
      var fail := Thread(0, false);
      moves := FailedAndCleared();
      moves := Extend(Init(1, 1), moves, fail);
      assert Run(Init(1, 1), moves).ack.pcs == [AckProtocol.Publishing(0, 2, {1})];
      moves := Extend(Init(1, 1), moves, fail);
    }
  }
}
