/** What a completed load phase leaves in the store, from the quotas down to the stored bytes. */
module LoadedTable {
  import opened RowCodec
  import BadgerStore
  import opened Integrity
  import opened KeyNames
  import LoadRun

  type Op = BadgerStore.Op

  /** A range in which every number occurs once has as many members as its length. */
  lemma {:induction false} RangeSize(m: multiset<int>, start: int, total: nat)
    requires forall k :: m[k] == if start <= k < start + total then 1 else 0
    ensures |m| == total
  {
    if total == 0 {
      assert forall k :: k !in m;
    } else {
      var last := start + total - 1;
      RangeSize(m - multiset{last}, start, total - 1);
      assert m == m - multiset{last} + multiset{last};
    }
  }

  lemma OccursTwice(s: seq<int>, i: nat, j: nat)
    requires i < j < |s| && s[i] == s[j]
    ensures multiset(s)[s[i]] >= 2
  {
    assert s == s[..j] + s[j..];
    assert s[i] == s[..j][i] && s[j] == s[j..][0];
    assert s[i] in s[..j] && s[i] in s[j..];
  }

  ghost predicate KeyAmong(ops: seq<Op>, name: string) {
    exists i :: 0 <= i < |ops| && ops[i].Insert? && ops[i].key == name
  }

  ghost predicate SameNames(rows: BadgerStore.Table, ops: seq<Op>) {
    |rows| == |ops| && forall name :: name in rows <==> KeyAmong(ops, name)
  }

  ghost predicate SameRows(rows: BadgerStore.Table, ops: seq<Op>) {
    forall i :: 0 <= i < |ops| ==> ops[i].Insert? && ops[i].key in rows && rows[ops[i].key] == ops[i].values
  }

  /** The table holds exactly the inserted rows. */
  ghost predicate HoldsInserts(rows: BadgerStore.Table, ops: seq<Op>) {
    SameNames(rows, ops) && SameRows(rows, ops)
  }

  lemma AmongOneMore(ops: seq<Op>, op: Op, name: string)
    requires op.Insert?
    ensures KeyAmong(ops + [op], name) <==> KeyAmong(ops, name) || op.key == name
  {
    var ops' := ops + [op];
    assert ops'[|ops|] == op;
    if KeyAmong(ops, name) {
      var i :| 0 <= i < |ops| && ops[i].Insert? && ops[i].key == name;
      assert ops'[i] == ops[i];
    }
  }

  lemma NewKeyCounts(rows: BadgerStore.Table, key: string, values: Fields)
    requires key !in rows
    ensures |rows[key := values]| == |rows| + 1
  {
    assert rows[key := values].Keys == rows.Keys + {key};
  }

  lemma OneMoreName(rows: BadgerStore.Table, ops: seq<Op>, op: Op)
    requires SameNames(rows, ops) && op.Insert? && !KeyAmong(ops, op.key)
    ensures SameNames(rows[op.key := op.values], ops + [op])
  {
    hide KeyAmong;
    var rows', ops' := rows[op.key := op.values], ops + [op];
    NewKeyCounts(rows, op.key, op.values);
    forall name ensures name in rows' <==> KeyAmong(ops', name) {
      AmongOneMore(ops, op, name);
    }
  }

  lemma OneMoreRow(rows: BadgerStore.Table, ops: seq<Op>, op: Op)
    requires SameRows(rows, ops) && op.Insert? && !KeyAmong(ops, op.key)
    ensures SameRows(rows[op.key := op.values], ops + [op])
  {
    var rows', ops' := rows[op.key := op.values], ops + [op];
    forall i | 0 <= i < |ops'| ensures ops'[i].Insert? && ops'[i].key in rows' && rows'[ops'[i].key] == ops'[i].values {
      if i < |ops| {
        assert ops'[i] == ops[i];
      }
    }
  }

  lemma AfterInsert(ops: seq<Op>, op: Op)
    requires op.Insert?
    ensures BadgerStore.After(ops + [op]) == BadgerStore.After(ops)[op.key := op.values]
  {
    assert (ops + [op])[..|ops|] == ops;
  }

  lemma {:induction false} InsertedKeys(ops: seq<Op>)
    requires forall i :: 0 <= i < |ops| ==> ops[i].Insert?
    requires forall i, j :: 0 <= i < j < |ops| ==> ops[i].key != ops[j].key
    ensures HoldsInserts(BadgerStore.After(ops), ops)
  {
    if ops != [] {
      hide BadgerStore.After, SameNames, SameRows;
      var last := |ops| - 1;
      InsertedKeys(ops[..last]);
      OneMoreName(BadgerStore.After(ops[..last]), ops[..last], ops[last]);
      OneMoreRow(BadgerStore.After(ops[..last]), ops[..last], ops[last]);
      AfterInsert(ops[..last], ops[last]);
      assert ops[..last] + [ops[last]] == ops;
    }
  }

  /** The operations are the inserts of these key numbers, each with a full row of deterministic values. */
  ghost predicate Inserts(w: Workload, c: Codec, prefix: string, zeroPadding: nat, keyNums: seq<nat>, ops: seq<Op>) {
    && |ops| == |keyNums|
    && forall i :: 0 <= i < |ops| ==>
         && ops[i].Insert? && ops[i].key == KeyName(prefix, keyNums[i], zeroPadding)
         && ops[i].values.Keys == (set f | f in c.fields) && w.Genuine(ops[i].key, ops[i].values)
  }

  /** Every number of the range once, in any order. */
  ghost predicate IsRange(keyNums: seq<nat>, start: nat, total: nat) {
    && |keyNums| == total
    && (forall k: nat :: k in keyNums <==> start <= k < start + total)
    && forall i, j :: 0 <= i < j < |keyNums| ==> keyNums[i] != keyNums[j]
  }

  /** One row for each key number of the range and no other, all fields present and deterministic. */
  ghost predicate ExactlyTheRows(
      w: Workload, c: Codec, prefix: string, zeroPadding: nat, start: nat, total: nat, rows: BadgerStore.Table)
  {
    && |rows| == total
    && (forall name :: name in rows <==>
          exists k: nat :: start <= k < start + total && name == KeyName(prefix, k, zeroPadding))
    && (forall name :: name in rows ==>
          rows[name].Keys == (set f | f in c.fields) && w.Genuine(name, rows[name]))
  }

  /**
   Whatever the number of workers, their interleaving and the order in which their inserts take effect:
   once the load phase is over the encoded bytes hold exactly `total` rows, one for each key number
   from insertstart on, each with every field and each field deterministic.
   */
  lemma LoadLeavesExactlyTheRows(
      w: Workload, c: Codec, prefix: string, zeroPadding: nat, start: nat, total: int, threads: int,
      schedule: seq<int>, keyNums: seq<nat>, ops: seq<Op>, stores: seq<BadgerStore.Store>,
      resps: seq<BadgerStore.Response>)
    requires w.Valid(c)
    requires 1 <= threads <= total && LoadRun.Admissible(LoadRun.Init(start, total, threads), schedule)
    requires forall v :: !LoadRun.Enabled(LoadRun.Run(LoadRun.Init(start, total, threads), schedule), v)
    requires forall k: int ::
               multiset(keyNums)[k] == LoadRun.Run(LoadRun.Init(start, total, threads), schedule).inserted[k]
    requires Inserts(w, c, prefix, zeroPadding, keyNums, ops)
    requires BadgerStore.ByteRun(c, w.table, ops, stores, resps)
    ensures |stores| == |ops| + 1
    ensures BadgerStore.Refines(c, w.table, stores[|ops|], BadgerStore.After(ops))
    ensures ExactlyTheRows(w, c, prefix, zeroPadding, start, total, BadgerStore.After(ops))
  {
    hide ExactlyTheRows, Inserts, BadgerStore.Refines;
    LoadRun.LoadComplete(start, total, threads, schedule);
    KeyNumbersAreTheRange(keyNums, start, total);
    InsertsMakeTheRows(w, c, prefix, zeroPadding, start, total, keyNums, ops);
    InsertsAreKnown(w, c, prefix, zeroPadding, keyNums, ops);
    BadgerStore.RunRefines(c, w.table, ops, stores, resps);
  }

  lemma InsertsAreKnown(w: Workload, c: Codec, prefix: string, zeroPadding: nat, keyNums: seq<nat>, ops: seq<Op>)
    requires Inserts(w, c, prefix, zeroPadding, keyNums, ops)
    ensures forall i :: 0 <= i < |ops| ==> BadgerStore.KnownOp(c, ops[i])
  {
    forall i | 0 <= i < |ops| ensures BadgerStore.KnownOp(c, ops[i]) {
      forall f | f in ops[i].values ensures f in c.fields {
        assert f in ops[i].values.Keys;
      }
    }
  }

  lemma InsertsMakeTheRows(
      w: Workload, c: Codec, prefix: string, zeroPadding: nat, start: nat, total: nat, keyNums: seq<nat>, ops: seq<Op>)
    requires Inserts(w, c, prefix, zeroPadding, keyNums, ops)
    requires IsRange(keyNums, start, total)
    ensures ExactlyTheRows(w, c, prefix, zeroPadding, start, total, BadgerStore.After(ops))
  {
    hide KeyName, BadgerStore.After, Workload.Genuine;
    NamesDiffer(w, c, prefix, zeroPadding, keyNums, ops);
    InsertedKeys(ops);
    var rows := BadgerStore.After(ops);
    forall name
      ensures name in rows <==>
              exists k: nat :: start <= k < start + total && name == KeyName(prefix, k, zeroPadding)
    {
      NamedByNumber(w, c, prefix, zeroPadding, keyNums, ops, name);
    }
  }

  lemma NamedByNumber(
      w: Workload, c: Codec, prefix: string, zeroPadding: nat, keyNums: seq<nat>, ops: seq<Op>, name: string)
    requires Inserts(w, c, prefix, zeroPadding, keyNums, ops)
    ensures KeyAmong(ops, name) <==> exists k: nat :: k in keyNums && name == KeyName(prefix, k, zeroPadding)
  {
    hide KeyName;
    if KeyAmong(ops, name) {
      var i :| 0 <= i < |ops| && ops[i].Insert? && ops[i].key == name;
      assert keyNums[i] in keyNums;
    }
    if k: nat :| k in keyNums && name == KeyName(prefix, k, zeroPadding) {
      var i :| 0 <= i < |keyNums| && keyNums[i] == k;
      assert ops[i].key == name;
    }
  }

  lemma KeyNumbersAreTheRange(keyNums: seq<nat>, start: nat, total: nat)
    requires forall k: int :: multiset(keyNums)[k] == if start <= k < start + total then 1 else 0
    ensures IsRange(keyNums, start, total)
  {
    RangeSize(multiset(keyNums), start, total);
    forall k: nat ensures k in keyNums <==> start <= k < start + total {
      assert k in keyNums <==> multiset(keyNums)[k] > 0;
    }
    forall i, j | 0 <= i < j < |keyNums| ensures keyNums[i] != keyNums[j] {
      if keyNums[i] == keyNums[j] {
        OccursTwice(keyNums, i, j);
      }
    }
  }

  lemma NamesDiffer(w: Workload, c: Codec, prefix: string, zeroPadding: nat, keyNums: seq<nat>, ops: seq<Op>)
    requires Inserts(w, c, prefix, zeroPadding, keyNums, ops)
    requires forall i, j :: 0 <= i < j < |keyNums| ==> keyNums[i] != keyNums[j]
    ensures forall i, j :: 0 <= i < j < |ops| ==> ops[i].key != ops[j].key
  {
    forall i, j | 0 <= i < j < |ops| ensures ops[i].key != ops[j].key {
      if ops[i].key == ops[j].key {
        NamesDistinct(prefix, keyNums[i], keyNums[j], zeroPadding);
      }
    }
  }
}
