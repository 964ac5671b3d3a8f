/**
 The badger driver: rows are kept as encoded bytes in one ordered key/value map. The driver is
 proved to refine a map of key -> field -> value, over every sequence of operations on one table.
 */
module BadgerStore {
  import opened Options
  import opened Varint
  import opened Row
  import opened RowCodec
  import opened Lexicographic

  type Store = map<string, seq<byte>>

  datatype Op =
    | Insert(key: string, values: Fields)
    | Update(key: string, values: Fields)
    | Delete(key: string)
    | Read(key: string, fields: seq<string>)
    | Scan(start: string, count: nat, fields: seq<string>)

  datatype Response =
    | Done
    | NotFound
    | Found(row: Fields)
    | Rows(rows: seq<Option<Fields>>)
    | RowsUntil(rows: seq<Option<Fields>>, error: Error)
    | Failed(error: Error)

  function TablePrefix(table: string): string {
    table + ":"
  }

  function RowKey(table: string, key: string): string {
    TablePrefix(table) + key
  }

  lemma RowKeyInjective(table: string, a: string, b: string)
    requires RowKey(table, a) == RowKey(table, b)
    ensures a == b
  {
    var n := |TablePrefix(table)|;
    assert RowKey(table, a)[n..] == a && RowKey(table, b)[n..] == b;
  }

  lemma RowKeyHasPrefix(table: string, key: string)
    ensures InTable(table, RowKey(table, key))
  {}

  // ----- what the driver does to the bytes

  ghost function KeysFrom(store: Store, start: string): (keys: seq<string>)
    ensures forall k :: k in keys ==> k in store
  {
    Ascending(set p | p in store && AtMost(start, p))
  }

  function Min(a: nat, b: nat): nat {
    if a < b then a else b
  }

  /** The row of the i-th key, and nil beyond the last key. */
  ghost function ScanRow(c: Codec, store: Store, keys: seq<string>, fields: seq<string>, i: nat): Option<Fields>
    requires forall k :: k in keys ==> k in store
  {
    if i < |keys| then Some(Project(c, Decoded(store[keys[i]]).row, Requested(c, fields))) else None
  }

  ghost predicate AllDecode(store: Store, keys: seq<string>)
    requires forall k :: k in keys ==> k in store
  {
    forall k :: k in keys ==> Decoded(store[k]).err == NoError
  }

  ghost predicate InsertStep(c: Codec, p: string, values: Fields, store: Store, store': Store, resp: Response) {
    resp == Done && p in store' && EncodingOf(c, values, store'[p]) && store' == store[p := store'[p]]
  }

  ghost predicate UpdateStep(c: Codec, p: string, values: Fields, store: Store, store': Store, resp: Response) {
    if p !in store then store' == store && resp == NotFound
    else if Decoded(store[p]).err != NoError then store' == store && resp == Failed(Decoded(store[p]).err)
    else InsertStep(c, p, Project(c, Decoded(store[p]).row, c.fields) + values, store, store', resp)
  }

  ghost predicate ReadStep(c: Codec, p: string, fields: seq<string>, store: Store, resp: Response) {
    if p !in store then resp == NotFound
    else if Decoded(store[p]).err != NoError then resp == Failed(Decoded(store[p]).err)
    else resp == Found(Project(c, Decoded(store[p]).row, Requested(c, fields)))
  }

  ghost predicate ScanStep(c: Codec, from: string, count: nat, fields: seq<string>, store: Store, resp: Response) {
    var keys := KeysFrom(store, from);
    && (resp.Rows? || resp.RowsUntil?)
    && (resp.Rows? <==> AllDecode(store, keys[..Min(count, |keys|)]))
    && (resp.Rows? ==>
          && |resp.rows| == count
          && forall i :: 0 <= i < count ==> resp.rows[i] == ScanRow(c, store, keys, fields, i))
    && (resp.RowsUntil? ==>
          exists n :: 0 <= n < Min(count, |keys|) && StopsAt(c, store, keys, fields, count, n, resp.rows, resp.error))
  }

  /** Row n is the first that does not decode; the rows before it are kept beside its error. */
  ghost predicate StopsAt(c: Codec, store: Store, keys: seq<string>, fields: seq<string>, count: nat, n: nat,
                          rows: seq<Option<Fields>>, error: Error)
    requires n < |keys| && forall k :: k in keys ==> k in store
  {
    && AllDecode(store, keys[..n])
    && error == Decoded(store[keys[n]]).err != NoError
    && |rows| == count
    && forall i :: 0 <= i < count ==> rows[i] == if i < n then ScanRow(c, store, keys, fields, i) else None
  }

  /** The byte-level effect and answer of one operation; encoding may use any iteration order. */
  ghost predicate ByteStep(c: Codec, table: string, store: Store, op: Op, store': Store, resp: Response) {
    match op
    case Insert(key, values) => InsertStep(c, RowKey(table, key), values, store, store', resp)
    case Update(key, values) => UpdateStep(c, RowKey(table, key), values, store, store', resp)
    case Delete(key) => resp == Done && store' == store - {RowKey(table, key)}
    case Read(key, fields) => store' == store && ReadStep(c, RowKey(table, key), fields, store, resp)
    case Scan(start, count, fields) =>
      store' == store && ScanStep(c, RowKey(table, start), count, fields, store, resp)
  }

  method Least(keys: set<string>) returns (least: string)
    requires keys != {}
    ensures least in keys && forall k :: k in keys ==> AtMost(least, k)
  {
    least :| least in keys;
    var pending := keys - {least};
    while pending != {}
      invariant least in keys && pending <= keys
      invariant forall k :: k in keys && k !in pending ==> AtMost(least, k)
      decreases pending
    {
      var k :| k in pending;
      Total(least, k);
      if Less(k, least) {
        forall j | j in keys && j !in pending ensures AtMost(k, j) {
          if j != least {
            Transitive(k, least, j);
          }
        }
        least := k;
      }
      pending := pending - {k};
    }
  }

  /** Copies every field of `values` into `data`. */
  method Merge(data: Fields, values: Fields) returns (merged: Fields)
    ensures merged == data + values
  {
    merged := data;
    var pending := values.Keys;
    while pending != {}
      invariant pending <= values.Keys
      invariant merged == data + map f | f in values && f !in pending :: values[f]
      decreases pending
    {
      var f :| f in pending;
      merged := merged[f := values[f]];
      pending := pending - {f};
    }
    assert (map f | f in values && f !in pending :: values[f]) == values;
  }

  class BadgerDB {
    const codec: Codec
    var store: Store
    var localBytes: nat
    var globalBytes: nat

    constructor (codec: Codec)
      ensures this.codec == codec && store == map[] && localBytes == 0 && globalBytes == 0
    {
      this.codec, store, localBytes, globalBytes := codec, map[], 0, 0;
    }

    /** Logical write volume is gathered locally and flushed a mebibyte at a time; none is lost. */
    method Account(payload: nat)
      modifies this`localBytes, this`globalBytes
      ensures localBytes + globalBytes == old(localBytes + globalBytes) + payload
      ensures localBytes == (var sum := old(localBytes) + payload; if sum >= 1048576 then 0 else sum) < 1048576
    {
      localBytes := localBytes + payload;
      if localBytes >= 0x10_0000 {
        globalBytes := globalBytes + localBytes;
        localBytes := 0;
      }
    }

    method Read(table: string, key: string, fields: seq<string>) returns (resp: Response)
      ensures ReadStep(codec, RowKey(table, key), fields, store, resp)
    {
      var rowKey := RowKey(table, key);
      if rowKey !in store {
        return NotFound;
      }
      var m, err := Decode(codec, store[rowKey], fields);
      resp := if err != NoError then Failed(err) else Found(m);
    }

    /** The keys an iterator yields after Seek(from). */
    method Iterate(from: string) returns (keys: seq<string>)
      ensures keys == KeysFrom(store, from)
    {
      keys := [];
      var pending := set p | p in store && AtMost(from, p);
      while pending != {}
        invariant KeysFrom(store, from) == keys + Ascending(pending)
        decreases pending
      {
        var k := Least(pending);
        AscendingAfterLeast(pending, k);
        assert keys + ([k] + Ascending(pending - {k})) == (keys + [k]) + Ascending(pending - {k});
        keys := keys + [k];
        pending := pending - {k};
      }
      EmptyEnumeration(Ascending(pending), pending);
    }

    method Scan(table: string, startKey: string, count: nat, fields: seq<string>) returns (resp: Response)
      ensures ScanStep(codec, RowKey(table, startKey), count, fields, store, resp)
    {
      hide Decoded, Project, Requested, RowKey;
      var from := RowKey(table, startKey);
      var it := Iterate(from);
      var res: seq<Option<Fields>> := seq(count, _ => None);
      var i := 0;
      while i < |it| && i < count
        invariant i <= count && i <= |it| && |res| == count
        invariant AllDecode(store, it[..i])
        invariant forall j :: 0 <= j < i ==> res[j] == ScanRow(codec, store, it, fields, j)
        invariant forall j :: i <= j < count ==> res[j] == None
      {
        assert it[..i + 1] == it[..i] + [it[i]];
        var m, err := Decode(codec, store[it[i]], fields);
        if err != NoError {
          assert it[i] in it[..Min(count, |it|)];
          assert StopsAt(codec, store, it, fields, count, i, res, err);
          return RowsUntil(res, err);
        }
        res := res[i := Some(m)];
        i := i + 1;
      }
      resp := Rows(res);
    }

    method Update(table: string, key: string, values: Fields) returns (resp: Response)
      modifies this
      ensures UpdateStep(codec, RowKey(table, key), values, old(store), store, resp)
      ensures localBytes + globalBytes == old(localBytes + globalBytes)
                + if resp.Done? then |RowKey(table, key)| + |store[RowKey(table, key)]| else 0
    {
      var rowKey := RowKey(table, key);
      if rowKey !in store {
        return NotFound;
      }
      var data, err := Decode(codec, store[rowKey], []);
      if err != NoError {
        return Failed(err);
      }
      data := Merge(data, values);
      var buf;
      buf, err := Encode(codec, [], data);
      Account(|rowKey| + |buf|);
      store := store[rowKey := buf];
      resp := Done;
    }

    method Insert(table: string, key: string, values: Fields) returns (resp: Response)
      modifies this
      ensures InsertStep(codec, RowKey(table, key), values, old(store), store, resp)
      ensures localBytes + globalBytes ==
              old(localBytes + globalBytes) + |RowKey(table, key)| + |store[RowKey(table, key)]|
    {
      var rowKey := RowKey(table, key);
      var buf, err := Encode(codec, [], values);
      Account(|rowKey| + |buf|);
      store := store[rowKey := buf];
      resp := Done;
    }

    method Delete(table: string, key: string) returns (resp: Response)
      modifies this
      ensures resp == Done && store == old(store) - {RowKey(table, key)}
      ensures localBytes + globalBytes == old(localBytes + globalBytes) + |RowKey(table, key)|
    {
      var rowKey := RowKey(table, key);
      Account(|rowKey|);
      store := store - {rowKey};
      resp := Done;
    }
  }

  // ----- the map it stands for

  type Table = map<string, Fields>

  ghost function TableKeysFrom(rows: Table, start: string): (keys: seq<string>)
    ensures forall i :: 0 <= i < |keys| ==> keys[i] in rows
  {
    var keys := Ascending(set k | k in rows && AtMost(start, k));
    assert forall i :: 0 <= i < |keys| ==> keys[i] in keys;
    keys
  }

  ghost function TableRow(rows: Table, start: string, fields: seq<string>, i: nat): Option<Fields> {
    var keys := TableKeysFrom(rows, start);
    if i < |keys| then Some(Chosen(rows[keys[i]], fields)) else None
  }

  /** The first `count` rows at or after the start in key order, padded with nils. */
  ghost function TableScan(rows: Table, start: string, count: nat, fields: seq<string>): seq<Option<Fields>> {
    seq(count, i requires 0 <= i < count => TableRow(rows, start, fields, i))
  }

  ghost function Effect(rows: Table, op: Op): Table {
    match op
    case Insert(key, values) => rows[key := values]
    case Update(key, values) => if key in rows then rows[key := rows[key] + values] else rows
    case Delete(key) => rows - {key}
    case _ => rows
  }

  ghost function Answer(rows: Table, op: Op): Response {
    match op
    case Insert(_, _) => Done
    case Update(key, _) => if key in rows then Done else NotFound
    case Delete(_) => Done
    case Read(key, fields) =>
      if key in rows then Found(Chosen(rows[key], fields)) else NotFound
    case Scan(start, count, fields) => Rows(TableScan(rows, start, count, fields))
  }

  /** The operation writes and asks for known fields only. */
  ghost predicate KnownOp(c: Codec, op: Op) {
    match op
    case Insert(_, values) => c.Knows(values.Keys)
    case Update(_, values) => c.Knows(values.Keys)
    case Delete(_) => true
    case Read(_, fields) => forall f :: f in fields ==> f in c.fields
    case Scan(_, _, fields) => forall f :: f in fields ==> f in c.fields
  }

  predicate InTable(table: string, rowKey: string) {
    TablePrefix(table) <= rowKey
  }

  ghost predicate Prefixed(table: string, store: Store) {
    forall p {:trigger InTable(table, p)} :: p in store ==> InTable(table, p)
  }

  ghost predicate SameKeys(table: string, store: Store, rows: Table) {
    forall k :: k in rows <==> RowKey(table, k) in store
  }

  ghost predicate RowsHeld(c: Codec, table: string, store: Store, rows: Table) {
    forall k :: k in rows ==> RowKey(table, k) in store && Holds(c, rows[k], store[RowKey(table, k)])
  }

  ghost predicate Holds(c: Codec, values: Fields, row: seq<byte>) {
    c.Knows(values.Keys) && EncodingOf(c, values, row)
  }

  /** The bytes hold exactly the rows of the table. */
  ghost predicate Refines(c: Codec, table: string, store: Store, rows: Table) {
    Prefixed(table, store) && SameKeys(table, store, rows) && RowsHeld(c, table, store, rows)
  }

  lemma WriteRefines(c: Codec, table: string, store: Store, rows: Table, key: string, row: seq<byte>, values: Fields)
    requires Refines(c, table, store, rows) && Holds(c, values, row)
    ensures Refines(c, table, store[RowKey(table, key) := row], rows[key := values])
  {
    hide RowKey, InTable, Holds;
    var p := RowKey(table, key);
    var store', rows' := store[p := row], rows[key := values];
    assert SameKeys(table, store', rows') && RowsHeld(c, table, store', rows') by {
      forall k ensures RowKey(table, k) == p ==> k == key {
        if RowKey(table, k) == p {
          RowKeyInjective(table, k, key);
        }
      }
    }
    assert Prefixed(table, store') by {
      RowKeyHasPrefix(table, key);
    }
  }

  lemma DeleteRefines(c: Codec, table: string, store: Store, rows: Table, key: string)
    requires Refines(c, table, store, rows)
    ensures Refines(c, table, store - {RowKey(table, key)}, rows - {key})
  {
    hide RowKey, InTable, Holds;
    var p := RowKey(table, key);
    var store', rows' := store - {p}, rows - {key};
    assert SameKeys(table, store', rows') && RowsHeld(c, table, store', rows') by {
      forall k ensures RowKey(table, k) == p ==> k == key {
        if RowKey(table, k) == p {
          RowKeyInjective(table, k, key);
        }
      }
    }
    assert Prefixed(table, store');
  }

  /** The stored keys at or after a row key are the table's keys at or after the key, in the same order. */
  lemma KeysAgree(c: Codec, table: string, store: Store, rows: Table, start: string)
    requires Refines(c, table, store, rows)
    ensures var keys, stored := TableKeysFrom(rows, start), KeysFrom(store, RowKey(table, start));
            && |keys| == |stored|
            && forall i :: 0 <= i < |keys| ==> keys[i] in rows && stored[i] == RowKey(table, keys[i])
  {
    hide TablePrefix;
    var keys := set k | k in rows && AtMost(start, k);
    var stored := set p | p in store && AtMost(RowKey(table, start), p);
    forall k ensures k in keys <==> TablePrefix(table) + k in stored {
      RowKeyAtMost(table, start, k);
      assert RowKey(table, k) == TablePrefix(table) + k;
    }
    forall p | p in stored ensures TablePrefix(table) <= p {
      assert InTable(table, p);
    }
    AscendingWithPrefix(TablePrefix(table), keys, stored);
  }

  lemma RowKeyAtMost(table: string, a: string, b: string)
    ensures AtMost(RowKey(table, a), RowKey(table, b)) <==> AtMost(a, b)
  {
    SharedPrefix(TablePrefix(table), a, b);
    if RowKey(table, a) == RowKey(table, b) {
      RowKeyInjective(table, a, b);
    }
  }

  lemma ScanRowAgrees(c: Codec, table: string, store: Store, rows: Table, start: string, fields: seq<string>, i: nat)
    requires c.Valid() && Refines(c, table, store, rows)
    requires forall f :: f in fields ==> f in c.fields
    ensures var keys := KeysFrom(store, RowKey(table, start));
            && (i < |keys| ==> keys[i] in keys && Decoded(store[keys[i]]).err == NoError)
            && ScanRow(c, store, keys, fields, i) == TableRow(rows, start, fields, i)
  {
    KeysAgree(c, table, store, rows, start);
    var keys := TableKeysFrom(rows, start);
    if i < |keys| {
      ChosenRoundTrip(c, rows[keys[i]], store[RowKey(table, keys[i])], fields);
    }
  }

  lemma ScanRefines(c: Codec, table: string, store: Store, rows: Table, start: string, count: nat,
                    fields: seq<string>, resp: Response)
    requires c.Valid() && Refines(c, table, store, rows)
    requires forall f :: f in fields ==> f in c.fields
    requires ScanStep(c, RowKey(table, start), count, fields, store, resp)
    ensures resp == Rows(TableScan(rows, start, count, fields))
  {
    ScanIsClean(c, table, store, rows, start, fields);
    var expected := TableScan(rows, start, count, fields);
    forall i | 0 <= i < count ensures resp.rows[i] == expected[i] {
      ScanRowAgrees(c, table, store, rows, start, fields, i);
    }
    assert resp.rows == expected;
  }

  lemma ScanIsClean(c: Codec, table: string, store: Store, rows: Table, start: string, fields: seq<string>)
    requires c.Valid() && Refines(c, table, store, rows)
    requires forall f :: f in fields ==> f in c.fields
    ensures AllDecode(store, KeysFrom(store, RowKey(table, start)))
  {
    var keys := KeysFrom(store, RowKey(table, start));
    forall k | k in keys ensures Decoded(store[k]).err == NoError {
      var i :| 0 <= i < |keys| && keys[i] == k;
      ScanRowAgrees(c, table, store, rows, start, fields, i);
    }
  }

  lemma UpdateRefines(c: Codec, table: string, store: Store, rows: Table, key: string, values: Fields,
                      store': Store, resp: Response)
    requires c.Valid() && Refines(c, table, store, rows) && c.Knows(values.Keys) && key in rows
    requires UpdateStep(c, RowKey(table, key), values, store, store', resp)
    ensures Refines(c, table, store', rows[key := rows[key] + values]) && resp == Done
  {
    var p := RowKey(table, key);
    CodecRoundTrip(c, rows[key], store[p], c.fields);
    assert Restrict(rows[key], c.fields) == rows[key];
    WriteRefines(c, table, store, rows, key, store'[p], rows[key] + values);
  }

  lemma ReadRefines(c: Codec, table: string, store: Store, rows: Table, key: string, fields: seq<string>,
                    resp: Response)
    requires c.Valid() && Refines(c, table, store, rows) && key in rows
    requires forall f :: f in fields ==> f in c.fields
    requires ReadStep(c, RowKey(table, key), fields, store, resp)
    ensures resp == Found(Chosen(rows[key], fields))
  {
    ChosenRoundTrip(c, rows[key], store[RowKey(table, key)], fields);
  }

  /** One operation on the bytes is one operation on the table, with the same answer. */
  lemma StepRefines(c: Codec, table: string, store: Store, rows: Table, op: Op, store': Store, resp: Response)
    requires c.Valid() && Refines(c, table, store, rows) && KnownOp(c, op)
    requires ByteStep(c, table, store, op, store', resp)
    ensures Refines(c, table, store', Effect(rows, op)) && resp == Answer(rows, op)
  {
    hide RowKey;
    match op {
      case Insert(key, values) => WriteRefines(c, table, store, rows, key, store'[RowKey(table, key)], values);
      case Update(key, values) =>
        if key in rows {
          UpdateRefines(c, table, store, rows, key, values, store', resp);
        }
      case Delete(key) => DeleteRefines(c, table, store, rows, key);
      case Read(key, fields) =>
        if key in rows {
          ReadRefines(c, table, store, rows, key, fields, resp);
        }
      case Scan(start, count, fields) => ScanRefines(c, table, store, rows, start, count, fields, resp);
    }
  }

  // ----- whole runs

  /** A run of the driver on one table, starting from an empty store. */
  ghost predicate ByteRun(c: Codec, table: string, ops: seq<Op>, stores: seq<Store>, resps: seq<Response>) {
    && |stores| == |ops| + 1 && |resps| == |ops|
    && stores[0] == map[]
    && forall i :: 0 <= i < |ops| ==> ByteStep(c, table, stores[i], ops[i], stores[i + 1], resps[i])
  }

  ghost function After(ops: seq<Op>): Table {
    if ops == [] then map[] else Effect(After(ops[..|ops| - 1]), ops[|ops| - 1])
  }

  lemma EmptyRefines(c: Codec, table: string)
    ensures Refines(c, table, map[], map[])
  {}

  lemma {:induction false} RunRefinesUpTo(c: Codec, table: string, ops: seq<Op>, stores: seq<Store>,
                                          resps: seq<Response>, n: nat)
    requires c.Valid() && ByteRun(c, table, ops, stores, resps) && n <= |ops|
    requires forall i :: 0 <= i < |ops| ==> KnownOp(c, ops[i])
    ensures Refines(c, table, stores[n], After(ops[..n]))
    ensures n < |ops| ==> resps[n] == Answer(After(ops[..n]), ops[n])
  {
    hide Refines, ByteStep, Answer, KnownOp, Effect;
    if n == 0 {
      EmptyRefines(c, table);
    } else {
      RunRefinesUpTo(c, table, ops, stores, resps, n - 1);
      assert ops[..n][..n - 1] == ops[..n - 1];
      StepRefines(c, table, stores[n - 1], After(ops[..n - 1]), ops[n - 1], stores[n], resps[n - 1]);
    }
    if n < |ops| {
      StepRefines(c, table, stores[n], After(ops[..n]), ops[n], stores[n + 1], resps[n]);
    }
  }

  /** Every answer in every run is the answer of the plain key -> field -> value map. */
  lemma RunRefines(c: Codec, table: string, ops: seq<Op>, stores: seq<Store>, resps: seq<Response>)
    requires c.Valid() && ByteRun(c, table, ops, stores, resps)
    requires forall i :: 0 <= i < |ops| ==> KnownOp(c, ops[i])
    ensures forall i :: 0 <= i < |ops| ==> resps[i] == Answer(After(ops[..i]), ops[i])
    ensures Refines(c, table, stores[|ops|], After(ops))
  {
    forall i | 0 <= i < |ops| ensures resps[i] == Answer(After(ops[..i]), ops[i]) {
      RunRefinesUpTo(c, table, ops, stores, resps, i);
    }
    RunRefinesUpTo(c, table, ops, stores, resps, |ops|);
    assert ops[..|ops|] == ops;
  }

  /** Tables whose names have no colon do not share row keys. */
  lemma TablesDisjoint(table: string, key: string, other: string, otherKey: string)
    requires ':' !in table && ':' !in other
    ensures RowKey(table, key) == RowKey(other, otherKey) <==> table == other && key == otherKey
  {
    var a, b := RowKey(table, key), RowKey(other, otherKey);
    if a == b {
      assert a[|table|] == ':' && b[|other|] == ':';
      assert a[..|table|] == table && b[..|other|] == other;
      assert a[|table| + 1..] == key && b[|other| + 1..] == otherKey;
    }
  }

  /** A row as a reader gets it: the fields asked for, all of them when none is named, with their values. */
  ghost predicate Shows(row: Fields, fields: seq<string>, shown: Fields) {
    && (forall f :: f in shown <==> f in row && (fields == [] || f in fields))
    && (forall f :: f in shown ==> shown[f] == row[f])
  }

  /** In every run a read shows the row, and finds none exactly when there is none. */
  lemma ReadShows(c: Codec, table: string, ops: seq<Op>, stores: seq<Store>, resps: seq<Response>, n: nat)
    requires c.Valid() && ByteRun(c, table, ops, stores, resps)
    requires forall i :: 0 <= i < |ops| ==> KnownOp(c, ops[i])
    requires n < |ops| && ops[n].Read?
    ensures var rows, key := After(ops[..n]), ops[n].key;
            if key in rows then resps[n].Found? && Shows(rows[key], ops[n].fields, resps[n].row)
            else resps[n] == NotFound
  {
    hide ByteRun, After, Refines;
    RunRefines(c, table, ops, stores, resps);
  }

  /** In every run row i of a scan shows the i-th row at or after the start, and is nil exactly when there is none. */
  lemma ScanShows(c: Codec, table: string, ops: seq<Op>, stores: seq<Store>, resps: seq<Response>, n: nat, i: nat)
    requires c.Valid() && ByteRun(c, table, ops, stores, resps)
    requires forall i :: 0 <= i < |ops| ==> KnownOp(c, ops[i])
    requires n < |ops| && ops[n].Scan? && i < ops[n].count
    ensures resps[n].Rows? && |resps[n].rows| == ops[n].count
    ensures var rows := After(ops[..n]);
            var keys := TableKeysFrom(rows, ops[n].start);
            if i < |keys| then resps[n].rows[i].Some? && Shows(rows[keys[i]], ops[n].fields, resps[n].rows[i].value)
            else resps[n].rows[i] == None
  {
    hide ByteRun, After, Refines, TableKeysFrom;
    RunRefines(c, table, ops, stores, resps);
  }
}
