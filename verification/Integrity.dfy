/**
 Data integrity checking: every stored value is derived from its key and field, so a reader can
 recompute it. The hash is a parameter; nothing is assumed of it.
 */
module Integrity {
  import opened Varint
  import opened RowCodec
  import opened Decimal
  import opened BadgerStore

  type Hash = seq<byte> -> int

  const COLON: byte := 58

  /** The bytes of a string. */
  function Raw(s: string): (b: seq<byte>)
    ensures |b| == |s| && forall i :: 0 <= i < |s| ==> b[i] == s[i] as int % 256
  {
    seq(|s|, i requires 0 <= i < |s| => s[i] as int % 256)
  }

  function ToLower(s: string): (t: string)
    ensures |t| == |s| && forall i :: 0 <= i < |s| ==> t[i] as int == LowerCode(s[i])
  {
    seq(|s|, i requires 0 <= i < |s| =>
      if 'A' <= s[i] <= 'Z' then (s[i] as int + 32) as char else s[i])
  }

  /** The code of the character with ASCII capitals made small. */
  function LowerCode(c: char): int {
    if 65 <= c as int <= 90 then c as int - 65 + 97 else c as int
  }

  /** One round of the loop: a colon, then the hash of everything so far as an unsigned decimal. */
  function Round(hash: Hash, b: seq<byte>): (r: seq<byte>)
    ensures |b| + 2 <= |r| <= |b| + 21
  {
    var n := hash(b + [COLON]) % TWO_64;
    Uint64Digits(n);
    b + [COLON] + Raw(Digits(n))
  }

  function Grow(hash: Hash, b: seq<byte>, size: nat): (r: seq<byte>)
    ensures |r| >= size
    decreases size - |b|
  {
    if |b| >= size then b else Grow(hash, Round(hash, b), size)
  }

  function Deterministic(hash: Hash, key: string, field: string, size: nat): (value: seq<byte>)
    ensures |value| == size
  {
    Grow(hash, Raw(key) + [COLON] + Raw(ToLower(field)), size)[..size]
  }

  // ----- the value byte by byte

  /** The text begins with the key, a colon and the field in small letters. */
  ghost predicate Headed(key: string, field: string, text: seq<byte>) {
    && |key| + 1 + |field| <= |text|
    && (forall i :: 0 <= i < |key| ==> text[i] == key[i] as int % 256)
    && text[|key|] == 58
    && forall i :: 0 <= i < |field| ==> text[|key| + 1 + i] == LowerCode(field[i]) % 256
  }

  /** From one cut to the next: a colon, and the hash of everything up to and with it, in decimal. */
  ghost predicate Chunk(hash: Hash, text: seq<byte>, from: nat, to: nat) {
    && from < to <= |text| && text[from] == 58
    && text[from + 1..to] == Raw(Digits(hash(text[..from + 1]) % TWO_64))
  }

  /** The text is the head up to the first cut, and then chunks, the last of which ends it. */
  ghost predicate Spelled(hash: Hash, key: string, field: string, text: seq<byte>, cuts: seq<nat>) {
    && Headed(key, field, text)
    && |cuts| >= 1 && cuts[0] == |key| + 1 + |field| && cuts[|cuts| - 1] == |text|
    && forall i :: 0 <= i < |cuts| - 1 ==> Chunk(hash, text, cuts[i], cuts[i + 1])
  }

  /** No more chunks than it takes to reach the size. */
  ghost predicate Enough(cuts: seq<nat>, size: nat) {
    |cuts| >= 1 && size <= cuts[|cuts| - 1] && forall i :: 0 <= i < |cuts| - 1 ==> cuts[i] < size
  }

  ghost predicate ValueSpelled(hash: Hash, key: string, field: string, size: nat, value: seq<byte>) {
    exists text, cuts ::
      Spelled(hash, key, field, text, cuts) && Enough(cuts, size) && size <= |text| && value == text[..size]
  }

  lemma ChunkKept(hash: Hash, text: seq<byte>, longer: seq<byte>, from: nat, to: nat)
    requires Chunk(hash, text, from, to) && text <= longer
    ensures Chunk(hash, longer, from, to)
  {
    assert text[from + 1..to] == longer[from + 1..to] && text[..from + 1] == longer[..from + 1];
  }

  lemma RoundSpells(hash: Hash, key: string, field: string, text: seq<byte>, cuts: seq<nat>)
    requires Spelled(hash, key, field, text, cuts)
    ensures Spelled(hash, key, field, Round(hash, text), cuts + [|Round(hash, text)|])
  {
    hide Raw, Digits, Chunk;
    var longer := Round(hash, text);
    var cuts' := cuts + [|longer|];
    RoundIsChunk(hash, text);
    forall i | 0 <= i < |cuts'| - 1 ensures Chunk(hash, longer, cuts'[i], cuts'[i + 1]) {
      if i < |cuts| - 1 {
        ChunkKept(hash, text, longer, cuts[i], cuts[i + 1]);
      }
    }
  }

  lemma RoundIsChunk(hash: Hash, text: seq<byte>)
    ensures text <= Round(hash, text) && Chunk(hash, Round(hash, text), |text|, |Round(hash, text)|)
  {
    assert Round(hash, text)[..|text| + 1] == text + [COLON];
  }

  lemma {:induction false} GrowSpells(hash: Hash, key: string, field: string, text: seq<byte>, cuts: seq<nat>,
                                      size: nat)
    returns (longer: seq<nat>)
    requires Spelled(hash, key, field, text, cuts) && forall i :: 0 <= i < |cuts| - 1 ==> cuts[i] < size
    ensures Spelled(hash, key, field, Grow(hash, text, size), longer) && Enough(longer, size)
    decreases size - |text|
  {
    hide Chunk, Headed, Round;
    if |text| >= size {
      longer := cuts;
    } else {
      RoundSpells(hash, key, field, text, cuts);
      longer := GrowSpells(hash, key, field, Round(hash, text), cuts + [|Round(hash, text)|], size);
    }
  }

  /** The value is spelled out by its head and chunks. */
  lemma DeterministicSpelled(hash: Hash, key: string, field: string, size: nat)
    ensures ValueSpelled(hash, key, field, size, Deterministic(hash, key, field, size))
  {
    var seed := Raw(key) + [COLON] + Raw(ToLower(field));
    assert Headed(key, field, seed);
    var cuts := GrowSpells(hash, key, field, seed, [|seed|], size);
  }

  lemma {:induction false} SameUpTo(hash: Hash, key: string, field: string, text: seq<byte>, cuts: seq<nat>,
                                    text': seq<byte>, cuts': seq<nat>, i: nat)
    requires Spelled(hash, key, field, text, cuts) && Spelled(hash, key, field, text', cuts')
    requires i < |cuts| && i < |cuts'|
    ensures cuts[i] == cuts'[i] <= |text| && cuts[i] <= |text'| && text[..cuts[i]] == text'[..cuts[i]]
  {
    if i == 0 {
      SameHead(key, field, text, text');
    } else {
      SameUpTo(hash, key, field, text, cuts, text', cuts', i - 1);
      assert Chunk(hash, text, cuts[i - 1], cuts[i - 1 + 1]) && Chunk(hash, text', cuts'[i - 1], cuts'[i - 1 + 1]);
      SameChunk(hash, text, text', cuts[i - 1], cuts[i], cuts'[i]);
    }
  }

  lemma SameHead(key: string, field: string, text: seq<byte>, text': seq<byte>)
    requires Headed(key, field, text) && Headed(key, field, text')
    ensures text[..|key| + 1 + |field|] == text'[..|key| + 1 + |field|]
  {
    forall i | 0 <= i < |key| + 1 + |field| ensures text[i] == text'[i] {
      if i > |key| {
        var j := i - |key| - 1;
        assert text[i] == LowerCode(field[j]) % 256 == text'[i];
      }
    }
  }

  lemma SameChunk(hash: Hash, text: seq<byte>, text': seq<byte>, from: nat, to: nat, to': nat)
    requires Chunk(hash, text, from, to) && Chunk(hash, text', from, to') && text[..from] == text'[..from]
    ensures to == to' && text[..to] == text'[..to]
  {
    hide Raw, Digits;
    assert text[..from + 1] == text[..from] + [text[from]] && text'[..from + 1] == text'[..from] + [text'[from]];
    assert text[..to] == text[..from + 1] + text[from + 1..to];
    assert text'[..to'] == text'[..from + 1] + text'[from + 1..to'];
  }

  /** Nothing else is spelled out that way, so head and chunks say what the value is. */
  lemma SpelledUnique(hash: Hash, key: string, field: string, size: nat, value: seq<byte>)
    requires ValueSpelled(hash, key, field, size, value)
    ensures value == Deterministic(hash, key, field, size)
  {
    hide Deterministic, Chunk, Headed;
    DeterministicSpelled(hash, key, field, size);
    var expected := Deterministic(hash, key, field, size);
    var text, cuts :|
      Spelled(hash, key, field, text, cuts) && Enough(cuts, size) && size <= |text| && value == text[..size];
    var text', cuts' :|
      Spelled(hash, key, field, text', cuts') && Enough(cuts', size) && size <= |text'| && expected == text'[..size];
    var i := if |cuts| < |cuts'| then |cuts| - 1 else |cuts'| - 1;
    SameUpTo(hash, key, field, text, cuts, text', cuts', i);
    assert size <= cuts[i];
    assert text[..size] == text[..cuts[i]][..size] && text'[..size] == text'[..cuts[i]][..size];
  }

  /**
   The buffer is asked for with 21 bytes to spare. It is outgrown exactly when the key and the field
   do not fit in it to begin with: no round of the loop ever outgrows it.
   */
  method BuildDeterministicValue(hash: Hash, key: string, field: string, size: nat, capacity: nat)
    returns (value: seq<byte>, outgrown: bool)
    requires capacity >= size + 21
    ensures value == Deterministic(hash, key, field, size) && |value| == size
    ensures ValueSpelled(hash, key, field, size, value)
    ensures outgrown <==> |key| + 1 + |field| > capacity
  {
    var b := Raw(key);
    b := b + [COLON];
    b := b + Raw(ToLower(field));
    outgrown := |b| > capacity;
    ghost var seed := b;
    while |b| < size
      invariant Grow(hash, b, size) == Grow(hash, seed, size)
      invariant outgrown <==> |seed| > capacity
      decreases size - |b|
    {
      b := Round(hash, b);
      outgrown := outgrown || |b| > capacity;
    }
    value := b[..size];
    DeterministicSpelled(hash, key, field, size);
  }

  // ----- building and verifying rows

  datatype Workload = Workload(
    table: string,
    fieldNames: seq<string>,
    readAllFields: bool,
    writeAllFields: bool,
    fieldLength: nat,
    hash: Hash)
  {
    ghost predicate Valid(c: Codec) {
      fieldLength < TWO_63 && c.Valid() && fieldNames == c.fields && fieldNames != []
    }

    ghost predicate Genuine(key: string, values: Fields) {
      forall f :: f in values ==> values[f] == Deterministic(hash, key, f, fieldLength)
    }

    /** Every configured field with its deterministic value. */
    ghost function FullRow(key: string): (row: Fields)
      requires fieldLength < TWO_63
      ensures Genuine(key, row) && row.Keys == set f | f in fieldNames
    {
      map f | f in fieldNames :: Deterministic(hash, key, f, fieldLength)
    }

    /** What an update writes: the full row or one chosen field of it. */
    ghost function Written(key: string, pick: nat): (row: Fields)
      requires fieldLength < TWO_63 && pick < |fieldNames|
      ensures Genuine(key, row)
      ensures forall f :: f in row <==> f == fieldNames[pick] || (writeAllFields && f in fieldNames)
    {
      if writeAllFields then FullRow(key)
      else map[fieldNames[pick] := Deterministic(hash, key, fieldNames[pick], fieldLength)]
    }

    method BuildValues(key: string) returns (values: Fields)
      requires fieldLength < TWO_63
      ensures values == FullRow(key) && Genuine(key, values) && forall f :: f in values <==> f in fieldNames
    {
      hide Deterministic, ValueSpelled;
      values := map[];
      for i := 0 to |fieldNames|
        invariant Genuine(key, values) && forall f :: f in values <==> f in fieldNames[..i]
      {
        var value, _ := BuildDeterministicValue(hash, key, fieldNames[i], fieldLength, fieldLength + 21);
        values := values[fieldNames[i] := value];
      }
    }

    method BuildSingleValue(key: string, pick: nat) returns (values: Fields)
      requires fieldLength < TWO_63 && pick < |fieldNames|
      ensures Genuine(key, values) && values.Keys == {fieldNames[pick]}
    {
      var value, _ := BuildDeterministicValue(hash, key, fieldNames[pick], fieldLength, fieldLength + 21);
      values := map[fieldNames[pick] := value];
    }

    /** True when no field is reported as unexpected. */
    method VerifyRow(key: string, values: Fields) returns (ok: bool)
      ensures ok <==> Genuine(key, values)
    {
      if |values| == 0 {
        return true;
      }
      var pending := values.Keys;
      while pending != {}
        invariant pending <= values.Keys
        invariant forall f :: f in values && f !in pending ==> values[f] == Deterministic(hash, key, f, fieldLength)
        decreases pending
      {
        var f :| f in pending;
        var expected, _ := BuildDeterministicValue(hash, key, f, fieldLength, fieldLength + 21);
        if expected != values[f] {
          return false;
        }
        pending := pending - {f};
      }
      ok := true;
    }

    // ----- the store holds only genuine values

    ghost predicate GenuineTable(rows: Table) {
      forall k :: k in rows ==> Genuine(k, rows[k])
    }

    /** An operation as the workload issues it: what it writes is derived from its key. */
    ghost predicate Issues(c: Codec, op: Op) {
      && KnownOp(c, op)
      && (op.Insert? || op.Update? ==> Genuine(op.key, op.values))
    }

    lemma EffectStaysGenuine(c: Codec, rows: Table, op: Op)
      requires GenuineTable(rows) && Issues(c, op)
      ensures GenuineTable(Effect(rows, op))
    {
      var rows' := Effect(rows, op);
      forall k | k in rows' ensures Genuine(k, rows'[k]) {
        assert k in rows ==> Genuine(k, rows[k]);
      }
    }

    lemma {:induction false} StaysGenuine(c: Codec, ops: seq<Op>)
      requires forall i :: 0 <= i < |ops| ==> Issues(c, ops[i])
      ensures GenuineTable(After(ops))
    {
      if ops != [] {
        StaysGenuine(c, ops[..|ops| - 1]);
        EffectStaysGenuine(c, After(ops[..|ops| - 1]), ops[|ops| - 1]);
      }
    }

    lemma AnswerIsGenuine(rows: Table, key: string, fields: seq<string>)
      requires GenuineTable(rows)
      ensures var resp := Answer(rows, Op.Read(key, fields)); resp.Found? ==> Genuine(key, resp.row)
    {
      if key in rows {
        assert Genuine(key, rows[key]);
      }
    }

    /**
     Over every run of inserts, updates, deletes, scans and reads that the workload can issue, from an
     empty store and through the encoded bytes, no read ever yields a row that fails verification.
     */
    lemma EveryReadVerifies(c: Codec, ops: seq<Op>, stores: seq<Store>, resps: seq<Response>, n: nat)
      requires c.Valid() && ByteRun(c, table, ops, stores, resps)
      requires forall i :: 0 <= i < |ops| ==> Issues(c, ops[i])
      requires n < |ops| && ops[n].Read? && resps[n].Found?
      ensures Genuine(ops[n].key, resps[n].row)
    {
      RunRefines(c, table, ops, stores, resps);
      StaysGenuine(c, ops[..n]);
      AnswerIsGenuine(After(ops[..n]), ops[n].key, ops[n].fields);
    }

    /** The same as a state invariant: the stored bytes stand for some table of genuine rows. */
    ghost predicate Sound(c: Codec, store: Store) {
      exists rows :: Refines(c, table, store, rows) && GenuineTable(rows)
    }

    lemma WriteKeepsSound(c: Codec, store: Store, op: Op, store': Store, resp: Response)
      requires c.Valid() && Sound(c, store) && Issues(c, op) && (op.Insert? || op.Update?)
      requires ByteStep(c, table, store, op, store', resp)
      ensures Sound(c, store') && (resp == Done || (op.Update? && resp == NotFound && store' == store))
    {
      hide RowKey, Deterministic;
      var rows :| Refines(c, table, store, rows) && GenuineTable(rows);
      StepRefines(c, table, store, rows, op, store', resp);
      EffectStaysGenuine(c, rows, op);
    }

    lemma ReadIsGenuine(c: Codec, store: Store, key: string, fields: seq<string>, resp: Response)
      requires c.Valid() && Sound(c, store) && (forall f :: f in fields ==> f in c.fields)
      requires ReadStep(c, RowKey(table, key), fields, store, resp)
      ensures resp == NotFound || (resp.Found? && Genuine(key, resp.row))
    {
      hide RowKey, Deterministic;
      var rows :| Refines(c, table, store, rows) && GenuineTable(rows);
      if key in rows {
        ReadRefines(c, table, store, rows, key, fields, resp);
        AnswerIsGenuine(rows, key, fields);
      }
    }

    lemma ReadIsChosen(c: Codec, store: Store, key: string, fields: seq<string>, resp: Response)
      requires ReadStep(c, RowKey(table, key), fields, store, resp) && resp.Found? && fields != []
      ensures forall f :: f in resp.row ==> f in fields
    {}

    function ReadFields(pick: nat): (fields: seq<string>)
      requires pick < |fieldNames|
      ensures fields != [] && forall f :: f in fields <==> f == fieldNames[pick] || (readAllFields && f in fieldNames)
    {
      if readAllFields then fieldNames else [fieldNames[pick]]
    }

    method BuildUpdate(key: string, pick: nat) returns (values: Fields)
      requires fieldLength < TWO_63 && pick < |fieldNames|
      ensures values == Written(key, pick) && Genuine(key, values) && forall f :: f in values ==> f in fieldNames
    {
      if writeAllFields {
        values := BuildValues(key);
      } else {
        values := BuildSingleValue(key, pick);
      }
    }

    /** Bytes and answer change as the operation says, for whatever table the bytes stand for. */
    ghost predicate ActsAs(c: Codec, store: Store, op: Op, store': Store, resp: Response) {
      forall rows :: Refines(c, table, store, rows) ==>
                       Refines(c, table, store', Effect(rows, op)) && resp == Answer(rows, op)
    }

    lemma StepActs(c: Codec, store: Store, op: Op, store': Store, resp: Response)
      requires c.Valid() && KnownOp(c, op) && ByteStep(c, table, store, op, store', resp)
      ensures ActsAs(c, store, op, store', resp)
    {
      hide ByteStep, Refines, Effect, Answer;
      forall rows | Refines(c, table, store, rows)
        ensures Refines(c, table, store', Effect(rows, op)) && resp == Answer(rows, op)
      {
        StepRefines(c, table, store, rows, op, store', resp);
      }
    }

    /** Stores the full row under the key, whatever was there before. */
    method DoInsert(db: BadgerDB, key: string) returns (resp: Response)
      requires Valid(db.codec)
      modifies db
      ensures resp == Done && (old(Sound(db.codec, db.store)) ==> Sound(db.codec, db.store))
      ensures ActsAs(db.codec, old(db.store), Op.Insert(key, FullRow(key)), db.store, resp)
    {
      hide Sound, ActsAs, UpdateStep, ReadStep, RowKey, Deterministic;
      var values := BuildValues(key);
      ghost var before := db.store;
      resp := db.Insert(table, key, values);
      if Sound(db.codec, before) {
        WriteKeepsSound(db.codec, before, Op.Insert(key, values), db.store, resp);
      }
      StepActs(db.codec, before, Op.Insert(key, values), db.store, resp);
    }

    /** Merges the written fields into an existing row. */
    method DoUpdate(db: BadgerDB, key: string, pick: nat) returns (resp: Response)
      requires Valid(db.codec) && pick < |fieldNames|
      modifies db
      ensures old(Sound(db.codec, db.store)) ==>
                Sound(db.codec, db.store) && (resp == Done || (resp == NotFound && db.store == old(db.store)))
      ensures ActsAs(db.codec, old(db.store), Op.Update(key, Written(key, pick)), db.store, resp)
    {
      hide Sound, ActsAs, InsertStep, UpdateStep, ReadStep, RowKey, Deterministic;
      var values := BuildUpdate(key, pick);
      ghost var before := db.store;
      resp := db.Update(table, key, values);
      if Sound(db.codec, before) {
        WriteKeepsSound(db.codec, before, Op.Update(key, values), db.store, resp);
      }
      StepActs(db.codec, before, Op.Update(key, values), db.store, resp);
    }

    /** Reads and verifies what it read; in a sound store the verdict is never a mismatch. */
    method DoRead(db: BadgerDB, key: string, pick: nat) returns (resp: Response, ok: bool)
      requires Valid(db.codec) && pick < |fieldNames|
      ensures ok <==> (resp.Found? ==> Genuine(key, resp.row))
      ensures Sound(db.codec, db.store) ==> ok && (resp.Found? || resp == NotFound)
      ensures ActsAs(db.codec, db.store, Op.Read(key, ReadFields(pick)), db.store, resp)
      ensures resp.Found? ==> forall f :: f in resp.row ==> readAllFields || f == fieldNames[pick]
    {
      hide Sound, ActsAs, InsertStep, UpdateStep, ReadStep, RowKey, Deterministic;
      var fields := ReadFields(pick);
      resp := db.Read(table, key, fields);
      if Sound(db.codec, db.store) {
        ReadIsGenuine(db.codec, db.store, key, fields, resp);
      }
      StepActs(db.codec, db.store, Op.Read(key, fields), db.store, resp);
      ok := true;
      if resp.Found? {
        ReadIsChosen(db.codec, db.store, key, fields, resp);
        ok := VerifyRow(key, resp.row);
      }
    }

    /** A read that finds nothing leaves nothing for an update to merge into. */
    lemma MissedReadActs(c: Codec, store: Store, key: string, fields: seq<string>, values: Fields, resp: Response)
      requires !resp.Found? && ActsAs(c, store, Op.Read(key, fields), store, resp)
      ensures ActsAs(c, store, Op.Update(key, values), store, resp)
    {
      hide Refines, Effect, Answer;
      var op := Op.Update(key, values);
      forall rows | Refines(c, table, store, rows)
        ensures Refines(c, table, store, Effect(rows, op)) && resp == Answer(rows, op)
      {
        MissedRead(rows, key, fields, values);
      }
    }

    lemma MissedRead(rows: Table, key: string, fields: seq<string>, values: Fields)
      requires !Answer(rows, Op.Read(key, fields)).Found?
      ensures Answer(rows, Op.Read(key, fields)) == NotFound
      ensures Effect(rows, Op.Update(key, values)) == rows && Answer(rows, Op.Update(key, values)) == NotFound
    {
      hide Chosen;
    }

    lemma ReadDetermined(c: Codec, store: Store, key: string, fields: seq<string>, resp: Response, other: Response)
      requires ReadStep(c, RowKey(table, key), fields, store, resp)
      requires ReadStep(c, RowKey(table, key), fields, store, other)
      ensures resp == other
    {}

    /**
     The verdict on a read-modify-write is about what was read before the write; it is only passed when
     the write went through.
     */
    ghost predicate JudgesFirstRead(c: Codec, store: Store, key: string, fields: seq<string>, written: bool, ok: bool) {
      forall read :: ReadStep(c, RowKey(table, key), fields, store, read) ==>
                       (ok <==> (read.Found? && written ==> Genuine(key, read.row)))
    }

    lemma FirstReadJudged(c: Codec, store: Store, key: string, fields: seq<string>, read: Response, written: bool,
                          ok: bool)
      requires ReadStep(c, RowKey(table, key), fields, store, read)
      requires ok <==> (read.Found? && written ==> Genuine(key, read.row))
      ensures JudgesFirstRead(c, store, key, fields, written, ok)
    {
      hide ReadStep, RowKey, Genuine;
      forall other | ReadStep(c, RowKey(table, key), fields, store, other) ensures other == read {
        ReadDetermined(c, store, key, fields, read, other);
      }
    }

    /** Reads, writes, and only then verifies what was read; in the store it is an update. */
    method DoReadModifyWrite(db: BadgerDB, key: string, readPick: nat, writePick: nat)
      returns (resp: Response, ok: bool)
      requires Valid(db.codec) && readPick < |fieldNames| && writePick < |fieldNames|
      modifies db
      ensures old(Sound(db.codec, db.store)) ==>
                Sound(db.codec, db.store) && ok && (resp == Done || (resp == NotFound && db.store == old(db.store)))
      ensures ActsAs(db.codec, old(db.store), Op.Update(key, Written(key, writePick)), db.store, resp)
      ensures JudgesFirstRead(db.codec, old(db.store), key, ReadFields(readPick), resp == Done, ok)
    {
      hide Sound, ActsAs, JudgesFirstRead, InsertStep, UpdateStep, ReadStep, RowKey, Deterministic;
      var fields := ReadFields(readPick);
      var values := BuildUpdate(key, writePick);
      ghost var before := db.store;
      resp := db.Read(table, key, fields);
      ghost var read := resp;
      if Sound(db.codec, before) {
        ReadIsGenuine(db.codec, before, key, fields, resp);
      }
      ok := true;
      if !resp.Found? {
        StepActs(db.codec, before, Op.Read(key, fields), before, resp);
        MissedReadActs(db.codec, before, key, fields, values, resp);
        FirstReadJudged(db.codec, before, key, fields, read, resp == Done, ok);
        return;
      }
      var readValues := resp.row;
      resp := db.Update(table, key, values);
      if Sound(db.codec, before) {
        WriteKeepsSound(db.codec, before, Op.Update(key, values), db.store, resp);
      }
      StepActs(db.codec, before, Op.Update(key, values), db.store, resp);
      if resp != Done {
        FirstReadJudged(db.codec, before, key, fields, read, false, ok);
        return;
      }
      ok := VerifyRow(key, readValues);
      FirstReadJudged(db.codec, before, key, fields, read, true, ok);
    }
  }
}
