/** Single-row and multi-row INSERT IGNORE statements with positional arguments. */
module MySqlInsert {
  import Varint
  import opened Row
  import opened RowCodec
  import opened Lexicographic

  type Cell = seq<Varint.byte>

  /** A positional argument. To the server both kinds are strings of bytes. */
  datatype Arg = Key(key: string) | Value(value: Bytes)
  {
    function AsKey(): string {
      match this
      case Key(key) => key
      case Value(value) => seq(|value|, i requires 0 <= i < |value| => value[i] as char)
    }

    function AsCell(): Cell {
      match this
      case Key(key) => seq(|key|, i requires 0 <= i < |key| => key[i] as int % 256)
      case Value(value) => value
    }
  }

  datatype FieldPair = FieldPair(field: string, value: Bytes)

  // ----- building the statements

  /** The fields of a row in ascending order. */
  ghost function SortedFields(values: Fields): (fields: seq<string>)
    ensures Enumerates(fields, values.Keys)
    ensures forall i :: 0 <= i < |fields| ==> fields[i] in values
  {
    var fields := Ascending(values.Keys);
    assert forall i :: 0 <= i < |fields| ==> fields[i] in fields;
    fields
  }

  ghost function SortedPairs(values: Fields): (pairs: seq<FieldPair>) {
    var fields := SortedFields(values);
    seq(|fields|, i requires 0 <= i < |fields| => FieldPair(fields[i], values[fields[i]]))
  }

  /** Fields are distinct, so sorting the pairs has one outcome: the sorted fields with their values. */
  method NewFieldPairs(values: Fields) returns (pairs: seq<FieldPair>)
    ensures pairs == SortedPairs(values)
  {
    var fields := SortKeys(values.Keys);
    assert fields == SortedFields(values);
    pairs := [];
    for i := 0 to |fields|
      invariant pairs == SortedPairs(values)[..i]
    {
      pairs := pairs + [FieldPair(fields[i], values[fields[i]])];
    }
  }

  function ColumnList(fields: seq<string>): string {
    if fields == [] then "" else ColumnList(fields[..|fields| - 1]) + " ," + fields[|fields| - 1]
  }

  function Placeholders(n: nat): string {
    if n == 0 then "" else Placeholders(n - 1) + " ,?"
  }

  function Tuple(m: nat): string {
    "(?" + Placeholders(m) + ")"
  }

  function Join(tuple: string, n: nat): string {
    if n == 0 then "" else if n == 1 then tuple else Join(tuple, n - 1) + "," + tuple
  }

  function Render(table: string, fields: seq<string>, rows: nat): string {
    "INSERT IGNORE INTO " + table + " (YCSB_KEY" + ColumnList(fields) + ") VALUES " + Join(Tuple(|fields|), rows)
  }

  /** The key, then the values in the order of the sorted fields. */
  ghost function RowArgs(key: string, values: Fields): (args: seq<Arg>)
    ensures |args| == 1 + |SortedFields(values)|
  {
    var fields := SortedFields(values);
    [Key(key)] + seq(|fields|, i requires 0 <= i < |fields| => Value(values[fields[i]]))
  }

  ghost function BatchArgs(keys: seq<string>, values: seq<Fields>): seq<Arg>
    requires |keys| <= |values|
  {
    if keys == [] then []
    else BatchArgs(keys[..|keys| - 1], values) + RowArgs(keys[|keys| - 1], values[|keys| - 1])
  }

  method AppendRow(args: seq<Arg>, key: string, values: Fields) returns (longer: seq<Arg>)
    ensures longer == args + RowArgs(key, values)
  {
    var pairs := NewFieldPairs(values);
    longer := args + [Key(key)];
    for i := 0 to |pairs|
      invariant longer == args + RowArgs(key, values)[..1 + i]
    {
      assert RowArgs(key, values)[..2 + i] == RowArgs(key, values)[..1 + i] + [Value(pairs[i].value)];
      longer := longer + [Value(pairs[i].value)];
    }
    assert RowArgs(key, values)[..1 + |pairs|] == RowArgs(key, values);
  }

  method WriteColumns(pairs: seq<FieldPair>, ghost fields: seq<string>) returns (columns: string, marks: string)
    requires |pairs| == |fields| && forall i :: 0 <= i < |pairs| ==> pairs[i].field == fields[i]
    ensures columns == ColumnList(fields) && marks == Placeholders(|fields|)
  {
    columns, marks := "", "";
    for i := 0 to |pairs|
      invariant columns == ColumnList(fields[..i]) && marks == Placeholders(i)
    {
      assert fields[..i + 1][..i] == fields[..i];
      columns := columns + " ," + pairs[i].field;
      marks := marks + " ,?";
    }
    assert fields[..|fields|] == fields;
  }

  // ----- what executing them does

  type Rows = map<string, map<string, Cell>>

  /** A tuple binds its first argument to the key and argument j + 1 to column j. */
  function Bind(columns: seq<string>, args: seq<Arg>): map<string, Cell>
    requires |args| == 1 + |columns|
    decreases |columns|
  {
    if columns == [] then map[]
    else
      Bind(columns[..|columns| - 1], args[..|args| - 1])[columns[|columns| - 1] := args[|args| - 1].AsCell()]
  }

  /** IGNORE: a row whose key is already there is left alone. */
  function InsertTuple(t: Rows, columns: seq<string>, args: seq<Arg>): Rows
    requires |args| == 1 + |columns|
  {
    if args[0].AsKey() in t then t else t[args[0].AsKey() := Bind(columns, args)]
  }

  /** The tuples of a statement in order; with a wrong number of arguments the server refuses it. */
  function Execute(t: Rows, columns: seq<string>, rows: nat, args: seq<Arg>): Rows {
    if |args| != rows * (1 + |columns|) then t else ExecuteTuples(t, columns, rows, args)
  }

  function ExecuteTuples(t: Rows, columns: seq<string>, rows: nat, args: seq<Arg>): Rows
    requires |args| == rows * (1 + |columns|)
  {
    if rows == 0 then t
    else
      var width := 1 + |columns|;
      assert |args| - width == (rows - 1) * width;
      InsertTuple(ExecuteTuples(t, columns, rows - 1, args[..|args| - width]), columns, args[|args| - width..])
  }

  ghost function InsertOne(t: Rows, key: string, values: Fields): Rows {
    Execute(t, SortedFields(values), 1, RowArgs(key, values))
  }

  ghost function InsertEach(t: Rows, keys: seq<string>, values: seq<Fields>): Rows
    requires |keys| <= |values|
  {
    if keys == [] then t
    else InsertOne(InsertEach(t, keys[..|keys| - 1], values), keys[|keys| - 1], values[|keys| - 1])
  }

  ghost function InsertBatch(t: Rows, keys: seq<string>, values: seq<Fields>): Rows
    requires |keys| <= |values| && values != []
  {
    Execute(t, SortedFields(values[0]), |keys|, BatchArgs(keys, values))
  }

  lemma BindOneMore(columns: seq<string>, args: seq<Arg>)
    requires |args| == 1 + |columns| && columns != []
    ensures var n := |columns| - 1;
            Bind(columns, args) == Bind(columns[..n], args[..n + 1])[columns[n] := args[n + 1].AsCell()]
  {}

  lemma {:induction false} BindNames(columns: seq<string>, args: seq<Arg>, f: string)
    requires |args| == 1 + |columns|
    ensures f in Bind(columns, args) <==> f in columns
  {
    if columns != [] {
      hide Bind;
      var n := |columns| - 1;
      BindNames(columns[..n], args[..n + 1], f);
      BindOneMore(columns, args);
      assert f in columns <==> f in columns[..n] || f == columns[n];
    }
  }

  lemma {:induction false} BindAt(columns: seq<string>, args: seq<Arg>, j: nat)
    requires |args| == 1 + |columns| && Sorted(columns) && j < |columns|
    ensures columns[j] in Bind(columns, args) && Bind(columns, args)[columns[j]] == args[j + 1].AsCell()
  {
    hide Bind, Less;
    var n := |columns| - 1;
    BindOneMore(columns, args);
    if j < n {
      BindAt(columns[..n], args[..n + 1], j);
      Irreflexive(columns[j]);
      assert columns[j] != columns[n];
    }
  }

  lemma BindRow(columns: seq<string>, args: seq<Arg>)
    requires |args| == 1 + |columns| && Sorted(columns)
    ensures forall f :: f in Bind(columns, args) <==> f in columns
    ensures forall j :: 0 <= j < |columns| ==>
              columns[j] in Bind(columns, args) && Bind(columns, args)[columns[j]] == args[j + 1].AsCell()
  {
    hide Bind, Sorted;
    forall f ensures f in Bind(columns, args) <==> f in columns {
      BindNames(columns, args, f);
    }
    forall j | 0 <= j < |columns|
      ensures columns[j] in Bind(columns, args) && Bind(columns, args)[columns[j]] == args[j + 1].AsCell()
    {
      BindAt(columns, args, j);
    }
  }

  lemma ArgOfField(key: string, values: Fields, j: nat)
    requires j < |SortedFields(values)|
    ensures RowArgs(key, values)[j + 1] == Value(values[SortedFields(values)[j]])
  {}

  lemma BindOwnField(key: string, values: Fields, f: string)
    ensures var row := Bind(SortedFields(values), RowArgs(key, values));
            (f in row <==> f in values) && (f in values ==> row[f] == values[f])
  {
    hide Bind, RowArgs;
    BindRow(SortedFields(values), RowArgs(key, values));
    if f in values {
      var j :| 0 <= j < |SortedFields(values)| && SortedFields(values)[j] == f;
      ArgOfField(key, values, j);
    }
  }

  lemma BindOwnRow(key: string, values: Fields)
    ensures Bind(SortedFields(values), RowArgs(key, values)) == values
  {
    hide Bind, SortedFields, RowArgs;
    forall f ensures var row := Bind(SortedFields(values), RowArgs(key, values));
                     (f in row <==> f in values) && (f in values ==> row[f] == values[f])
    {
      BindOwnField(key, values, f);
    }
  }

  lemma InsertOneIsTuple(t: Rows, key: string, values: Fields)
    ensures InsertOne(t, key, values) == InsertTuple(t, SortedFields(values), RowArgs(key, values))
  {
    var columns, args := SortedFields(values), RowArgs(key, values);
    assert 1 * (1 + |columns|) == |args|;
    assert args[|args| - (1 + |columns|)..] == args && args[..|args| - (1 + |columns|)] == [];
    assert ExecuteTuples(t, columns, 0, []) == t;
  }

  /** A single-row insert adds exactly the given row, unless the key is taken. */
  lemma InsertOneMeaning(t: Rows, key: string, values: Fields)
    ensures InsertOne(t, key, values) == if key in t then t else t[key := values]
  {
    InsertOneIsTuple(t, key, values);
    BindOwnRow(key, values);
  }

  /** All rows of the batch have as many fields as the first. */
  ghost predicate SameCounts(keys: seq<string>, values: seq<Fields>)
    requires |keys| <= |values|
  {
    forall i :: 0 <= i < |keys| ==> |SortedFields(values[i])| == |SortedFields(values[0])|
  }

  lemma {:induction false} BatchWidth(keys: seq<string>, values: seq<Fields>)
    requires |keys| <= |values| && values != [] && SameCounts(keys, values)
    ensures |BatchArgs(keys, values)| == |keys| * (1 + |SortedFields(values[0])|)
  {
    if keys != [] {
      BatchWidth(keys[..|keys| - 1], values);
      var w := 1 + |SortedFields(values[0])|;
      assert |RowArgs(keys[|keys| - 1], values[|keys| - 1])| == w;
      assert |keys| * w == (|keys| - 1) * w + w;
    }
  }

  lemma RowsBefore(i: nat, last: nat, w: nat)
    requires i < last
    ensures 0 <= i * w <= (i + 1) * w <= last * w
  {
    var d := last - (i + 1);
    MultipleOf(d, w);
    MultipleOf(i, w);
    assert last * w == d * w + (i + 1) * w;
    assert (i + 1) * w == i * w + w;
  }

  lemma MultipleOf(d: nat, w: nat)
    ensures d * w >= 0
  {}

  /** Argument i*(1+m) is the key of row i, and argument i*(1+m)+j+1 its value for the j-th sorted field. */
  lemma {:induction false} BatchBinding(keys: seq<string>, values: seq<Fields>, i: nat)
    requires |keys| <= |values| && values != [] && SameCounts(keys, values) && i < |keys|
    ensures var w := 1 + |SortedFields(values[0])|;
            && 0 <= i * w <= (i + 1) * w <= |BatchArgs(keys, values)|
            && BatchArgs(keys, values)[i * w..(i + 1) * w] == RowArgs(keys[i], values[i])
    decreases |keys|
  {
    hide SortedFields, RowArgs;
    var w, last := 1 + |SortedFields(values[0])|, |keys| - 1;
    BatchWidth(keys[..last], values);
    BatchWidth(keys, values);
    RowsBefore(i, |keys|, w);
    var args, front, row := BatchArgs(keys, values), BatchArgs(keys[..last], values), RowArgs(keys[last], values[last]);
    assert args == front + row;
    if i == last {
      assert args[last * w..(last + 1) * w] == row;
    } else {
      RowsBefore(i, last, w);
      BatchBinding(keys[..last], values, i);
      assert args[i * w..(i + 1) * w] == front[i * w..(i + 1) * w];
    }
  }

  /** One batch is the insertion of its tuples in order, each under the columns of the first row. */
  lemma BatchUnfolds(t: Rows, keys: seq<string>, values: seq<Fields>)
    requires 0 < |keys| <= |values| && SameCounts(keys, values)
    ensures InsertBatch(t, keys, values) ==
            InsertTuple(InsertBatch(t, keys[..|keys| - 1], values), SortedFields(values[0]),
                        RowArgs(keys[|keys| - 1], values[|keys| - 1]))
  {
    var last := |keys| - 1;
    var columns := SortedFields(values[0]);
    BatchWidth(keys, values);
    BatchWidth(keys[..last], values);
    var args, front, row := BatchArgs(keys, values), BatchArgs(keys[..last], values), RowArgs(keys[last], values[last]);
    assert args[..|args| - (1 + |columns|)] == front && args[|args| - (1 + |columns|)..] == row;
  }

  lemma EachUnfolds(t: Rows, keys: seq<string>, values: seq<Fields>)
    requires 0 < |keys| <= |values|
    ensures var last := |keys| - 1;
            InsertEach(t, keys, values) == InsertOne(InsertEach(t, keys[..last], values), keys[last], values[last])
  {}

  lemma EmptyBatch(t: Rows, values: seq<Fields>)
    requires values != []
    ensures InsertBatch(t, [], values) == t == InsertEach(t, [], values)
  {
    assert BatchArgs([], values) == [];
  }

  lemma SortedFieldsOf(a: Fields, b: Fields)
    requires a.Keys == b.Keys
    ensures SortedFields(a) == SortedFields(b)
  {
    EnumerationUnique(SortedFields(a), SortedFields(b), a.Keys);
  }

  // ----- one by one, or all at once

  /** Row i takes effect: its key is neither in the table nor used by an earlier row. */
  ghost predicate Takes(t: Rows, keys: seq<string>, i: int) {
    0 <= i < |keys| && keys[i] !in t && keys[i] !in keys[..i]
  }

  lemma TakesInPrefix(t: Rows, keys: seq<string>, n: nat, i: int)
    requires i < n <= |keys|
    ensures Takes(t, keys[..n], i) <==> Takes(t, keys, i)
  {
    if 0 <= i {
      assert keys[..n][..i] == keys[..i];
    }
  }

  /** A row bound to the columns of the first one. */
  ghost function BoundRow(first: Fields, key: string, values: Fields): (row: map<string, Cell>)
    requires |SortedFields(values)| == |SortedFields(first)|
    ensures row.Keys == first.Keys
    ensures values.Keys == first.Keys ==> row == values
  {
    BoundFields(first, key, values);
    Bind(SortedFields(first), RowArgs(key, values))
  }

  lemma BoundFields(first: Fields, key: string, values: Fields)
    requires |SortedFields(values)| == |SortedFields(first)|
    ensures Bind(SortedFields(first), RowArgs(key, values)).Keys == first.Keys
    ensures values.Keys == first.Keys ==> Bind(SortedFields(first), RowArgs(key, values)) == values
  {
    hide Bind, RowArgs;
    BindRow(SortedFields(first), RowArgs(key, values));
    if values.Keys == first.Keys {
      SortedFieldsOf(values, first);
      BindOwnRow(key, values);
    }
  }

  /** A batch grows by its last row, bound to the columns of the first, unless the key is taken. */
  lemma BatchGrows(t: Rows, keys: seq<string>, values: seq<Fields>)
    requires 0 < |keys| <= |values| && SameCounts(keys, values)
    ensures var last := |keys| - 1;
            var before := InsertBatch(t, keys[..last], values);
            && SameCounts(keys[..last], values)
            && |SortedFields(values[last])| == |SortedFields(values[0])|
            && InsertBatch(t, keys, values) ==
               if keys[last] in before then before
               else before[keys[last] := BoundRow(values[0], keys[last], values[last])]
  {
    hide InsertBatch, SortedFields;
    BatchUnfolds(t, keys, values);
  }

  lemma EachGrows(t: Rows, keys: seq<string>, values: seq<Fields>)
    requires 0 < |keys| <= |values|
    ensures var last := |keys| - 1;
            var before := InsertEach(t, keys[..last], values);
            InsertEach(t, keys, values) == if keys[last] in before then before else before[keys[last] := values[last]]
  {
    hide *;
    EachUnfolds(t, keys, values);
    InsertOneMeaning(InsertEach(t, keys[..|keys| - 1], values), keys[|keys| - 1], values[|keys| - 1]);
  }

  /** What inserting one by one leaves: the table, and every row that takes effect as it is. */
  lemma {:induction false} EachEntries(t: Rows, keys: seq<string>, values: seq<Fields>)
    requires |keys| <= |values|
    ensures forall k :: k in InsertEach(t, keys, values) <==> k in t || k in keys
    ensures forall i :: Takes(t, keys, i) ==> InsertEach(t, keys, values)[keys[i]] == values[i]
    decreases |keys|
  {
    hide InsertEach;
    if keys == [] {
      EmptyEach(t, values);
    } else {
      var last := |keys| - 1;
      EachEntries(t, keys[..last], values);
      EachGrows(t, keys, values);
      assert keys == keys[..last] + [keys[last]];
      forall i | Takes(t, keys, i) ensures InsertEach(t, keys, values)[keys[i]] == values[i] {
        if i < last {
          TakesInPrefix(t, keys, last, i);
        }
      }
    }
  }

  lemma {:induction false} EachKeeps(t: Rows, keys: seq<string>, values: seq<Fields>)
    requires |keys| <= |values|
    ensures forall k :: k in t ==> k in InsertEach(t, keys, values) && InsertEach(t, keys, values)[k] == t[k]
    decreases |keys|
  {
    hide InsertEach;
    if keys == [] {
      EmptyEach(t, values);
    } else {
      EachKeeps(t, keys[..|keys| - 1], values);
      EachGrows(t, keys, values);
    }
  }

  lemma EmptyEach(t: Rows, values: seq<Fields>)
    ensures InsertEach(t, [], values) == t
  {}

  lemma {:induction false} BatchKeys(t: Rows, keys: seq<string>, values: seq<Fields>, k: string)
    requires |keys| <= |values| && values != [] && SameCounts(keys, values)
    ensures k in InsertBatch(t, keys, values) <==> k in t || k in keys
    decreases |keys|
  {
    hide InsertBatch, BoundRow, SortedFields;
    if keys == [] {
      EmptyBatch(t, values);
    } else {
      BatchGrows(t, keys, values);
      BatchKeys(t, keys[..|keys| - 1], values, k);
      assert k in keys <==> k in keys[..|keys| - 1] || k == keys[|keys| - 1];
    }
  }

  /** What a batch makes of a row that takes effect: it is bound to the columns of the first. */
  lemma {:induction false} BatchEntry(t: Rows, keys: seq<string>, values: seq<Fields>, i: nat)
    requires |keys| <= |values| && values != [] && SameCounts(keys, values) && Takes(t, keys, i)
    ensures keys[i] in InsertBatch(t, keys, values)
    ensures InsertBatch(t, keys, values)[keys[i]] == BoundRow(values[0], keys[i], values[i])
    decreases |keys|
  {
    hide InsertBatch, BoundRow, SortedFields;
    var last := |keys| - 1;
    BatchGrows(t, keys, values);
    if i < last {
      TakesInPrefix(t, keys, last, i);
      BatchEntry(t, keys[..last], values, i);
    } else {
      BatchKeys(t, keys[..last], values, keys[last]);
    }
  }

  /** Every row that takes effect has the fields of the first. */
  ghost predicate FieldsFit(t: Rows, keys: seq<string>, values: seq<Fields>)
    requires |keys| <= |values|
  {
    forall i :: Takes(t, keys, i) ==> values[i].Keys == values[0].Keys
  }

  lemma AlignedBatchIff(t: Rows, keys: seq<string>, values: seq<Fields>)
    requires |keys| <= |values| && values != [] && SameCounts(keys, values)
    ensures InsertBatch(t, keys, values) == InsertEach(t, keys, values) <==> FieldsFit(t, keys, values)
  {
    hide InsertBatch, InsertEach;
    if FieldsFit(t, keys, values) {
      BatchMatches(t, keys, values);
    } else {
      EachEntries(t, keys, values);
      var i :| Takes(t, keys, i) && values[i].Keys != values[0].Keys;
      BatchEntry(t, keys, values, i);
      assert BoundRow(values[0], keys[i], values[i]) != values[i];
    }
  }

  lemma {:induction false} BatchMatches(t: Rows, keys: seq<string>, values: seq<Fields>)
    requires |keys| <= |values| && values != [] && SameCounts(keys, values) && FieldsFit(t, keys, values)
    ensures InsertBatch(t, keys, values) == InsertEach(t, keys, values)
    decreases |keys|
  {
    hide InsertBatch, InsertEach;
    if keys == [] {
      EmptyBatch(t, values);
    } else {
      var last := |keys| - 1;
      BatchGrows(t, keys, values);
      EachGrows(t, keys, values);
      forall i | Takes(t, keys[..last], i) ensures values[i].Keys == values[0].Keys {
        TakesInPrefix(t, keys, last, i);
      }
      BatchMatches(t, keys[..last], values);
      EachEntries(t, keys[..last], values);
      assert keys[last] !in InsertEach(t, keys[..last], values) ==> Takes(t, keys, last);
    }
  }

  // ----- rows with different numbers of fields

  /** Row j is the first whose number of fields is not that of row 0. */
  ghost predicate FirstOdd(keys: seq<string>, values: seq<Fields>, j: int)
    requires |keys| <= |values|
  {
    && 0 <= j < |keys| && SameCounts(keys[..j], values)
    && |SortedFields(values[j])| != |SortedFields(values[0])|
  }

  lemma {:induction false} FindFirstOdd(keys: seq<string>, values: seq<Fields>) returns (j: int)
    requires |keys| <= |values| && !SameCounts(keys, values)
    ensures FirstOdd(keys, values, j)
    decreases |keys|
  {
    hide SortedFields;
    var last := |keys| - 1;
    if SameCounts(keys[..last], values) {
      j := last;
    } else {
      j := FindFirstOdd(keys[..last], values);
      assert keys[..last][..j] == keys[..j];
    }
  }

  /** The arguments of the first rows come first, and then the key of the next row. */
  lemma {:induction false} ArgsInOrder(keys: seq<string>, values: seq<Fields>, j: nat)
    requires j < |keys| <= |values|
    ensures var front := BatchArgs(keys[..j], values);
            && |front| < |BatchArgs(keys, values)|
            && BatchArgs(keys, values)[..|front|] == front
            && BatchArgs(keys, values)[|front|] == Key(keys[j])
    decreases |keys|
  {
    hide SortedFields;
    var last := |keys| - 1;
    var row := RowArgs(keys[last], values[last]);
    assert BatchArgs(keys, values) == BatchArgs(keys[..last], values) + row;
    assert row[0] == Key(keys[last]);
    if j < last {
      ArgsInOrder(keys[..last], values, j);
      assert keys[..last][..j] == keys[..j];
    }
  }

  /** What the first tuples have put into the table stays. */
  lemma {:induction false} TuplesKeep(t: Rows, columns: seq<string>, rows: nat, args: seq<Arg>, i: nat, k: string)
    requires |args| == rows * (1 + |columns|) && i <= rows && 0 <= i * (1 + |columns|) <= |args|
    requires k in ExecuteTuples(t, columns, i, args[..i * (1 + |columns|)])
    ensures k in ExecuteTuples(t, columns, rows, args)
    ensures ExecuteTuples(t, columns, rows, args)[k] == ExecuteTuples(t, columns, i, args[..i * (1 + |columns|)])[k]
    decreases rows
  {
    var w := 1 + |columns|;
    if i == rows {
      assert args[..i * w] == args;
    } else {
      RowsBefore(i, rows, w);
      assert |args| - w == (rows - 1) * w;
      if i < rows - 1 {
        RowsBefore(i, rows - 1, w);
      }
      assert args[..|args| - w][..i * w] == args[..i * w];
      TuplesKeep(t, columns, rows - 1, args[..|args| - w], i, k);
    }
  }

  /** Tuple j after j tuples. */
  lemma TupleNext(t: Rows, columns: seq<string>, j: nat, args: seq<Arg>)
    requires |args| == (j + 1) * (1 + |columns|)
    ensures var w := 1 + |columns|;
            && 0 <= j * w == |args| - w
            && ExecuteTuples(t, columns, j + 1, args) ==
               InsertTuple(ExecuteTuples(t, columns, j, args[..j * w]), columns, args[j * w..])
  {
    var w := 1 + |columns|;
    MultipleOf(j, w);
    assert (j + 1) * w == j * w + w;
  }

  /** The first odd row still gets its own tuple, so its key is stored with the columns of row 0. */
  lemma OddRowStored(t: Rows, keys: seq<string>, values: seq<Fields>, j: int)
    requires |keys| <= |values| && values != [] && FirstOdd(keys, values, j) && Takes(t, keys, j)
    requires |BatchArgs(keys, values)| == |keys| * (1 + |SortedFields(values[0])|)
    ensures keys[j] in InsertBatch(t, keys, values)
    ensures InsertBatch(t, keys, values)[keys[j]].Keys == values[0].Keys
  {
    hide SortedFields, ExecuteTuples, BatchArgs, RowArgs, Bind;
    var columns, args := SortedFields(values[0]), BatchArgs(keys, values);
    var w := 1 + |columns|;
    BatchWidth(keys[..j], values);
    ArgsInOrder(keys, values, j);
    RowsBefore(j, |keys|, w);
    var front := args[..j * w];
    BatchKeys(t, keys[..j], values, keys[j]);
    assert ExecuteTuples(t, columns, j, front) == InsertBatch(t, keys[..j], values);
    var upTo := args[..(j + 1) * w];
    TupleNext(t, columns, j, upTo);
    assert upTo[..j * w] == front;
    var tuple := upTo[j * w..];
    assert tuple[0] == Key(keys[j]);
    BindRow(columns, tuple);
    SameKeySet(columns, tuple, values[0]);
    TuplesKeep(t, columns, |keys|, args, j + 1, keys[j]);
  }

  lemma SameKeySet(columns: seq<string>, args: seq<Arg>, first: Fields)
    requires |args| == 1 + |columns| && columns == SortedFields(first)
    requires forall f :: f in Bind(columns, args) <==> f in columns
    ensures Bind(columns, args).Keys == first.Keys
  {
    hide Bind;
    assert forall f :: f in Bind(columns, args).Keys <==> f in first.Keys;
  }

  /**
   Any table, any keys: the batch has the effect of the single inserts in order exactly when every row
   that takes effect has the fields of row 0. Another row has its values filed under the names of row
   0, and values shift across rows when the numbers of fields differ. Left open is only a batch whose
   first odd row is ignored.
   */
  lemma BatchEqualsEachIff(t: Rows, keys: seq<string>, values: seq<Fields>)
    requires |keys| <= |values| && values != []
    requires forall j :: FirstOdd(keys, values, j) ==> Takes(t, keys, j)
    ensures InsertBatch(t, keys, values) == InsertEach(t, keys, values) <==> FieldsFit(t, keys, values)
  {
    hide InsertBatch, InsertEach, BatchArgs, SortedFields;
    if SameCounts(keys, values) {
      AlignedBatchIff(t, keys, values);
    } else {
      var j := FindFirstOdd(keys, values);
      assert values[j].Keys != values[0].Keys by {
        if values[j].Keys == values[0].Keys {
          SortedFieldsOf(values[j], values[0]);
        }
      }
      EachEntries(t, keys, values);
      if |BatchArgs(keys, values)| == |keys| * (1 + |SortedFields(values[0])|) {
        OddRowStored(t, keys, values, j);
      } else {
        RefusedBatch(t, keys, values);
      }
    }
  }

  /**
   A multi-row insert of rows with the same fields has the effect of inserting the rows one by one,
   in order, each ignored when its key is taken, also by an earlier row of the batch.
   */
  lemma BatchEqualsEach(t: Rows, keys: seq<string>, values: seq<Fields>)
    requires |keys| <= |values| && values != []
    requires forall i :: 0 <= i < |keys| ==> values[i].Keys == values[0].Keys
    ensures InsertBatch(t, keys, values) == InsertEach(t, keys, values)
  {
    hide InsertBatch, InsertEach;
    forall i | 0 <= i < |keys| ensures |SortedFields(values[i])| == |SortedFields(values[0])| {
      SortedFieldsOf(values[i], values[0]);
    }
    BatchEqualsEachIff(t, keys, values);
  }

  lemma OneField(f: string, x: Bytes)
    ensures SortedFields(map[f := x]) == [f]
  {
    EnumerationUnique(SortedFields(map[f := x]), [f], {f});
  }

  /** The value of field b in the second row ends up under the name a. */
  lemma BatchMisfiles(x: Bytes, y: Bytes)
    ensures var keys, values := ["k", "l"], [map["a" := x], map["b" := y]];
            var batch, each := InsertBatch(map[], keys, values), InsertEach(map[], keys, values);
            && "l" in batch && batch["l"] == map["a" := y]
            && "l" in each && each["l"] == map["b" := y]
  {
    hide InsertBatch, InsertEach;
    var keys, values: seq<Fields> := ["k", "l"], [map["a" := x], map["b" := y]];
    OneField("a", x);
    OneField("b", y);
    assert SameCounts(keys, values);
    assert Takes(map[], keys, 1);
    EachEntries(map[], keys, values);
    BatchEntry(map[], keys, values, 1);
    ArgOfField("l", values[1], 0);
    BindRow(["a"], RowArgs("l", values[1]));
  }

  /** Rows {a} and {a, b}: five arguments for four placeholders, so nothing is stored. */
  lemma BatchLost(x: Bytes)
    ensures var keys, values := ["k", "l"], [map["a" := x], map["a" := x, "b" := x]];
            var each := InsertEach(map[], keys, values);
            InsertBatch(map[], keys, values) == map[] && "k" in each && "l" in each
  {
    hide InsertBatch, InsertEach, BatchArgs, SortedFields;
    var keys, values: seq<Fields> := ["k", "l"], [map["a" := x], map["a" := x, "b" := x]];
    OneField("a", x);
    TwoFields(values[1], "a", "b");
    BatchOfTwo(keys, values);
    RefusedBatch(map[], keys, values);
    EachEntries(map[], keys, values);
  }

  lemma TwoFields(values: Fields, f: string, g: string)
    requires Less(f, g) && values.Keys == {f, g}
    ensures SortedFields(values) == [f, g]
  {
    EnumerationUnique(SortedFields(values), [f, g], {f, g});
  }

  lemma BatchOfTwo(keys: seq<string>, values: seq<Fields>)
    requires |keys| == |values| == 2
    ensures |BatchArgs(keys, values)| == 2 + |SortedFields(values[0])| + |SortedFields(values[1])|
  {
    assert keys[..1][..0] == [];
    assert BatchArgs([], values) == [];
    assert BatchArgs(keys[..1], values) == [] + RowArgs(keys[0], values[0]);
  }

  /** A batch with a wrong number of arguments is refused, so it loses every row that would take effect. */
  lemma RefusedBatch(t: Rows, keys: seq<string>, values: seq<Fields>)
    requires |keys| <= |values| && values != []
    requires |BatchArgs(keys, values)| != |keys| * (1 + |SortedFields(values[0])|)
    ensures InsertBatch(t, keys, values) == t
    ensures InsertBatch(t, keys, values) == InsertEach(t, keys, values) <==> forall i :: !Takes(t, keys, i)
  {
    hide InsertEach;
    EachEntries(t, keys, values);
    EachKeeps(t, keys, values);
    if forall i :: !Takes(t, keys, i) {
      forall k | k in keys ensures k in t {
        if k !in t {
          var i := FirstUse(t, keys, k);
        }
      }
    }
  }

  lemma {:induction false} FirstUse(t: Rows, keys: seq<string>, k: string) returns (i: int)
    requires k in keys && k !in t
    ensures Takes(t, keys, i) && keys[i] == k
    decreases |keys|
  {
    var n :| 0 <= n < |keys| && keys[n] == k;
    i := n;
    if k in keys[..n] {
      i := FirstUse(t, keys[..n], k);
      TakesInPrefix(t, keys, n, i);
    }
  }
}
