/**
 The driver's insert statements as text with positional arguments, and what a server reads out of the
 text: the column names, the number of tuples and the number of placeholders.
 */
module MySqlText {
  import opened RowCodec
  import opened MySqlInsert

  /** A name that needs no quoting, which the driver never adds. */
  predicate Plain(name: string) {
    '(' !in name && ')' !in name && ',' !in name && '?' !in name
  }

  ghost predicate PlainRow(table: string, values: Fields) {
    Plain(table) && forall f :: f in values ==> Plain(f)
  }

  function Count(s: string, c: char): nat {
    multiset(s)[c]
  }

  /** The position of the first c, or the length. */
  function First(s: string, c: char): (i: nat)
    ensures i <= |s|
  {
    if s == [] || s[0] == c then 0 else 1 + First(s[1..], c)
  }

  /** The position of the last c, or -1. */
  function Last(s: string, c: char): (i: int)
    ensures -1 <= i < |s|
  {
    if s == [] then -1 else if s[|s| - 1] == c then |s| - 1 else Last(s[..|s| - 1], c)
  }

  lemma {:induction false} FirstAfter(a: string, c: char, b: string)
    requires c !in a
    ensures First(a + [c] + b, c) == |a|
  {
    var s := a + [c] + b;
    if a != [] {
      FirstAfter(a[1..], c, b);
      assert s[0] == a[0] && s[1..] == a[1..] + [c] + b;
    }
  }

  lemma {:induction false} LastBefore(a: string, c: char, b: string)
    requires c !in b
    ensures Last(a + [c] + b, c) == |a|
  {
    var s := a + [c] + b;
    if b != [] {
      LastBefore(a, c, b[..|b| - 1]);
      assert s[|s| - 1] == b[|b| - 1] && s[..|s| - 1] == a + [c] + b[..|b| - 1];
    }
  }

  lemma {:induction false} LastAbsent(s: string, c: char)
    requires c !in s
    ensures Last(s, c) == -1
  {
    if s != [] {
      LastAbsent(s[..|s| - 1], c);
    }
  }

  // ----- reading a statement

  /** The names of a list in which each comma has a blank in front of it. */
  function Names(s: string): (names: seq<string>)
    ensures |names| >= 1
    decreases |s|
  {
    var i := Last(s, ',');
    if i < 1 then [s] else Names(s[..i - 1]) + [s[i + 1..]]
  }

  /** What stands between the first pair of parentheses. */
  function Inside(text: string): string {
    var i := First(text, '(');
    if i == |text| then "" else
      var rest := text[i + 1..];
      rest[..First(rest, ')')]
  }

  /** The columns after the key column. */
  function Columns(text: string): seq<string> {
    Names(Inside(text))[1..]
  }

  /** Every parenthesis after the first opens a tuple. */
  function Tuples(text: string): nat {
    if Count(text, '(') == 0 then 0 else Count(text, '(') - 1
  }

  const VERB: string := "INSERT IGNORE INTO "

  /** The name between the verb and the blank before the first parenthesis. */
  function TableName(text: string): string {
    var i := First(text, '(');
    if |VERB| + 1 <= i then text[|VERB|..i - 1] else ""
  }

  type Database = map<string, Rows>

  /** Another verb is not modelled, and an unknown table is an error: both leave the database alone. */
  function ExecuteIn(db: Database, text: string, args: seq<Arg>): Database {
    if VERB <= text && TableName(text) in db then
      db[TableName(text) := ExecuteText(db[TableName(text)], text, args)]
    else db
  }

  /** The server refuses a statement whose placeholders do not match the arguments or the columns. */
  function ExecuteText(t: Rows, text: string, args: seq<Arg>): Rows {
    if Count(text, '?') != |args| || |args| != Tuples(text) * (1 + |Columns(text)|) then t
    else ExecuteTuples(t, Columns(text), Tuples(text), args)
  }

  // ----- reading back what was written

  lemma {:induction false} ColumnListPlain(fields: seq<string>)
    requires forall i :: 0 <= i < |fields| ==> Plain(fields[i])
    ensures var list := ColumnList(fields); '(' !in list && ')' !in list && '?' !in list
  {
    if fields != [] {
      ColumnListPlain(fields[..|fields| - 1]);
    }
  }

  lemma NamesOneMore(front: string, name: string)
    requires ',' !in name
    ensures Names(front + " ," + name) == Names(front) + [name]
  {
    hide Last;
    var s := front + " ," + name;
    assert s == (front + " ") + [','] + name;
    LastBefore(front + " ", ',', name);
    assert s[..|front|] == front && s[|front| + 2..] == name;
  }

  lemma NamesAlone(name: string)
    requires ',' !in name
    ensures Names(name) == [name]
  {
    LastAbsent(name, ',');
  }

  lemma {:induction false} NamesOfList(fields: seq<string>)
    requires forall i :: 0 <= i < |fields| ==> Plain(fields[i])
    ensures Names("YCSB_KEY" + ColumnList(fields)) == ["YCSB_KEY"] + fields
  {
    hide Names;
    var s := "YCSB_KEY" + ColumnList(fields);
    if fields == [] {
      assert s == "YCSB_KEY";
      NamesAlone(s);
    } else {
      var last := |fields| - 1;
      NamesOfList(fields[..last]);
      var front := "YCSB_KEY" + ColumnList(fields[..last]);
      assert s == front + " ," + fields[last];
      NamesOneMore(front, fields[last]);
    }
  }

  lemma {:induction false} MarksOfPlaceholders(n: nat)
    ensures Count(Placeholders(n), '?') == n && Count(Placeholders(n), '(') == 0
  {
    if n > 0 {
      MarksOfPlaceholders(n - 1);
    }
  }

  lemma MarksOfTuple(m: nat)
    ensures Count(Tuple(m), '?') == 1 + m && Count(Tuple(m), '(') == 1
  {
    MarksOfPlaceholders(m);
  }

  lemma CountConcat(a: string, b: string, c: char)
    ensures Count(a + b, c) == Count(a, c) + Count(b, c)
  {}

  lemma CountAbsent(s: string, c: char)
    requires c !in s
    ensures Count(s, c) == 0
  {}

  lemma {:induction false} CountJoin(tuple: string, rows: nat, c: char)
    requires c != ','
    ensures Count(Join(tuple, rows), c) == rows * Count(tuple, c)
  {
    if rows == 0 {
      CountAbsent("", c);
    } else if rows > 1 {
      hide Count;
      CountJoin(tuple, rows - 1, c);
      var front := Join(tuple, rows - 1);
      CountConcat(front + ",", tuple, c);
      CountConcat(front, ",", c);
      CountAbsent(",", c);
      NextMultiple(rows, Count(tuple, c));
    }
  }

  lemma NextMultiple(n: nat, k: nat)
    requires n >= 1
    ensures n * k == (n - 1) * k + k
  {}

  lemma CountRender(table: string, fields: seq<string>, rows: nat, c: char)
    requires Plain(table) && (forall i :: 0 <= i < |fields| ==> Plain(fields[i])) && (c == '(' || c == '?')
    ensures Count(Render(table, fields, rows), c) == (if c == '(' then 1 else 0) + rows * Count(Tuple(|fields|), c)
  {
    hide Count, Join, Tuple, ColumnList;
    ColumnListPlain(fields);
    var head, list, tuples := "INSERT IGNORE INTO " + table, ColumnList(fields), Join(Tuple(|fields|), rows);
    CountJoin(Tuple(|fields|), rows, c);
    CountConcat(head + " (YCSB_KEY" + list + ") VALUES ", tuples, c);
    CountConcat(head + " (YCSB_KEY" + list, ") VALUES ", c);
    CountConcat(head + " (YCSB_KEY", list, c);
    CountConcat(head, " (YCSB_KEY", c);
    CountAbsent(head, c);
    CountAbsent(list, c);
    CountAbsent(") VALUES ", c);
    OpeningText(c);
  }

  lemma OpeningText(c: char)
    requires c == '(' || c == '?'
    ensures Count(" (YCSB_KEY", c) == if c == '(' then 1 else 0
  {
    hide Count;
    assert " (YCSB_KEY" == " (" + "YCSB_KEY";
    CountConcat(" (", "YCSB_KEY", c);
    CountAbsent("YCSB_KEY", c);
    assert " (" == " " + "(";
    CountConcat(" ", "(", c);
    CountAbsent(" ", c);
    CountSingle(c);
  }

  lemma CountSingle(c: char)
    ensures Count("(", c) == if c == '(' then 1 else 0
  {}

  lemma ColumnsOfRender(table: string, fields: seq<string>, rows: nat)
    requires Plain(table) && forall i :: 0 <= i < |fields| ==> Plain(fields[i])
    ensures Columns(Render(table, fields, rows)) == fields
  {
    hide Join, Tuple, ColumnList, Names, First;
    var text := Render(table, fields, rows);
    var head, inside := "INSERT IGNORE INTO " + table + " ", "YCSB_KEY" + ColumnList(fields);
    var tail := " VALUES " + Join(Tuple(|fields|), rows);
    ColumnListPlain(fields);
    var rest := inside + [')'] + tail;
    assert text == head + ['('] + rest;
    FirstAfter(head, '(', rest);
    FirstAfter(inside, ')', tail);
    assert text[|head| + 1..] == rest && rest[..|inside|] == inside;
    NamesOfList(fields);
  }

  /** The statement text names the columns, has one tuple for each row and a placeholder for each argument. */
  lemma RenderReadsBack(table: string, fields: seq<string>, rows: nat)
    requires Plain(table) && forall i :: 0 <= i < |fields| ==> Plain(fields[i])
    ensures Columns(Render(table, fields, rows)) == fields
    ensures Tuples(Render(table, fields, rows)) == rows
    ensures Count(Render(table, fields, rows), '?') == rows * (1 + |fields|)
  {
    hide Render, Columns, Count, Tuple;
    ColumnsOfRender(table, fields, rows);
    CountRender(table, fields, rows, '(');
    CountRender(table, fields, rows, '?');
    MarksOfTuple(|fields|);
  }

  lemma SortedPlain(table: string, values: Fields)
    requires PlainRow(table, values)
    ensures forall i :: 0 <= i < |SortedFields(values)| ==> Plain(SortedFields(values)[i])
  {}

  /** The text is the verb for inserts that ignore taken keys, and names the table. */
  lemma HeadReadsBack(table: string, fields: seq<string>, rows: nat)
    requires Plain(table)
    ensures VERB <= Render(table, fields, rows) && TableName(Render(table, fields, rows)) == table
  {
    hide Join, Tuple, ColumnList, First;
    var text := Render(table, fields, rows);
    var head := VERB + table + " ";
    var rest := "YCSB_KEY" + ColumnList(fields) + ") VALUES " + Join(Tuple(|fields|), rows);
    assert text == head + ['('] + rest;
    FirstAfter(head, '(', rest);
    assert text[|VERB|..|head| - 1] == table;
  }

  /** The text and arguments that Insert sends add exactly the row, unless the key is taken. */
  lemma InsertTextMeaning(t: Rows, table: string, key: string, values: Fields)
    requires PlainRow(table, values)
    ensures ExecuteText(t, Render(table, SortedFields(values), 1), RowArgs(key, values))
         == if key in t then t else t[key := values]
  {
    hide Render, RowArgs, Columns, Tuples, Count, SortedFields;
    SortedPlain(table, values);
    RenderReadsBack(table, SortedFields(values), 1);
    InsertOneMeaning(t, key, values);
  }

  /** The text and arguments that BatchInsert sends do what the batch is modelled to do, for any rows. */
  lemma BatchTextMeaning(t: Rows, table: string, keys: seq<string>, values: seq<Fields>)
    requires |keys| <= |values| && values != [] && PlainRow(table, values[0])
    ensures ExecuteText(t, Render(table, SortedFields(values[0]), |keys|), BatchArgs(keys, values))
         == InsertBatch(t, keys, values)
  {
    hide Render, BatchArgs, Columns, Tuples, Count, SortedFields;
    SortedPlain(table, values[0]);
    RenderReadsBack(table, SortedFields(values[0]), |keys|);
  }

  // ----- the driver

  method Insert(table: string, key: string, values: Fields) returns (text: string, args: seq<Arg>)
    ensures text == Render(table, SortedFields(values), 1) && args == RowArgs(key, values)
    ensures PlainRow(table, values) ==>
              forall db: Database :: table in db ==>
                ExecuteIn(db, text, args) ==
                db[table := if key in db[table] then db[table] else db[table][key := values]]
  {
    hide ExecuteText, TableName;
    args := AppendRow([], key, values);
    var pairs := NewFieldPairs(values);
    var columns, marks := WriteColumns(pairs, SortedFields(values));
    text := "INSERT IGNORE INTO " + table + " (YCSB_KEY" + columns + ") VALUES " + ("(?" + marks + ")");
    assert [] + RowArgs(key, values) == RowArgs(key, values);
    if PlainRow(table, values) {
      HeadReadsBack(table, SortedFields(values), 1);
      forall db: Database | table in db
        ensures ExecuteIn(db, text, args) ==
                db[table := if key in db[table] then db[table] else db[table][key := values]]
      {
        InsertTextMeaning(db[table], table, key, values);
      }
    }
  }

  /** Panics when a key has no row; the columns are those of the first row. */
  method BatchInsert(table: string, keys: seq<string>, values: seq<Fields>)
    returns (text: string, args: seq<Arg>, panicked: bool)
    ensures panicked <==> values == [] || |values| < |keys|
    ensures !panicked ==>
              text == Render(table, SortedFields(values[0]), |keys|) && args == BatchArgs(keys, values)
    ensures !panicked && PlainRow(table, values[0]) ==>
              forall db: Database :: table in db ==>
                ExecuteIn(db, text, args) == db[table := InsertBatch(db[table], keys, values)]
  {
    hide ExecuteText, InsertBatch, TableName;
    text, args, panicked := "", [], false;
    if |values| == 0 {
      return text, args, true;
    }
    var pairs := NewFieldPairs(values[0]);
    var columns, marks := WriteColumns(pairs, SortedFields(values[0]));
    var tuple := "(?" + marks + ")";
    var joined := "";
    for i := 0 to |keys|
      invariant joined == Join(tuple, i)
    {
      joined := if i == 0 then tuple else joined + "," + tuple;
    }
    text := "INSERT IGNORE INTO " + table + " (YCSB_KEY" + columns + ") VALUES " + joined;
    for i := 0 to |keys|
      invariant i <= |values| && args == BatchArgs(keys[..i], values)
    {
      if i >= |values| {
        return text, args, true;
      }
      assert keys[..i + 1][..i] == keys[..i];
      args := AppendRow(args, keys[i], values[i]);
    }
    assert keys[..|keys|] == keys;
    if PlainRow(table, values[0]) {
      HeadReadsBack(table, SortedFields(values[0]), |keys|);
      forall db: Database | table in db
        ensures ExecuteIn(db, text, args) == db[table := InsertBatch(db[table], keys, values)]
      {
        BatchTextMeaning(db[table], table, keys, values);
      }
    }
  }
}
