/** Rows as maps from field names to values, stored under the index of each field. */
module RowCodec {
  import opened Varint
  import opened Row
  import opened Decimal

  type Fields = map<string, Bytes>

  datatype Codec = Codec(fieldIndices: map<string, int64>, fields: seq<string>) {
    /** The fields are distinct and each is indexed by its position. */
    ghost predicate Valid() {
      && |fields| < TWO_63
      && Distinct(fields)
      && (forall i :: 0 <= i < |fields| ==> fields[i] in fieldIndices && fieldIndices[fields[i]] == i)
      && (forall f :: f in fieldIndices ==> f in fields)
    }

    /** A Go map lookup: a missing name yields zero. */
    function Index(field: string): int64 {
      if field in fieldIndices then fieldIndices[field] else 0
    }

    ghost predicate Knows(names: set<string>) {
      forall f :: f in names ==> f in fields
    }

    lemma IndexInjective(f: string, g: string)
      requires Valid() && f in fields && g in fields && Index(f) == Index(g)
      ensures f == g
    {
      var i :| 0 <= i < |fields| && fields[i] == f;
      var j :| 0 <= j < |fields| && fields[j] == g;
    }
  }

  function FieldName(i: nat): string {
    "field" + Digits(i)
  }

  /** The name is "field" and a decimal that denotes the number. */
  lemma FieldNameReads(i: nat)
    ensures "field" <= FieldName(i) && Decimal.Value(FieldName(i)[5..]) == i
  {
    assert FieldName(i)[5..] == Digits(i);
    ValueOfDigits(i);
  }

  lemma FieldNameInjective(i: nat, j: nat)
    requires FieldName(i) == FieldName(j)
    ensures i == j
  {
    FieldNameReads(i);
    FieldNameReads(j);
  }

  function FieldNames(count: nat): seq<string> {
    seq(count, i requires 0 <= i < count => FieldName(i))
  }

  method CreateFieldIndices(fieldCount: nat) returns (m: map<string, int64>)
    requires fieldCount < TWO_63
    ensures forall i :: 0 <= i < fieldCount ==> FieldName(i) in m && m[FieldName(i)] == i
    ensures forall f :: f in m ==> f in FieldNames(fieldCount)
  {
    m := map[];
    for i := 0 to fieldCount
      invariant forall j :: 0 <= j < i ==> FieldName(j) in m && m[FieldName(j)] == j
      invariant forall f :: f in m ==> f in FieldNames(fieldCount)
    {
      forall j | 0 <= j < i && FieldName(j) == FieldName(i) ensures j == i {
        FieldNameInjective(j, i);
      }
      assert FieldNames(fieldCount)[i] == FieldName(i);
      m := m[FieldName(i) := i];
    }
  }

  method AllFields(fieldCount: nat) returns (fields: seq<string>)
    ensures fields == FieldNames(fieldCount)
  {
    fields := [];
    for i := 0 to fieldCount
      invariant fields == FieldNames(fieldCount)[..i]
    {
      fields := fields + [FieldName(i)];
    }
  }

  method NewRowCodec(fieldCount: nat) returns (c: Codec)
    requires fieldCount < TWO_63
    ensures c.Valid() && c.fields == FieldNames(fieldCount)
  {
    var indices := CreateFieldIndices(fieldCount);
    var fields := AllFields(fieldCount);
    c := Codec(indices, fields);
    forall i, j | 0 <= i < j < fieldCount ensures fields[i] != fields[j] {
      if FieldName(i) == FieldName(j) {
        FieldNameInjective(i, j);
      }
    }
  }

  // ----- encoding in whatever order the map is iterated

  /** An iteration order of a Go map: every key once. */
  ghost predicate Orders(order: seq<string>, values: Fields) {
    Distinct(order) && forall f :: f in order <==> f in values
  }

  function ColumnsOf(order: seq<string>, values: Fields): (cols: seq<Bytes>)
    requires forall f :: f in order ==> f in values
    ensures |cols| == |order|
  {
    seq(|order|, i requires 0 <= i < |order| => values[order[i]])
  }

  function IdsOf(c: Codec, order: seq<string>): (ids: seq<int64>)
    ensures |ids| == |order|
  {
    seq(|order|, i requires 0 <= i < |order| => c.Index(order[i]))
  }

  ghost predicate EncodedInOrder(c: Codec, values: Fields, row: seq<byte>, order: seq<string>) {
    Orders(order, values) && row == RowBytes(ColumnsOf(order, values), IdsOf(c, order))
  }

  /** row is what Encode may return for these values. */
  ghost predicate EncodingOf(c: Codec, values: Fields, row: seq<byte>) {
    exists order :: EncodedInOrder(c, values, row, order)
  }

  method Encode(c: Codec, buffer: seq<byte>, values: Fields) returns (row: seq<byte>, err: Error)
    ensures err == NoError && EncodingOf(c, values, row)
  {
    var cols: seq<Bytes>, ids: seq<int64> := [], [];
    ghost var order: seq<string> := [];
    var pending := values.Keys;
    while pending != {}
      invariant pending <= values.Keys && Distinct(order)
      invariant forall f :: f in order <==> f in values && f !in pending
      invariant cols == ColumnsOf(order, values) && ids == IdsOf(c, order)
      decreases pending
    {
      var f :| f in pending;
      cols := cols + [values[f]];
      ids := ids + [c.Index(f)];
      order := order + [f];
      pending := pending - {f};
    }
    row, err := EncodeRow(cols, ids, buffer);
    assert EncodedInOrder(c, values, row, order);
  }

  /** The requested fields that a decoded row holds a value for. */
  function Project(c: Codec, row: map<int64, Bytes>, fields: seq<string>): Fields {
    map f | f in fields && c.Index(f) in row :: row[c.Index(f)]
  }

  lemma ProjectOneMore(c: Codec, row: map<int64, Bytes>, fields: seq<string>, f: string)
    ensures Project(c, row, fields + [f]) ==
            if c.Index(f) in row then Project(c, row, fields)[f := row[c.Index(f)]] else Project(c, row, fields)
  {}

  function Requested(c: Codec, fields: seq<string>): seq<string> {
    if fields == [] then c.fields else fields
  }

  /** What a reader asked for: the named fields of a row, or all of them when none is named. */
  ghost function Chosen(values: Fields, fields: seq<string>): (chosen: Fields)
    ensures forall f :: f in chosen <==> f in values && (fields == [] || f in fields)
    ensures forall f :: f in chosen ==> chosen[f] == values[f]
  {
    map f | f in values && (fields == [] || f in fields) :: values[f]
  }

  method Decode(c: Codec, row: seq<byte>, requested: seq<string>) returns (res: Fields, err: Error)
    ensures err == Decoded(row).err
    ensures err == NoError ==>
              forall f :: f in res <==>
                (f in requested || (requested == [] && f in c.fields)) && c.Index(f) in Decoded(row).row
    ensures res == if err == NoError then Project(c, Decoded(row).row, Requested(c, requested)) else map[]
  {
    hide Decoded;
    var fields := if |requested| == 0 then c.fields else requested;
    var data;
    data, err := DecodeRow(row);
    res := map[];
    if err != NoError {
      return;
    }
    for k := 0 to |fields|
      invariant res == Project(c, data, fields[..k])
    {
      assert fields[..k + 1] == fields[..k] + [fields[k]];
      ProjectOneMore(c, data, fields[..k], fields[k]);
      var i := c.Index(fields[k]);
      if i in data {
        res := res[fields[k] := data[i]];
      }
    }
    assert fields[..|fields|] == fields;
  }

  // ----- what survives the round trip

  /** Every encoding decodes without error, known fields or not. */
  lemma EncodingDecodes(c: Codec, values: Fields, row: seq<byte>)
    requires EncodingOf(c, values, row)
    ensures Decoded(row).err == NoError
  {
    var order :| EncodedInOrder(c, values, row, order);
    var cols, ids := ColumnsOf(order, values), IdsOf(c, order);
    EmptyRowIsUnmistakable(cols, ids);
    if cols != [] {
      ColumnsRoundTrip(cols, ids, map[]);
    }
  }

  /** A known field decodes to its value, and to nothing when the row did not have it. */
  lemma FieldRoundTrip(c: Codec, values: Fields, row: seq<byte>, f: string)
    requires c.Valid() && c.Knows(values.Keys) && EncodingOf(c, values, row) && f in c.fields
    ensures c.Index(f) in Decoded(row).row <==> f in values
    ensures f in values ==> Decoded(row).row[c.Index(f)] == values[f]
  {
    var order :| EncodedInOrder(c, values, row, order);
    var cols, ids := ColumnsOf(order, values), IdsOf(c, order);
    forall i, j | 0 <= i < j < |ids| ensures ids[i] != ids[j] {
      if ids[i] == ids[j] {
        assert order[i] in values && order[j] in values;
        c.IndexInjective(order[i], order[j]);
      }
    }
    RowRoundTrip(cols, ids);
    if f in values {
      var i :| 0 <= i < |order| && order[i] == f;
      assert ids[i] == c.Index(f);
    }
    if c.Index(f) in ids {
      var i :| 0 <= i < |ids| && ids[i] == c.Index(f);
      assert order[i] in values;
      c.IndexInjective(order[i], f);
    }
  }

  function Restrict(values: Fields, fields: seq<string>): Fields {
    map f | f in values && f in fields :: values[f]
  }

  /** Decoding an encoded row gives the original map, restricted to the requested fields. */
  lemma CodecRoundTrip(c: Codec, values: Fields, row: seq<byte>, fields: seq<string>)
    requires c.Valid() && c.Knows(values.Keys) && EncodingOf(c, values, row)
    requires forall f :: f in fields ==> f in c.fields
    ensures Decoded(row).err == NoError
    ensures Project(c, Decoded(row).row, fields) == Restrict(values, fields)
  {
    EncodingDecodes(c, values, row);
    forall f | f in fields
      ensures c.Index(f) in Decoded(row).row <==> f in values
      ensures f in values ==> Decoded(row).row[c.Index(f)] == values[f]
    {
      FieldRoundTrip(c, values, row, f);
    }
  }

  /** A row of one unknown field comes back as the first field. */
  lemma UnknownLandsOnFirst(c: Codec, name: string, v: Bytes, row: seq<byte>)
    requires c.Valid() && name !in c.fields && c.fields != [] && EncodingOf(c, map[name := v], row)
    ensures Decoded(row).err == NoError && Project(c, Decoded(row).row, c.fields) == map[c.fields[0] := v]
  {
    hide Decoded, RowBytes;
    var values: Fields := map[name := v];
    EncodingDecodes(c, values, row);
    var order :| EncodedInOrder(c, values, row, order);
    OnlyOne(order, name);
    var cols, ids := ColumnsOf(order, values), IdsOf(c, order);
    RowRoundTrip(cols, ids);
    assert ids == [0] && cols == [v];
    forall f | f in c.fields ensures c.Index(f) == 0 <==> f == c.fields[0] {
      if c.Index(f) == 0 {
        c.IndexInjective(f, c.fields[0]);
      }
    }
    assert c.fields[0] in c.fields;
  }

  lemma OnlyOne(order: seq<string>, name: string)
    requires Distinct(order) && forall f :: f in order <==> f == name
    ensures order == [name]
  {
    assert name in order;
    var i :| 0 <= i < |order| && order[i] == name;
    forall j | 0 <= j < |order| ensures j == i && order[j] == name {
      assert order[j] in order;
    }
    assert order[|order| - 1] == order[0] == name;
  }

  /** The same in the reader's terms. */
  lemma ChosenRoundTrip(c: Codec, values: Fields, row: seq<byte>, fields: seq<string>)
    requires c.Valid() && c.Knows(values.Keys) && EncodingOf(c, values, row)
    requires forall f :: f in fields ==> f in c.fields
    ensures Decoded(row).err == NoError
    ensures Project(c, Decoded(row).row, Requested(c, fields)) == Chosen(values, fields)
  {
    CodecRoundTrip(c, values, row, Requested(c, fields));
    assert Restrict(values, Requested(c, fields)) == Chosen(values, fields);
  }

  /**
   Reading all fields back gives the written map exactly when every written field is known: an
   unknown name is stored under index 0 and never comes back under its own name.
   */
  lemma RoundTripIffKnown(c: Codec, values: Fields, row: seq<byte>)
    requires c.Valid() && EncodingOf(c, values, row)
    ensures Project(c, Decoded(row).row, c.fields) == values <==> c.Knows(values.Keys)
  {
    if c.Knows(values.Keys) {
      CodecRoundTrip(c, values, row, c.fields);
      assert Restrict(values, c.fields) == values;
    } else {
      var f :| f in values && f !in c.fields;
      assert f !in Project(c, Decoded(row).row, c.fields);
    }
  }
}
