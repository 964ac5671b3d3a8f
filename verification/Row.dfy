/** The row format: for every column a flagged varint id and a flagged, length-prefixed value. */
module Row {
  import opened Varint

  /** A Go byte slice: its length is an int64. */
  type Bytes = s: seq<byte> | |s| < TWO_63

  datatype Error = NoError | CountMismatch | ValueTooLarge | VarintTruncated | ValueTruncated | SlicePanic

  const COMPACT_BYTES_FLAG: byte := 2
  const VARINT_FLAG: byte := 8

  function EncodeInt64(v: int64): seq<byte> {
    [VARINT_FLAG] + PutVarint(v)
  }

  function EncodeBytes(v: Bytes): seq<byte> {
    [COMPACT_BYTES_FLAG] + PutVarint(|v|) + v
  }

  /** The columns one after the other. */
  function EncodeColumns(cols: seq<Bytes>, ids: seq<int64>): seq<byte>
    requires |cols| == |ids|
  {
    if cols == [] then [] else EncodeInt64(ids[0]) + EncodeBytes(cols[0]) + EncodeColumns(cols[1..], ids[1..])
  }

  function RowBytes(cols: seq<Bytes>, ids: seq<int64>): seq<byte>
    requires |cols| == |ids|
  {
    if cols == [] then [0] else EncodeColumns(cols, ids)
  }

  lemma ColumnsFrom(cols: seq<Bytes>, ids: seq<int64>, i: nat)
    requires i <= |cols| == |ids|
    ensures EncodeColumns(cols[i..], ids[i..]) ==
            if i == |cols| then []
            else EncodeInt64(ids[i]) + EncodeBytes(cols[i]) + EncodeColumns(cols[i + 1..], ids[i + 1..])
  {
    hide EncodeInt64, EncodeBytes;
    if i < |cols| {
      assert cols[i..][1..] == cols[i + 1..] && ids[i..][1..] == ids[i + 1..];
    }
  }

  method EncodeRow(cols: seq<Bytes>, ids: seq<int64>, buffer: seq<byte>) returns (row: seq<byte>, err: Error)
    ensures |cols| != |ids| ==> err == CountMismatch && row == []
    ensures |cols| == |ids| ==> err == NoError && row == RowBytes(cols, ids)
  {
    hide EncodeColumns, EncodeInt64, EncodeBytes;
    if |cols| != |ids| {
      return [], CountMismatch;
    }
    row, err := buffer[..0], NoError;
    if |cols| == 0 {
      row := row + [0];
      return;
    }
    assert cols[0..] == cols && ids[0..] == ids;
    for i := 0 to |cols|
      invariant row + EncodeColumns(cols[i..], ids[i..]) == EncodeColumns(cols, ids)
    {
      ColumnsFrom(cols, ids, i);
      row := row + EncodeInt64(ids[i]);
      row := row + EncodeBytes(cols[i]);
    }
    ColumnsFrom(cols, ids, |cols|);
  }

  // ----- decoding

  datatype Part<+T> = Ok(rest: seq<byte>, value: T) | Fail(error: Error)

  function DecodeVarint(b: seq<byte>): (p: Part<int64>)
    ensures p.Ok? ==> |p.rest| < |b|
  {
    match ReadVarint(b)
    case Value(v, n) => Ok(b[n..], v)
    case Overflow => Fail(ValueTooLarge)
    case TooShort => Fail(VarintTruncated)
  }

  /** Skips the flag byte without looking at it; with no byte left the slice expression panics. */
  function DecodeInt64(b: seq<byte>): (p: Part<int64>)
    ensures p.Ok? ==> |p.rest| < |b|
  {
    if b == [] then Fail(SlicePanic) else DecodeVarint(b[1..])
  }

  function DecodeBytes(b: seq<byte>): (p: Part<Bytes>)
    ensures p.Ok? ==> |p.rest| < |b|
  {
    if b == [] then Fail(SlicePanic)
    else
      match DecodeVarint(b[1..])
      case Fail(e) => Fail(e)
      case Ok(remain, n) =>
        if |remain| < n then Fail(ValueTruncated)
        else if n < 0 then Fail(SlicePanic)
        else Ok(remain[n..], remain[..n])
  }

  /** A row so far, and the error that ended the decoding if there was one. */
  datatype Decoding = Decoding(row: map<int64, Bytes>, err: Error)

  function DecodeColumns(b: seq<byte>, row: map<int64, Bytes>): Decoding
    decreases |b|
  {
    if b == [] then Decoding(row, NoError)
    else
      match DecodeInt64(b)
      case Fail(e) => Decoding(row, e)
      case Ok(rest, id) =>
        match DecodeBytes(rest)
        case Fail(e) => Decoding(row, e)
        case Ok(rest', v) => DecodeColumns(rest', row[id := v])
  }

  function Decoded(b: seq<byte>): Decoding {
    if b == [0] then Decoding(map[], NoError) else DecodeColumns(b, map[])
  }

  method DecodeRow(bytes: seq<byte>) returns (row: map<int64, Bytes>, err: Error)
    ensures Decoding(row, err) == Decoded(bytes)
  {
    row, err := map[], NoError;
    if |bytes| == 0 {
      return;
    }
    if |bytes| == 1 && bytes[0] == 0 {
      assert bytes == [0];
      return;
    }
    var b := bytes;
    while |b| > 0
      invariant DecodeColumns(b, row) == DecodeColumns(bytes, map[])
      decreases |b|
    {
      var id := DecodeInt64(b);
      if id.Fail? {
        return row, id.error;
      }
      var v := DecodeBytes(id.rest);
      if v.Fail? {
        return row, v.error;
      }
      row := row[id.value := v.value];
      b := v.rest;
    }
  }

  // ----- the round trip

  /** The map that writing the columns in order into `row` yields: the last value of an id wins. */
  function Overlay(row: map<int64, Bytes>, cols: seq<Bytes>, ids: seq<int64>): map<int64, Bytes>
    requires |cols| == |ids|
    decreases |cols|
  {
    if cols == [] then row else Overlay(row[ids[0] := cols[0]], cols[1..], ids[1..])
  }

  lemma DecodeVarintReadsBack(x: int64, suffix: seq<byte>)
    ensures DecodeVarint(PutVarint(x) + suffix) == Ok(suffix, x)
  {
    hide PutVarint, ReadVarint;
    VarintRoundTrip(x, suffix);
    assert (PutVarint(x) + suffix)[|PutVarint(x)|..] == suffix;
  }

  lemma DecodeColumn(id: int64, v: Bytes, suffix: seq<byte>)
    ensures DecodeInt64(EncodeInt64(id) + EncodeBytes(v) + suffix) == Ok(EncodeBytes(v) + suffix, id)
    ensures DecodeBytes(EncodeBytes(v) + suffix) == Ok(suffix, v)
  {
    hide PutVarint, DecodeVarint;
    var tail := EncodeBytes(v) + suffix;
    DecodeVarintReadsBack(id, tail);
    assert (EncodeInt64(id) + EncodeBytes(v) + suffix)[1..] == PutVarint(id) + tail;
    DecodeVarintReadsBack(|v|, v + suffix);
    assert tail[1..] == PutVarint(|v|) + (v + suffix);
    assert (v + suffix)[..|v|] == v && (v + suffix)[|v|..] == suffix;
  }

  /**
   A column on disk: byte 8, the id as a zigzag varint, byte 2, the length as a zigzag varint, the value.
   */
  lemma ColumnBytes(id: int64, v: Bytes)
    ensures var b, p, q := EncodeInt64(id) + EncodeBytes(v), |PutVarint(id)| + 1, |PutVarint(|v|)|;
            && |b| == p + 1 + q + |v|
            && b[0] == 8 && Denotes(b[1..p]) == (if id >= 0 then 2 * id else -2 * id - 1)
            && b[p] == 2 && Denotes(b[p + 1..p + 1 + q]) == 2 * |v|
            && b[p + 1 + q..] == v
  {
    hide PutVarint, Denotes;
    VarintBytes(id);
    VarintBytes(|v|);
    var b, p, q := EncodeInt64(id) + EncodeBytes(v), |PutVarint(id)| + 1, |PutVarint(|v|)|;
    assert b[1..p] == PutVarint(id) && b[p + 1..p + 1 + q] == PutVarint(|v|);
  }

  lemma {:induction false} ColumnsRoundTrip(cols: seq<Bytes>, ids: seq<int64>, row: map<int64, Bytes>)
    requires |cols| == |ids|
    ensures DecodeColumns(EncodeColumns(cols, ids), row) == Decoding(Overlay(row, cols, ids), NoError)
    decreases |cols|
  {
    if cols != [] {
      var suffix := EncodeColumns(cols[1..], ids[1..]);
      DecodeColumn(ids[0], cols[0], suffix);
      ColumnsRoundTrip(cols[1..], ids[1..], row[ids[0] := cols[0]]);
    }
  }

  /** A row with a column is at least four bytes long, so the one-byte empty row is never taken for it. */
  lemma EmptyRowIsUnmistakable(cols: seq<Bytes>, ids: seq<int64>)
    requires |cols| == |ids|
    ensures RowBytes(cols, ids) == [0] <==> cols == []
    ensures cols != [] ==> |RowBytes(cols, ids)| >= 4
  {
    if cols != [] {
      assert |EncodeInt64(ids[0])| >= 2 && |EncodeBytes(cols[0])| >= 2;
    }
  }

  ghost predicate Distinct<T(!new)>(s: seq<T>) {
    forall i, j :: 0 <= i < j < |s| ==> s[i] != s[j]
  }

  lemma {:induction false} OverlayKeeps(row: map<int64, Bytes>, cols: seq<Bytes>, ids: seq<int64>, id: int64)
    requires |cols| == |ids| && id !in ids
    ensures id in Overlay(row, cols, ids) <==> id in row
    ensures id in row ==> Overlay(row, cols, ids)[id] == row[id]
    decreases |cols|
  {
    if cols != [] {
      assert id !in ids[1..];
      OverlayKeeps(row[ids[0] := cols[0]], cols[1..], ids[1..], id);
    }
  }

  lemma {:induction false} OverlayBinds(row: map<int64, Bytes>, cols: seq<Bytes>, ids: seq<int64>, i: nat)
    requires |cols| == |ids| && Distinct(ids) && i < |ids|
    ensures ids[i] in Overlay(row, cols, ids) && Overlay(row, cols, ids)[ids[i]] == cols[i]
    decreases |cols|
  {
    if i == 0 {
      OverlayKeeps(row[ids[0] := cols[0]], cols[1..], ids[1..], ids[0]);
    } else {
      OverlayBinds(row[ids[0] := cols[0]], cols[1..], ids[1..], i - 1);
    }
  }

  /**
   Decoding an encoded row gives exactly the id -> value map: for columns in any order, without
   error, and with nothing else in it.
   */
  lemma RowRoundTrip(cols: seq<Bytes>, ids: seq<int64>)
    requires |cols| == |ids| && Distinct(ids)
    ensures Decoded(RowBytes(cols, ids)).err == NoError
    ensures forall id :: id in Decoded(RowBytes(cols, ids)).row <==> id in ids
    ensures forall i :: 0 <= i < |ids| ==> Decoded(RowBytes(cols, ids)).row[ids[i]] == cols[i]
  {
    EmptyRowIsUnmistakable(cols, ids);
    if cols != [] {
      ColumnsRoundTrip(cols, ids, map[]);
      var row := Overlay(map[], cols, ids);
      forall id ensures id in row <==> id in ids {
        if id in ids {
          var i :| 0 <= i < |ids| && ids[i] == id;
          OverlayBinds(map[], cols, ids, i);
        } else {
          OverlayKeeps(map[], cols, ids, id);
        }
      }
      forall i | 0 <= i < |ids| ensures row[ids[i]] == cols[i] {
        OverlayBinds(map[], cols, ids, i);
      }
    }
  }
}
