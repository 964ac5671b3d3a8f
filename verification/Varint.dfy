/**
 Zigzag base-128 varints: sections "Base 128 Varints" and "Signed Integers" of the Protocol Buffers
 Encoding specification, as implemented by Go's encoding/binary.
 */
module Varint {

  type byte = b: int | 0 <= b < 256

  const TWO_63: int := 0x8000_0000_0000_0000
  const TWO_64: int := 0x1_0000_0000_0000_0000
  const MAX_VARINT_LEN: nat := 10

  type int64 = x: int | -TWO_63 <= x < TWO_63
  type uint64 = x: int | 0 <= x < TWO_64

  /** The outcome of reading a varint: the value and the byte count, or why there is none. */
  datatype Read<+T> = Value(value: T, size: nat) | TooShort | Overflow

  /** uint64(x) << 1, complemented when x is negative. */
  function ZigZag(x: int64): uint64 {
    var shifted := x % TWO_64 * 2 % TWO_64;
    if x < 0 then TWO_64 - 1 - shifted else shifted
  }

  /** int64(ux >> 1), complemented when the low bit is set. */
  function UnZigZag(ux: uint64): int64 {
    var half := ux / 2;
    if ux % 2 != 0 then -half - 1 else half
  }

  lemma ZigZagRoundTrip(x: int64)
    ensures UnZigZag(ZigZag(x)) == x
  {}

  /** PutUvarint: seven bits a byte, low bits first, high bit set on all but the last byte. */
  function PutUvarint(x: nat): (bytes: seq<byte>)
    ensures |bytes| >= 1
  {
    if x < 0x80 then [x] else [x % 0x80 + 0x80] + PutUvarint(x / 0x80)
  }

  /** The canonical form: continuation bits on all bytes but the last, and no needless zero byte at the end. */
  lemma {:induction false} UvarintCanonical(x: nat)
    ensures var bytes := PutUvarint(x);
            && (forall i :: 0 <= i < |bytes| ==> (bytes[i] < 0x80 <==> i == |bytes| - 1))
            && (|bytes| > 1 ==> bytes[|bytes| - 1] > 0)
  {
    if x >= 0x80 {
      UvarintCanonical(x / 0x80);
    }
  }

  /** The number whose base-128 digits the bytes carry in their low seven bits, least significant first. */
  function Denotes(bytes: seq<byte>): nat {
    if bytes == [] then 0 else bytes[0] % 0x80 + 0x80 * Denotes(bytes[1..])
  }

  lemma {:induction false} UvarintDenotes(x: nat)
    ensures Denotes(PutUvarint(x)) == x
  {
    if x >= 0x80 {
      UvarintDenotes(x / 0x80);
      assert PutUvarint(x)[1..] == PutUvarint(x / 0x80);
    }
  }

  /** 128^k: the weight of byte k. */
  function Weight(k: nat): (w: nat)
    ensures w >= 1
  {
    if k == 0 then 1 else 0x80 * Weight(k - 1)
  }

  /**
   Uvarint from byte i on, with the bits of the bytes before it already in x and `weight` standing
   for the shift. The bits or-ed in by the original lie above those of x, so or is addition.
   */
  function UvarintFrom(buf: seq<byte>, i: nat, x: nat, weight: nat): Read<nat>
    requires i <= |buf|
    decreases |buf| - i
  {
    if i == |buf| then TooShort
    else if i == MAX_VARINT_LEN then Overflow
    else if buf[i] < 0x80 then
      if i == MAX_VARINT_LEN - 1 && buf[i] > 1 then Overflow
      else Value(x + buf[i] * weight, i + 1)
    else
      UvarintFrom(buf, i + 1, x + buf[i] % 0x80 * weight, weight * 0x80)
  }

  /** No accepted byte string denotes more than 64 bits. */
  lemma {:induction false} UvarintFits(buf: seq<byte>, i: nat, x: nat)
    requires i <= |buf| && i <= MAX_VARINT_LEN && x < Weight(i)
    ensures var r := UvarintFrom(buf, i, x, Weight(i)); r.Value? ==> r.value < TWO_64 && 1 <= r.size <= |buf|
    decreases |buf| - i
  {
    if i < |buf| && i < MAX_VARINT_LEN {
      var b, w := buf[i], Weight(i);
      if b >= 0x80 {
        ByteFits(x, b % 0x80, w);
        assert w * 0x80 == Weight(i + 1);
        UvarintFits(buf, i + 1, x + b % 0x80 * w);
      } else {
        hide Weight;
        WeightsBelow64(i);
        ByteFits(x, b, w);
      }
    }
  }

  lemma ByteFits(x: nat, b: nat, w: nat)
    requires x < w && b < 0x80
    ensures 0 <= x + b * w < 0x80 * w
    ensures b <= 1 ==> x + b * w < 2 * w
  {}

  lemma WeightsBelow64(i: nat)
    requires i < MAX_VARINT_LEN
    ensures i < 9 ==> 0x80 * Weight(i) <= TWO_63
    ensures i == 9 ==> Weight(i) == TWO_63
  {
    assert Weight(3) == 0x20_0000;
    assert Weight(6) == 0x400_0000_0000;
    assert Weight(9) == TWO_63;
  }

  function Uvarint(buf: seq<byte>): (r: Read<nat>)
    ensures r.Value? ==> r.value < TWO_64 && 1 <= r.size <= |buf|
  {
    UvarintFits(buf, 0, 0);
    UvarintFrom(buf, 0, 0, 1)
  }

  function PutVarint(x: int64): seq<byte> {
    PutUvarint(ZigZag(x))
  }

  function ReadVarint(buf: seq<byte>): (r: Read<int64>)
    ensures r.Value? ==> 1 <= r.size <= |buf|
  {
    match Uvarint(buf)
    case Value(ux, size) => Value(UnZigZag(ux), size)
    case TooShort => TooShort
    case Overflow => Overflow
  }

  /** How many bytes with the continuation bit come first. */
  function Leading(bytes: seq<byte>): (n: nat)
    ensures n <= |bytes|
  {
    if bytes == [] || bytes[0] < 0x80 then 0 else 1 + Leading(bytes[1..])
  }

  /** What the bytes are worth: the number up to the first byte without the continuation bit, if it fits 64 bits. */
  ghost predicate Worth(buf: seq<byte>, r: Read<nat>) {
    var n := Leading(buf);
    r == if n == |buf| && n <= MAX_VARINT_LEN then TooShort
         else if n >= MAX_VARINT_LEN || (n == MAX_VARINT_LEN - 1 && buf[n] > 1) then Overflow
         else Value(Denotes(buf[..n + 1]), n + 1)
  }

  lemma {:induction false} UvarintFromWorth(buf: seq<byte>, i: nat, x: nat, weight: nat)
    requires i <= |buf| && i <= MAX_VARINT_LEN
    ensures var n := i + Leading(buf[i..]);
            UvarintFrom(buf, i, x, weight) ==
            if n == |buf| && n <= MAX_VARINT_LEN then TooShort
            else if n >= MAX_VARINT_LEN || (n == MAX_VARINT_LEN - 1 && buf[n] > 1) then Overflow
            else Value(x + Denotes(buf[i..n + 1]) * weight, n + 1)
    decreases |buf| - i
  {
    hide Leading, Denotes;
    LeadingAt(buf, i);
    if i < |buf| && i < MAX_VARINT_LEN {
      var n := i + Leading(buf[i..]);
      if n < |buf| {
        DenotesAt(buf, i, n + 1);
      }
      if buf[i] >= 0x80 {
        UvarintFromWorth(buf, i + 1, x + buf[i] % 0x80 * weight, weight * 0x80);
        if n < |buf| {
          SplitDigit(buf[i] % 0x80, Denotes(buf[i + 1..n + 1]), weight);
        }
      }
    }
  }

  lemma LeadingAt(buf: seq<byte>, i: nat)
    requires i <= |buf|
    ensures Leading(buf[i..]) == if i == |buf| || buf[i] < 0x80 then 0 else 1 + Leading(buf[i + 1..])
  {
    if i < |buf| {
      assert buf[i..][1..] == buf[i + 1..];
    }
  }

  lemma DenotesAt(buf: seq<byte>, i: nat, n: nat)
    requires i < n <= |buf|
    ensures Denotes(buf[i..n]) == buf[i] % 0x80 + 0x80 * Denotes(buf[i + 1..n])
    ensures i + 1 == n ==> Denotes(buf[i..n]) == buf[i] % 0x80
  {
    assert buf[i..n][1..] == buf[i + 1..n];
    assert Denotes([]) == 0;
  }

  lemma SplitDigit(d: nat, rest: nat, w: nat)
    ensures d * w + rest * (w * 0x80) == (d + 0x80 * rest) * w
  {
    assert rest * (w * 0x80) == (0x80 * rest) * w;
  }

  /** Decoding is exact on every input, also on bytes nobody encoded. */
  lemma UvarintWorth(buf: seq<byte>)
    ensures Worth(buf, Uvarint(buf))
  {
    UvarintFromWorth(buf, 0, 0, 1);
    assert buf[0..] == buf;
    assert Leading(buf) < |buf| ==> buf[0..Leading(buf) + 1] == buf[..Leading(buf) + 1];
  }

  /** Reading back what was written, at any position, whatever follows. */
  lemma UvarintReadsBack(buf: seq<byte>, i: nat, x: nat, weight: nat, rest: nat)
    requires i + |PutUvarint(rest)| <= |buf|
    requires buf[i..i + |PutUvarint(rest)|] == PutUvarint(rest)
    requires i + |PutUvarint(rest)| <= MAX_VARINT_LEN
    requires i + |PutUvarint(rest)| == MAX_VARINT_LEN ==> PutUvarint(rest)[|PutUvarint(rest)| - 1] <= 1
    ensures UvarintFrom(buf, i, x, weight) == Value(x + rest * weight, i + |PutUvarint(rest)|)
  {
    hide PutUvarint, Denotes, Leading, UvarintFrom;
    var bytes := PutUvarint(rest);
    var k := |bytes|;
    assert buf[i..] == bytes + buf[i + k..];
    LeadingOfPut(rest, buf[i + k..]);
    UvarintDenotes(rest);
    UvarintFromWorth(buf, i, x, weight);
    assert buf[i + k - 1] == bytes[k - 1];
  }

  lemma {:induction false} LeadingOfPut(x: nat, suffix: seq<byte>)
    ensures Leading(PutUvarint(x) + suffix) == |PutUvarint(x)| - 1
  {
    if x >= 0x80 {
      LeadingOfPut(x / 0x80, suffix);
      assert (PutUvarint(x) + suffix)[1..] == PutUvarint(x / 0x80) + suffix;
    }
  }

  /** A number below 2 * 128^(k-1) takes at most k bytes, and its k-th byte is at most 1. */
  lemma {:induction false} LastByteSmall(x: nat, k: nat)
    requires k >= 1 && x < 2 * Weight(k - 1)
    ensures |PutUvarint(x)| <= k
    ensures |PutUvarint(x)| == k ==> PutUvarint(x)[k - 1] <= 1
  {
    if k > 1 && x >= 0x80 {
      LastByteSmall(x / 0x80, k - 1);
    }
  }

  /**
   Every int64 reads back from its encoding, whatever bytes follow it, and exactly its own bytes are
   consumed: between one and ten of them.
   */
  lemma VarintRoundTrip(x: int64, suffix: seq<byte>)
    ensures 1 <= |PutVarint(x)| <= MAX_VARINT_LEN
    ensures ReadVarint(PutVarint(x) + suffix) == Value(x, |PutVarint(x)|)
  {
    var ux := ZigZag(x);
    WeightsBelow64(9);
    LastByteSmall(ux, 10);
    var buf := PutVarint(x) + suffix;
    assert buf[0..0 + |PutUvarint(ux)|] == PutUvarint(ux);
    UvarintReadsBack(buf, 0, 0, 1, ux);
    ZigZagRoundTrip(x);
  }

  /** The bytes of a varint: 0, -1, 1, -2, ... are written as 0, 1, 2, 3, ... */
  lemma VarintBytes(x: int64)
    ensures Denotes(PutVarint(x)) == if x >= 0 then 2 * x else -2 * x - 1
  {
    hide PutUvarint, Denotes, ZigZag;
    ZigZagIs(x);
    UvarintDenotes(ZigZag(x));
  }

  lemma ZigZagIs(x: int64)
    ensures ZigZag(x) == if x >= 0 then 2 * x else -2 * x - 1
  {}
}
