/** The weighted wheel: a draw in [0, 1) selects the sector it falls into. */
module Discrete {

  datatype Sector = Sector(weight: real, value: int)

  /** The total weight of the first n sectors. */
  function Prefix(values: seq<Sector>, n: nat): real
    requires n <= |values|
  {
    if n == 0 then 0.0 else Prefix(values, n - 1) + values[n - 1].weight
  }

  function Total(values: seq<Sector>): real {
    Prefix(values, |values|)
  }

  ghost predicate Wheel(values: seq<Sector>) {
    (forall i :: 0 <= i < |values| ==> values[i].weight >= 0.0) && Total(values) > 0.0
  }

  /** The draw lies between the i-th and the (i+1)-th normalised prefix sum. */
  ghost predicate Between(values: seq<Sector>, draw: real, i: int)
    requires Total(values) > 0.0
  {
    0 <= i < |values| && Prefix(values, i) / Total(values) <= draw < Prefix(values, i + 1) / Total(values)
  }

  /**
   Sector i is the first whose normalised prefix sum exceeds the draw, for weights of any sign. When
   the weights add up to zero the quotients are infinite or undefined and only the first sector can
   be selected.
   */
  ghost predicate Selects(values: seq<Sector>, draw: real, i: int) {
    && 0 <= i < |values|
    && if Total(values) == 0.0 then i == 0 && values[0].weight > 0.0
       else draw < Prefix(values, i + 1) / Total(values)
            && forall j :: 0 < j <= i ==> Prefix(values, j) / Total(values) <= draw
  }

  /** The value is that of the sector the draw selects. */
  ghost predicate Picks(values: seq<Sector>, draw: real, value: int) {
    exists i :: Selects(values, draw, i) && value == values[i].value
  }

  /** Weights that are not all zero, or a positive weight in front. */
  ghost predicate Selectable(values: seq<Sector>) {
    Total(values) != 0.0 || (values != [] && values[0].weight > 0.0)
  }

  /** Wheels that panic: without sectors, without weight, and with weights that cancel out. */
  lemma WheelsThatPanic()
    ensures !Selectable([])
    ensures !Selectable([Sector(0.0, 1), Sector(0.0, 2)])
    ensures !Selectable([Sector(-1.0, 1), Sector(1.0, 2)])
  {
    assert Total([Sector(0.0, 1), Sector(0.0, 2)]) == 0.0 + 0.0;
    assert Total([Sector(-1.0, 1), Sector(1.0, 2)]) == -1.0 + 1.0;
  }

  // ----- quotients by a total that may be zero

  datatype Float = Finite(value: real) | Infinite(negative: bool) | NaN
  {
    predicate Below(that: Float) {
      match (this, that)
      case (Finite(a), Finite(b)) => a < b
      case (Finite(_), Infinite(negative)) => !negative
      case (Infinite(negative), Finite(_)) => negative
      case (Infinite(a), Infinite(b)) => a && !b
      case _ => false
    }

    predicate AtLeast(that: Float) {
      that.Below(this) || (this == that && this != NaN)
    }

    function Plus(that: Float): Float {
      match (this, that)
      case (Finite(a), Finite(b)) => Finite(a + b)
      case (Finite(_), Infinite(negative)) => Infinite(negative)
      case (Infinite(negative), Finite(_)) => Infinite(negative)
      case (Infinite(a), Infinite(b)) => if a == b then Infinite(a) else NaN
      case _ => NaN
    }

    function Minus(that: Float): Float {
      match that
      case Finite(b) => Plus(Finite(-b))
      case Infinite(negative) => Plus(Infinite(!negative))
      case NaN => NaN
    }
  }

  function Quotient(a: real, b: real): Float {
    if b != 0.0 then Finite(a / b) else if a == 0.0 then NaN else Infinite(a < 0.0)
  }

  lemma DivideSum(a: real, b: real, t: real)
    requires t != 0.0
    ensures (a + b) / t == a / t + b / t
  {}

  lemma DivideSelf(t: real)
    requires t != 0.0
    ensures t / t == 1.0
  {}

  lemma DivideMonotone(a: real, b: real, t: real)
    requires t > 0.0 && a <= b
    ensures a / t <= b / t
  {
    DivideSum(a, b - a, t);
    assert (b - a) / t >= 0.0;
  }

  lemma {:induction false} PrefixMonotone(values: seq<Sector>, i: nat, j: nat)
    requires i <= j <= |values| && forall k :: 0 <= k < |values| ==> values[k].weight >= 0.0
    ensures Prefix(values, i) <= Prefix(values, j)
  {
    if i < j {
      PrefixMonotone(values, i, j - 1);
    }
  }

  /** With weights that are not negative the selected sector is the one whose prefix sums enclose the draw. */
  lemma SelectsIffBetween(values: seq<Sector>, draw: real, i: int)
    requires Wheel(values) && draw >= 0.0
    ensures Selects(values, draw, i) <==> Between(values, draw, i)
  {
    if Between(values, draw, i) {
      forall j | 0 < j <= i ensures Prefix(values, j) / Total(values) <= draw {
        PrefixMonotone(values, j, i);
        DivideMonotone(Prefix(values, j), Prefix(values, i), Total(values));
      }
    }
  }

  class Discrete {
    var values: seq<Sector>
    var lastValue: int

    constructor ()
      ensures values == []
    {
      values, lastValue := [], 0;
    }

    method Add(weight: real, value: int)
      modifies this`values
      ensures values == old(values) + [Sector(weight, value)]
    {
      values := values + [Sector(weight, value)];
    }

    /** Subtracts sector after sector from the draw; the panic behind the loop has an exact condition. */
    method Next(draw: real) returns (value: int, panicked: bool)
      requires 0.0 <= draw < 1.0
      modifies this`lastValue
      ensures panicked <==> !Selectable(values)
      ensures !panicked ==> Picks(values, draw, value)
      ensures lastValue == if panicked then old(lastValue) else value
    {
      var sum := 0.0;
      for i := 0 to |values|
        invariant sum == Prefix(values, i)
      {
        sum := sum + values[i].weight;
      }
      var val := Finite(draw);
      for i := 0 to |values|
        invariant lastValue == old(lastValue)
        invariant sum != 0.0 ==> val == Finite(draw - Prefix(values, i) / sum)
        invariant sum != 0.0 ==> forall j :: 0 < j <= i ==> Prefix(values, j) / sum <= draw
        invariant sum == 0.0 && i == 0 ==> val == Finite(draw)
        invariant sum == 0.0 && i > 0 ==> values[0].weight <= 0.0 && (val == NaN || val == Infinite(false))
      {
        var pw := Quotient(values[i].weight, sum);
        if sum != 0.0 {
          DivideSum(Prefix(values, i), values[i].weight, sum);
        }
        if val.Below(pw) {
          assert Selects(values, draw, i);
          lastValue := values[i].value;
          return values[i].value, false;
        }
        val := val.Minus(pw);
      }
      if sum != 0.0 {
        DivideSelf(sum);
        assert false;
      }
      return 0, true;
    }
  }
}
