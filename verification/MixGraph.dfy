/**
 The MixGraph key chooser: a hotness bucket is drawn from a cumulative distribution, a shuffled table
 turns it into a region of the key space, a hash places the key inside the region, and the operation
 is then drawn from the wheel of the region the key lies in.
 */
module MixGraph {
  import opened Discrete
  import Varint

  type int64 = Varint.int64

  // ----- the cumulative distribution

  function SumTo(weights: seq<real>, n: nat): real
    requires n <= |weights|
  {
    if n == 0 then 0.0 else SumTo(weights, n - 1) + weights[n - 1]
  }

  function Sum(weights: seq<real>): real {
    SumTo(weights, |weights|)
  }

  /** a*e^(bx) + c*e^(dx), negative values cut off; exp is a parameter. */
  function Weight(exp: real -> real, a: real, b: real, c: real, d: real, x: real): (w: real)
    ensures w >= 0.0
  {
    var w := a * exp(b * x) + c * exp(d * x);
    if w < 0.0 then 0.0 else w
  }

  ghost predicate Weights(weights: seq<real>) {
    |weights| > 0 && forall i :: 0 <= i < |weights| ==> weights[i] >= 0.0
  }

  /** Normalised prefix sums; without any weight every quotient is 0/0 and only the last entry, set to 1, counts. */
  ghost predicate CdfOf(cdf: seq<Float>, weights: seq<real>) {
    && |cdf| == |weights|
    && if Sum(weights) > 0.0 then forall i :: 0 <= i < |cdf| ==> cdf[i] == Finite(SumTo(weights, i + 1) / Sum(weights))
       else forall i :: 0 <= i < |cdf| ==> cdf[i] == if i == |cdf| - 1 then Finite(1.0) else NaN
  }

  lemma {:induction false} SumMonotone(weights: seq<real>, i: nat, j: nat)
    requires i <= j <= |weights| && forall k :: 0 <= k < |weights| ==> weights[k] >= 0.0
    ensures SumTo(weights, i) <= SumTo(weights, j)
  {
    if i < j {
      SumMonotone(weights, i, j - 1);
    }
  }

  lemma NoWeight(weights: seq<real>, i: nat)
    requires Weights(weights) && Sum(weights) <= 0.0 && i < |weights|
    ensures Sum(weights) == weights[i] == 0.0
  {
    SumMonotone(weights, 0, i);
    SumMonotone(weights, i + 1, |weights|);
  }

  /** The distribution never falls, ends at 1, and gives bucket i an interval of width w_i / total. */
  lemma CdfShape(cdf: seq<Float>, weights: seq<real>)
    requires Weights(weights) && Sum(weights) > 0.0 && CdfOf(cdf, weights)
    ensures forall i :: 0 <= i < |cdf| ==> cdf[i].Finite?
    ensures forall i, j :: 0 <= i <= j < |cdf| ==> cdf[i].value <= cdf[j].value
    ensures cdf[|cdf| - 1].value == 1.0
    ensures cdf[0].value == weights[0] / Sum(weights)
    ensures forall i :: 0 < i < |cdf| ==> cdf[i].value - cdf[i - 1].value == weights[i] / Sum(weights)
  {
    forall i, j | 0 <= i <= j < |cdf| ensures cdf[i].value <= cdf[j].value {
      SumMonotone(weights, i + 1, j + 1);
      DivideMonotone(SumTo(weights, i + 1), SumTo(weights, j + 1), Sum(weights));
    }
    forall i | 0 < i < |cdf| ensures cdf[i].value - cdf[i - 1].value == weights[i] / Sum(weights) {
      DivideSum(SumTo(weights, i), weights[i], Sum(weights));
    }
    assert SumTo(weights, 1) == SumTo(weights, 0) + weights[0];
    DivideSelf(Sum(weights));
  }

  method BuildCdf(weights: seq<real>) returns (cdf: array<Float>)
    requires Weights(weights)
    ensures fresh(cdf) && CdfOf(cdf[..], weights)
  {
    var total := 0.0;
    for i := 0 to |weights|
      invariant total == SumTo(weights, i)
    {
      total := total + weights[i];
    }
    var n := |weights|;
    SumMonotone(weights, 0, n);
    cdf := new Float[n](_ => NaN);
    var cumulative := Finite(0.0);
    for i := 0 to n
      invariant total > 0.0 ==> cumulative == Finite(SumTo(weights, i) / total)
      invariant total > 0.0 ==> forall k :: 0 <= k < i ==> cdf[k] == Finite(SumTo(weights, k + 1) / total)
      invariant total == 0.0 ==> forall k :: 0 <= k < n ==> cdf[k] == NaN
      invariant total == 0.0 ==> cumulative == if i == 0 then Finite(0.0) else NaN
    {
      if total > 0.0 {
        DivideSum(SumTo(weights, i), weights[i], total);
      } else {
        NoWeight(weights, i);
      }
      cumulative := cumulative.Plus(Quotient(weights[i], total));
      cdf[i] := cumulative;
    }
    if total > 0.0 {
      DivideSelf(total);
    }
    cdf[n - 1] := Finite(1.0);
  }

  /** Entries that are at least u come last, and below 1 there is one: what a binary search relies on. */
  lemma CdfRises(cdf: seq<Float>, weights: seq<real>, u: real)
    requires Weights(weights) && CdfOf(cdf, weights)
    ensures forall i, j :: 0 <= i <= j < |cdf| && cdf[i].AtLeast(Finite(u)) ==> cdf[j].AtLeast(Finite(u))
    ensures u <= 1.0 ==> cdf[|cdf| - 1].AtLeast(Finite(u))
  {
    if Sum(weights) > 0.0 {
      CdfShape(cdf, weights);
    }
  }

  /** sort.SearchFloat64s: the first index whose entry is at least u. */
  method Search(cdf: array<Float>, u: real) returns (i: int)
    requires forall j, k :: 0 <= j <= k < cdf.Length && cdf[j].AtLeast(Finite(u)) ==> cdf[k].AtLeast(Finite(u))
    ensures 0 <= i <= cdf.Length
    ensures forall k :: 0 <= k < i ==> !cdf[k].AtLeast(Finite(u))
    ensures forall k :: i <= k < cdf.Length ==> cdf[k].AtLeast(Finite(u))
  {
    i := 0;
    var j := cdf.Length;
    while i < j
      invariant 0 <= i <= j <= cdf.Length
      invariant forall k :: 0 <= k < i ==> !cdf[k].AtLeast(Finite(u))
      invariant forall k :: j <= k < cdf.Length ==> cdf[k].AtLeast(Finite(u))
    {
      var h := (i + j) / 2;
      if !cdf[h].AtLeast(Finite(u)) {
        i := h + 1;
      } else {
        j := h;
      }
    }
  }

  /** Bucket i is the one drawn by u. */
  ghost predicate Draws(cdf: seq<Float>, u: real, i: int) {
    0 <= i < |cdf| && cdf[i].AtLeast(Finite(u)) && (i > 0 ==> !cdf[i - 1].AtLeast(Finite(u)))
  }

  /**
   Exactly one bucket is drawn: the one whose cumulative weights enclose u, past the first never one
   without weight. When all weights are zero it is always the last.
   */
  lemma DrawsIff(cdf: seq<Float>, weights: seq<real>, u: real, i: int, j: int)
    requires Weights(weights) && CdfOf(cdf, weights) && u <= 1.0 && 0 <= i < |cdf|
    ensures Draws(cdf, u, i) <==>
            if Sum(weights) > 0.0 then
              u <= SumTo(weights, i + 1) / Sum(weights) && (i > 0 ==> SumTo(weights, i) / Sum(weights) < u)
            else i == |cdf| - 1
    ensures Draws(cdf, u, i) && Draws(cdf, u, j) ==> i == j
    ensures Draws(cdf, u, i) && i > 0 && Sum(weights) > 0.0 ==> weights[i] > 0.0
  {
    CdfRises(cdf, weights, u);
    if Sum(weights) > 0.0 {
      CdfShape(cdf, weights);
      assert i > 0 ==> cdf[i - 1] == Finite(SumTo(weights, i) / Sum(weights));
      assert weights[i] == 0.0 ==> weights[i] / Sum(weights) == 0.0;
    }
  }

  /** With a == c == 0 no region has weight, and every draw goes to the last bucket. */
  lemma WithoutWeight(exp: real -> real, b: real, d: real, n: nat, cdf: seq<Float>, u: real, i: int)
    requires n >= 1 && u <= 1.0
    requires var weights := seq(n, k => Weight(exp, 0.0, b, 0.0, d, k as real)); CdfOf(cdf, weights)
    requires Draws(cdf, u, i)
    ensures i == n - 1
  {
    var weights := seq(n, k => Weight(exp, 0.0, b, 0.0, d, k as real));
    SumOfZeros(weights, n);
    DrawsIff(cdf, weights, u, i, i);
  }

  lemma {:induction false} SumOfZeros(weights: seq<real>, n: nat)
    requires n <= |weights| && forall k :: 0 <= k < |weights| ==> weights[k] == 0.0
    ensures SumTo(weights, n) == 0.0
  {
    if n > 0 {
      SumOfZeros(weights, n - 1);
    }
  }

  // ----- the shuffle

  ghost predicate Permutation(s: seq<int>) {
    && (forall i :: 0 <= i < |s| ==> 0 <= s[i] < |s|)
    && (forall i, j :: 0 <= i < j < |s| ==> s[i] != s[j])
    && (forall r :: 0 <= r < |s| ==> r in s)
  }

  lemma SwapKeepsPermutation(s: seq<int>, i: nat, j: nat)
    requires Permutation(s) && i < |s| && j < |s|
    ensures Permutation(s[i := s[j]][j := s[i]])
  {
    var t := s[i := s[j]][j := s[i]];
    forall r | 0 <= r < |t| ensures r in t {
      assert r in s;
      var k :| 0 <= k < |s| && s[k] == r;
      assert t[if k == i then j else if k == j then i else k] == r;
    }
  }

  ghost predicate Positions(n: nat, positions: seq<int>) {
    |positions| <= n && forall i :: 0 <= i < |positions| ==> 0 <= positions[i] < n
  }

  lemma IdentityPermutes(n: nat)
    ensures Permutation(seq(n, i => i))
  {
    var s := seq(n, i => i);
    forall r | 0 <= r < n ensures r in s {
      assert s[r] == r;
    }
  }

  /** 0..n-1 after swapping entry i with the i-th position, for every position given. */
  function Shuffled(n: nat, positions: seq<int>): (s: seq<int>)
    requires Positions(n, positions)
    ensures |s| == n && Permutation(s)
    decreases |positions|
  {
    if positions == [] then
      IdentityPermutes(n);
      seq(n, i => i)
    else
      var i := |positions| - 1;
      var s := Shuffled(n, positions[..i]);
      SwapKeepsPermutation(s, i, positions[i]);
      s[i := s[positions[i]]][positions[i] := s[i]]
  }

  /** Swaps every entry with a drawn position. */
  method Shuffle(numRegions: nat, positions: seq<int>) returns (regionMap: array<int>)
    requires |positions| == numRegions && Positions(numRegions, positions)
    ensures fresh(regionMap) && regionMap.Length == numRegions && Permutation(regionMap[..])
    ensures regionMap[..] == Shuffled(numRegions, positions)
  {
    hide Permutation;
    regionMap := new int[numRegions](i => i);
    for i := 0 to numRegions
      invariant regionMap[..] == Shuffled(numRegions, positions[..i])
    {
      var pos := positions[i];
      assert positions[..i + 1][..i] == positions[..i];
      regionMap[i], regionMap[pos] := regionMap[pos], regionMap[i];
    }
    assert positions[..numRegions] == positions;
  }

  lemma ShuffledOneMore(n: nat, positions: seq<int>, pos: int)
    requires Positions(n, positions) && |positions| < n && 0 <= pos < n
    ensures var s, i := Shuffled(n, positions), |positions|;
            Shuffled(n, positions + [pos]) == s[i := s[pos]][pos := s[i]]
  {
    assert (positions + [pos])[..|positions|] == positions;
  }

  /** The swap that puts the right region at place j. */
  lemma RightSwap(s: seq<int>, target: seq<int>, j: nat) returns (pos: int)
    requires Permutation(s) && Permutation(target) && j < |s| == |target| && s[..j] == target[..j]
    ensures j <= pos < |s| && s[j := s[pos]][pos := s[j]][..j + 1] == target[..j + 1]
  {
    assert target[j] in s;
    pos :| 0 <= pos < |s| && s[pos] == target[j];
    forall i | 0 <= i < j ensures s[i] == target[i] != target[j] {
      assert s[..j][i] == target[..j][i];
    }
    var swapped := s[j := s[pos]][pos := s[j]];
    assert forall i :: 0 <= i < j ==> swapped[i] == target[i];
  }

  /** Every arrangement of the regions comes out for some positions, so the shuffle excludes none. */
  lemma {:induction false} EveryOrderComesOut(target: seq<int>, k: nat) returns (positions: seq<int>)
    requires Permutation(target) && k <= |target|
    ensures |positions| == k && Positions(|target|, positions)
    ensures Shuffled(|target|, positions)[..k] == target[..k]
  {
    hide Permutation, Shuffled;
    if k == 0 {
      positions := [];
    } else {
      var front := EveryOrderComesOut(target, k - 1);
      var pos := RightSwap(Shuffled(|target|, front), target, k - 1);
      ShuffledOneMore(|target|, front, pos);
      positions := front + [pos];
    }
  }

  // ----- the wheels

  /** The operation mix of a hotness rank: 1 is read, 2 is update. */
  function MixOf(rank: int, numRegions: int): seq<Sector>
    requires numRegions > 0
  {
    var pos := rank as real / numRegions as real;
    if pos <= 0.10 then [Sector(0.3, 1), Sector(0.7, 2)]
    else if pos <= 0.30 then [Sector(0.5, 1), Sector(0.5, 2)]
    else [Sector(0.9, 1), Sector(0.1, 2)]
  }

  lemma MixIsWheel(rank: int, numRegions: int)
    requires numRegions > 0
    ensures MixOf(rank, numRegions) != [] && Wheel(MixOf(rank, numRegions))
  {
    var mix := MixOf(rank, numRegions);
    assert Prefix(mix, 2) == Prefix(mix, 1) + mix[1].weight;
    assert Prefix(mix, 1) == Prefix(mix, 0) + mix[0].weight;
  }

  /** What the wheel of a rank makes of a draw. */
  lemma MixPicks(rank: int, numRegions: int, draw: real, op: int)
    requires numRegions > 0 && 0.0 <= draw < 1.0 && Picks(MixOf(rank, numRegions), draw, op)
    ensures var pos := rank as real / numRegions as real;
            op == if draw < (if pos <= 0.10 then 0.3 else if pos <= 0.30 then 0.5 else 0.9) then 1 else 2
  {
    var mix := MixOf(rank, numRegions);
    var i :| Selects(mix, draw, i) && op == mix[i].value;
    TwoSectors(mix);
  }

  lemma TwoSectors(mix: seq<Sector>)
    requires |mix| == 2
    ensures Prefix(mix, 1) == mix[0].weight && Total(mix) == Prefix(mix, 2) == mix[0].weight + mix[1].weight
  {
    assert Prefix(mix, 1) == Prefix(mix, 0) + mix[0].weight;
    assert Prefix(mix, 2) == Prefix(mix, 1) + mix[1].weight;
  }

  method BuildChooser(rank: int, numRegions: int) returns (chooser: Discrete)
    requires numRegions > 0
    ensures fresh(chooser) && chooser.values == MixOf(rank, numRegions)
  {
    chooser := new Discrete();
    var pos := rank as real / numRegions as real;
    if pos <= 0.10 {
      chooser.Add(0.3, 1);
      chooser.Add(0.7, 2);
    } else if pos > 0.10 && pos <= 0.30 {
      chooser.Add(0.5, 1);
      chooser.Add(0.5, 2);
    } else {
      chooser.Add(0.9, 1);
      chooser.Add(0.1, 2);
    }
  }

  /** Stores the wheel of every rank under the region the rank was shuffled to. */
  method BuildChoosers(regionMap: array<int>) returns (choosers: array<Discrete?>)
    requires regionMap.Length > 0 && Permutation(regionMap[..])
    ensures fresh(choosers) && choosers.Length == regionMap.Length
    ensures forall r :: 0 <= r < choosers.Length ==> choosers[r] != null && fresh(choosers[r])
    ensures forall i :: 0 <= i < regionMap.Length ==> choosers[regionMap[i]].values == MixOf(i, regionMap.Length)
  {
    var n := regionMap.Length;
    choosers := new Discrete?[n](_ => null);
    for i := 0 to n
      invariant forall k :: 0 <= k < i ==>
                  choosers[regionMap[k]] != null && fresh(choosers[regionMap[k]])
                  && choosers[regionMap[k]].values == MixOf(k, n)
    {
      assert forall k :: 0 <= k < i ==> regionMap[..][k] != regionMap[..][i];
      var chooser := BuildChooser(i, n);
      choosers[regionMap[i]] := chooser;
    }
    forall r | 0 <= r < n ensures choosers[r] != null && fresh(choosers[r]) {
      assert r in regionMap[..];
    }
  }

  // ----- placing a key

  /** What a signed 64-bit word keeps of a number. */
  function Wrap64(x: int): int64 {
    (x + Varint.TWO_63) % Varint.TWO_64 - Varint.TWO_63
  }

  /**
   The salted, LCG-scrambled offset inside a region, in wrapping unsigned 64-bit arithmetic. A negative
   size is taken for the unsigned word with the same bits.
   */
  function Offset(skew: int, region: int, regionSize: int64): (offset: int64)
    requires regionSize != 0
    ensures regionSize >= 1 ==> 0 <= offset < regionSize
  {
    Fold(Scramble((skew % Varint.TWO_64) as bv64, (region % Varint.TWO_64) as bv64) as int, regionSize)
  }

  function Scramble(skew: bv64, region: bv64): bv64 {
    var salted := skew ^ (region << 16) ^ 0x9e3779b97f4a7c15;
    salted * 6364136223846793005 + 1442695040888963407
  }

  /** The words of two features in two regions. */
  lemma ScrambleInstances()
    ensures Scramble(0, 0) == 3236661110929538048 && Scramble(10000000, 3) == 5815236212438771840
  {}

  /** int64(word % uint64(size)). */
  function Fold(word: nat, size: int64): (offset: int64)
    requires size != 0
    ensures size >= 1 ==> 0 <= offset == word % size < size
  {
    Wrap64(word % (if size > 0 then size else size + Varint.TWO_64))
  }

  /** numRegions <= 0 stands for the default. */
  function RegionCount(requested: int64): (n: int64)
    ensures n >= 1
  {
    if requested <= 0 then 100 else requested
  }

  /** Go's division, which truncates toward zero. */
  function TruncDiv(a: int, b: int): int
    requires b != 0
  {
    if a >= 0 then a / b else -(-a / b)
  }

  function RegionSize(numKeys: int, numRegions: int): (size: int)
    requires numRegions >= 1
    ensures size != 0 && (numKeys >= 0 ==> size >= 1)
  {
    var size := TruncDiv(numKeys, numRegions);
    if size == 0 then 1 else size
  }

  function PlaceKey(numKeys: int64, regionSize: int64, region: int, offset: int64): int64 {
    var key := Wrap64(region * regionSize + offset);
    if key >= numKeys then Wrap64(numKeys - 1) else key
  }

  /** The region ChooseOperationForKey derives from a key; the one quotient that overflows wraps around. */
  function RegionOfKey(numRegions: int, regionSize: int, key: int): int
    requires regionSize != 0
  {
    var region := if key == -Varint.TWO_63 && regionSize == -1 then -Varint.TWO_63 else TruncDiv(key, regionSize);
    if region >= numRegions then numRegions - 1 else region
  }

  lemma RegionBounds(numRegions: int, regionSize: int, region: int, offset: int)
    requires regionSize >= 1 && 0 <= region < numRegions && 0 <= offset < regionSize
    ensures 0 <= region * regionSize + offset < numRegions * regionSize
    ensures (region * regionSize + offset) / regionSize == region
  {
    assert (region + 1) * regionSize <= numRegions * regionSize;
    var key := region * regionSize + offset;
    var q, r := key / regionSize, key % regionSize;
    assert (q - region) * regionSize == offset - r;
    assert q - region >= 1 ==> (q - region) * regionSize >= regionSize;
    assert q - region <= -1 ==> (q - region) * regionSize <= -regionSize;
  }

  /** For 64-bit arguments the region size is a 64-bit word. */
  function SizeOf(numKeys: int64, numRegions: int64): (size: int64)
    requires numRegions >= 1
    ensures size == RegionSize(numKeys, numRegions)
  {
    QuotientFits(numKeys, numRegions);
    RegionSize(numKeys, numRegions)
  }

  lemma QuotientFits(a: int, b: int)
    requires b >= 1
    ensures a >= 0 ==> 0 <= TruncDiv(a, b) <= a
    ensures a < 0 ==> a <= TruncDiv(a, b) <= 0
  {
    if a >= 0 {
      DividedFits(a, b);
    } else {
      DividedFits(-a, b);
    }
  }

  lemma DividedFits(m: nat, b: int)
    requires b >= 1
    ensures 0 <= m / b <= m
  {
    QuotientBounds(m, b, m / b, m % b);
  }

  lemma QuotientBounds(m: nat, b: int, q: int, r: int)
    requires b >= 1 && m == b * q + r && 0 <= r < b
    ensures 0 <= q <= m
  {
    Grows(b, q);
  }

  lemma {:induction false} Grows(b: int, q: int)
    requires b >= 1
    ensures q >= 0 ==> b * q >= q
    ensures q < 0 ==> b * q <= -b
    decreases if q < 0 then -q else q
  {
    if q > 0 {
      Grows(b, q - 1);
      assert b * q == b * (q - 1) + b;
    } else if q < -1 {
      Grows(b, q + 1);
      assert b * q == b * (q + 1) - b;
    }
  }

  lemma WrapFits(x: int64)
    ensures Wrap64(x) == x
  {}

  lemma SizeFits(numKeys: int, numRegions: int)
    requires 1 <= numRegions <= numKeys
    ensures numRegions * RegionSize(numKeys, numRegions) <= numKeys
  {
    var q := numKeys / numRegions;
    assert q >= 1 by {
      assert q <= 0 ==> numRegions * q <= 0;
    }
  }

  lemma SizeOne(numKeys: int, numRegions: int)
    requires 1 <= numKeys < numRegions
    ensures RegionSize(numKeys, numRegions) == 1
  {}

  /**
   The two independently computed regions, the one drawn and the one found from the key, agree
   exactly when the region drawn is below the number of keys. With no more regions than keys that
   is always so, and then no key is clamped.
   */
  lemma RegionsAgreeIff(numKeys: int64, numRegions: int64, region: int, offset: int64)
    requires numKeys >= 1 && numRegions >= 1 && 0 <= region < numRegions
    requires 0 <= offset < RegionSize(numKeys, numRegions)
    ensures var size := SizeOf(numKeys, numRegions);
            var key := PlaceKey(numKeys, size, region, offset);
            && 0 <= key < numKeys
            && (RegionOfKey(numRegions, size, key) == region <==> region < numKeys)
            && (numRegions <= numKeys ==>
                  key == region * size + offset < numRegions * size && key / size == region)
  {
    hide RegionSize, Wrap64;
    var size := SizeOf(numKeys, numRegions);
    RegionBounds(numRegions, size, region, offset);
    if numRegions <= numKeys {
      SizeFits(numKeys, numRegions);
    } else {
      SizeOne(numKeys, numRegions);
    }
    WrapFits(region * size + offset);
    WrapFits(numKeys - 1);
  }

  class PrefixMixGraphGenerator {
    const numKeys: int64
    const numRegions: int64
    const regionSize: int64
    const regionCDF: array<Float>
    const regionMap: array<int>
    const regionChoosers: array<Discrete?>
    ghost const weights: seq<real>
    var lastVal: int

    ghost predicate Valid()
      reads this, regionCDF, regionMap, regionChoosers, regionChoosers[..]
    {
      && numRegions >= 1 && regionSize == RegionSize(numKeys, numRegions)
      && regionCDF.Length == regionMap.Length == regionChoosers.Length == numRegions
      && Weights(weights) && CdfOf(regionCDF[..], weights)
      && Permutation(regionMap[..])
      && (forall r :: 0 <= r < numRegions ==> regionChoosers[r] != null)
      && (forall i :: 0 <= i < numRegions ==>
            0 <= regionMap[i] < numRegions && regionChoosers[regionMap[i]].values == MixOf(i, numRegions))
    }

    constructor (numKeys: int64, requested: int64, exp: real -> real, a: real, b: real, c: real, d: real,
                 positions: seq<int>)
      requires |positions| == RegionCount(requested)
      requires forall i :: 0 <= i < |positions| ==> 0 <= positions[i] < |positions|
      ensures regionMap[..] == Shuffled(RegionCount(requested), positions)
      ensures Valid() && this.numKeys == numKeys && numRegions == if requested <= 0 then 100 else requested
      ensures |weights| == numRegions
      ensures forall i {:trigger weights[i]} :: 0 <= i < numRegions ==>
                var w := a * exp(b * i as real) + c * exp(d * i as real);
                weights[i] == if w < 0.0 then 0.0 else w
    {
      var n := RegionCount(requested);
      var w := seq(n, i => Weight(exp, a, b, c, d, i as real));
      var cdf := BuildCdf(w);
      var shuffled := Shuffle(n, positions);
      var choosers := BuildChoosers(shuffled);
      this.numKeys, this.numRegions, this.regionSize := numKeys, n, SizeOf(numKeys, n);
      this.regionCDF, this.regionMap, this.regionChoosers := cdf, shuffled, choosers;
      this.weights, this.lastVal := w, 0;
    }

    /**
     u1 draws the bucket; skew is the power-law feature computed from the second draw. Without a key to
     draw the result lies below zero, except that the least key count of all wraps around.
     */
    method Next(u1: real, skew: int) returns (key: int64)
      requires Valid() && 0.0 <= u1 < 1.0
      modifies this`lastVal
      ensures Valid() && lastVal == key
      ensures numKeys >= 1 ==> 0 <= key < numKeys
      ensures numKeys <= 0 ==> key < numKeys || (numKeys == -Varint.TWO_63 && key == Varint.TWO_63 - 1)
      ensures exists bucket :: Draws(regionCDF[..], u1, bucket) && KeyFrom(bucket, skew, key)
    {
      hide Offset;
      CdfRises(regionCDF[..], weights, u1);
      var bucket := Search(regionCDF, u1);
      assert regionCDF[..][numRegions - 1].AtLeast(Finite(u1));
      if bucket >= numRegions {
        bucket := numRegions - 1;
      }
      var region := regionMap[bucket];
      var offset := Offset(skew, region, regionSize);
      if numKeys >= 1 {
        RegionsAgreeIff(numKeys, numRegions, region, offset);
      }
      var finalKey := Wrap64(region * regionSize + offset);
      if finalKey >= numKeys {
        finalKey := Wrap64(numKeys - 1);
      }
      lastVal := finalKey;
      key := finalKey;
      assert Draws(regionCDF[..], u1, bucket) && KeyFrom(bucket, skew, key);
    }

    ghost predicate KeyFrom(bucket: int, skew: int, key: int)
      reads regionMap
      requires regionSize != 0
    {
      && 0 <= bucket < regionMap.Length
      && key == PlaceKey(numKeys, regionSize, regionMap[bucket], Offset(skew, regionMap[bucket], regionSize))
    }

    /** Panics exactly on a key whose region number is negative. */
    method ChooseOperationForKey(keyNum: int64, draw: real) returns (op: int, panicked: bool)
      requires Valid() && 0.0 <= draw < 1.0
      modifies set r | 0 <= r < regionChoosers.Length :: regionChoosers[r]
      ensures Valid()
      ensures panicked <==> RegionOfKey(numRegions, regionSize, keyNum) < 0
      ensures !panicked ==>
                exists rank :: HasRank(RegionOfKey(numRegions, regionSize, keyNum), rank) && OpFrom(rank, draw, op)
    {
      hide MixOf, CdfOf, Picks, Selectable;
      var region := RegionOfKey(numRegions, regionSize, keyNum);
      if region < 0 {
        return 0, true;
      }
      ghost var rank := RankOf(region);
      op, panicked := regionChoosers[region].Next(draw);
      MixPicks(rank, numRegions, draw, op);
      assert HasRank(region, rank) && OpFrom(rank, draw, op);
    }

    /** Every region has a rank, and its wheel is that rank's. */
    lemma RankOf(region: int) returns (rank: int)
      requires Valid() && 0 <= region < numRegions
      ensures HasRank(region, rank) && regionChoosers[region].values == MixOf(rank, numRegions)
      ensures Selectable(MixOf(rank, numRegions))
    {
      hide MixOf, CdfOf;
      assert region in regionMap[..];
      rank :| 0 <= rank < numRegions && regionMap[rank] == region;
      MixIsWheel(rank, numRegions);
    }

    ghost predicate HasRank(region: int, rank: int)
      reads regionMap
    {
      0 <= rank < regionMap.Length && regionMap[rank] == region
    }

    /**
     The operation a hotness rank makes of a draw: 1 is a read, 2 an update. The hottest tenth reads
     three times in ten, the next fifth five times, the rest nine times.
     */
    ghost predicate OpFrom(rank: int, draw: real, op: int)
      requires numRegions >= 1
    {
      var pos := rank as real / numRegions as real;
      var share := if pos <= 0.10 then 0.3 else if pos <= 0.30 then 0.5 else 0.9;
      op == if draw < share then 1 else 2
    }

    /**
     The key-first branch of DoTransaction: the operation is drawn from the wheel of exactly the
     hotness bucket that produced the key, and the key is never the -1 that would be drawn again.
     */
    method ChooseKeyThenOperation(u1: real, skew: int, draw: real) returns (key: int64, op: int)
      requires Valid() && numRegions <= numKeys && 0.0 <= u1 < 1.0 && 0.0 <= draw < 1.0
      modifies this`lastVal, set r | 0 <= r < regionChoosers.Length :: regionChoosers[r]
      ensures Valid() && key != -1 && 0 <= key < numRegions * regionSize <= numKeys
      ensures exists bucket ::
                Draws(regionCDF[..], u1, bucket) && KeyFrom(bucket, skew, key) && OpFrom(bucket, draw, op)
    {
      hide Offset, CdfOf, MixOf, Picks, Draws, PlaceKey;
      key := Next(u1, skew);
      ghost var bucket :| Draws(regionCDF[..], u1, bucket) && KeyFrom(bucket, skew, key);
      BucketOfKey(bucket, skew, key);
      var panicked;
      op, panicked := ChooseOperationForKey(key, draw);
      ghost var rank :| HasRank(RegionOfKey(numRegions, regionSize, key), rank) && OpFrom(rank, draw, op);
      assert rank == bucket by {
        assert regionMap[..][rank] == regionMap[..][bucket];
      }
    }

    lemma BucketOfKey(bucket: int, skew: int, key: int64)
      requires Valid() && numRegions <= numKeys && KeyFrom(bucket, skew, key)
      ensures 0 <= key < numRegions * regionSize <= numKeys
      ensures RegionOfKey(numRegions, regionSize, key) == regionMap[bucket]
    {
      var region := regionMap[bucket];
      RegionsAgreeIff(numKeys, numRegions, region, Offset(skew, region, regionSize));
      SizeFits(numKeys, numRegions);
    }
  }
}
