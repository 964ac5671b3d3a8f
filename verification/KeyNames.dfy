/** Key names of ordered inserts: a prefix and the zero-padded key number. */
module KeyNames {
  import opened Lexicographic
  import opened Decimal
  import opened MixGraph

  function KeyName(prefix: string, keyNum: nat, zeroPadding: nat): string {
    prefix + Padded(keyNum, zeroPadding)
  }

  /** A name is the prefix and then a decimal of at least the padding's width that denotes the key. */
  lemma NameReads(prefix: string, keyNum: nat, zeroPadding: nat)
    ensures var name := KeyName(prefix, keyNum, zeroPadding);
            && prefix <= name && Value(name[|prefix|..]) == keyNum
            && |name| == |prefix| + if |Digits(keyNum)| < zeroPadding then zeroPadding else |Digits(keyNum)|
  {
    assert KeyName(prefix, keyNum, zeroPadding)[|prefix|..] == Padded(keyNum, zeroPadding);
    ValueOfPadded(keyNum, zeroPadding);
  }

  /** Distinct keys have distinct names, whatever the padding. */
  lemma NamesDistinct(prefix: string, a: nat, b: nat, zeroPadding: nat)
    requires KeyName(prefix, a, zeroPadding) == KeyName(prefix, b, zeroPadding)
    ensures a == b
  {
    NameReads(prefix, a, zeroPadding);
    NameReads(prefix, b, zeroPadding);
  }

  /** The width a padding really gives: a number has at least one digit. */
  function Width(zeroPadding: nat): (w: nat)
    ensures w >= 1
  {
    if zeroPadding == 0 then 1 else zeroPadding
  }

  /** Among keys that fit the padding, the order of the names is the order of the numbers. */
  lemma NamesOrdered(prefix: string, a: nat, b: nat, zeroPadding: nat)
    requires a < Pow10(Width(zeroPadding)) && b < Pow10(Width(zeroPadding))
    ensures Less(KeyName(prefix, a, zeroPadding), KeyName(prefix, b, zeroPadding)) <==> a < b
  {
    var w := Width(zeroPadding);
    assert Padded(a, w) == Padded(a, zeroPadding) && Padded(b, w) == Padded(b, zeroPadding);
    PaddedIsFixed(a, w);
    PaddedIsFixed(b, w);
    FixedOrder(a, b, w);
    SharedPrefix(prefix, Padded(a, zeroPadding), Padded(b, zeroPadding));
  }

  /** The first key that does not fit the padding sorts before its predecessor, as 10 does before 9. */
  lemma PaddingIsNeeded(prefix: string, zeroPadding: nat)
    ensures var n := Pow10(Width(zeroPadding));
            n >= 1 && Less(KeyName(prefix, n, zeroPadding), KeyName(prefix, n - 1, zeroPadding))
  {
    var w := Width(zeroPadding);
    var n := Pow10(w);
    PowerOfTenDigits(w);
    assert Padded(n, zeroPadding) == Digits(n) && Padded(n - 1, zeroPadding) == Digits(n - 1);
    SharedPrefix(prefix, Padded(n, zeroPadding), Padded(n - 1, zeroPadding));
  }

  /** The names of the keys below a count are in numeric order exactly when all of them fit the padding. */
  lemma NamesOrderedIff(prefix: string, count: nat, zeroPadding: nat)
    ensures (forall a: nat, b: nat :: a < count && b < count ==>
               (Less(KeyName(prefix, a, zeroPadding), KeyName(prefix, b, zeroPadding)) <==> a < b))
       <==> count <= Pow10(Width(zeroPadding))
  {
    hide KeyName;
    if count <= Pow10(Width(zeroPadding)) {
      forall a: nat, b: nat | a < count && b < count
        ensures Less(KeyName(prefix, a, zeroPadding), KeyName(prefix, b, zeroPadding)) <==> a < b
      {
        NamesOrdered(prefix, a, b, zeroPadding);
      }
    } else {
      PaddingIsNeeded(prefix, zeroPadding);
    }
  }

  // ----- regions and name prefixes

  const REGION_DIGITS: nat := 5

  /** How the workload derives the number of regions from the record count. */
  function RegionsFor(recordCount: int): (n: int)
    requires recordCount >= 1
    ensures n >= 10
  {
    var n := recordCount / 100000;
    if n < 10 then 10 else n
  }

  /**
   The region size is documented to be 100000 always. It is exactly when the record count is at
   least a million and its remainder is smaller than the number of regions.
   */
  lemma RegionSizeIff(recordCount: int)
    requires recordCount >= 1
    ensures RegionSize(recordCount, RegionsFor(recordCount)) == 100000
       <==> recordCount >= 1000000 && recordCount % 100000 < recordCount / 100000
  {
    var n, r := recordCount / 100000, recordCount % 100000;
    if recordCount >= 1000000 {
      assert recordCount == n * 100000 + r;
      if r < n {
        DivUnique(recordCount, n, 100000, r);
      } else {
        assert recordCount == n * (recordCount / n) + recordCount % n;
      }
    }
  }

  lemma RegionSizeNotAlways()
    ensures RegionSize(1050000, RegionsFor(1050000)) == 105000
  {
    assert RegionsFor(1050000) == 10;
  }

  /** All of a name but its last five characters. */
  function NameStem(name: string): string
    requires |name| >= REGION_DIGITS
  {
    name[..|name| - REGION_DIGITS]
  }

  /**
   Two keys whose names have five digits to drop lie in the same region exactly when their names agree
   on all but those, or both lie in the last region or past it, where the region number is clamped.
   */
  lemma RegionIsNameStem(prefix: string, a: nat, b: nat, zeroPadding: nat, recordCount: int)
    requires recordCount >= 1000000 && recordCount % 100000 < recordCount / 100000
    requires |Padded(a, zeroPadding)| >= REGION_DIGITS && |Padded(b, zeroPadding)| >= REGION_DIGITS
    ensures var n := RegionsFor(recordCount);
            var size := RegionSize(recordCount, n);
            && size == 100000
            && (RegionOfKey(n, size, a) == RegionOfKey(n, size, b) <==>
                || NameStem(KeyName(prefix, a, zeroPadding)) == NameStem(KeyName(prefix, b, zeroPadding))
                || (a >= (n - 1) * size && b >= (n - 1) * size))
  {
    hide KeyName, NameStem, Padded;
    RegionSizeIff(recordCount);
    NamesLong(prefix, a, zeroPadding);
    NamesLong(prefix, b, zeroPadding);
    StemsAgreeIff(prefix, a, b, zeroPadding);
  }

  lemma NamesLong(prefix: string, n: nat, zeroPadding: nat)
    ensures |KeyName(prefix, n, zeroPadding)| == |prefix| + |Padded(n, zeroPadding)|
  {}

  lemma StemsAgreeIff(prefix: string, a: nat, b: nat, zeroPadding: nat)
    requires |Padded(a, zeroPadding)| >= REGION_DIGITS && |Padded(b, zeroPadding)| >= REGION_DIGITS
    ensures NameStem(KeyName(prefix, a, zeroPadding)) == NameStem(KeyName(prefix, b, zeroPadding))
       <==> a / 100000 == b / 100000
  {
    hide NameStem, KeyName, Padded, Fixed;
    var v, w := |Padded(a, zeroPadding)| - 5, |Padded(b, zeroPadding)| - 5;
    NamesLong(prefix, a, zeroPadding);
    NamesLong(prefix, b, zeroPadding);
    StemOf(prefix, a, zeroPadding);
    StemOf(prefix, b, zeroPadding);
    assert (prefix + Fixed(a / 100000, v))[|prefix|..] == Fixed(a / 100000, v);
    assert (prefix + Fixed(b / 100000, w))[|prefix|..] == Fixed(b / 100000, w);
    if a / 100000 == b / 100000 {
      EquallyLong(a, b, zeroPadding);
      EquallyLong(b, a, zeroPadding);
    }
    if v == w {
      FixedOrder(a / 100000, b / 100000, w);
    }
  }

  /** Numbers that differ in their last five digits only have equally long names. */
  lemma EquallyLong(a: nat, b: nat, zeroPadding: nat)
    requires |Padded(a, zeroPadding)| >= REGION_DIGITS && a / 100000 == b / 100000
    ensures |Padded(b, zeroPadding)| <= |Padded(a, zeroPadding)|
  {
    hide Pow10;
    var w := |Padded(a, zeroPadding)|;
    DigitCount(a, w);
    Pow10Split(w - 5);
    SameMultiple(a, b, Pow10(w - 5));
    DigitCount(b, w);
  }

  lemma SameMultiple(a: nat, b: nat, p: nat)
    requires a / 100000 == b / 100000 && a < 100000 * p
    ensures b < 100000 * p
  {}

  lemma StemOf(prefix: string, n: nat, zeroPadding: nat)
    requires |Padded(n, zeroPadding)| >= REGION_DIGITS
    ensures var w := |Padded(n, zeroPadding)| - 5;
            && n / 100000 < Pow10(w)
            && NameStem(KeyName(prefix, n, zeroPadding)) == prefix + Fixed(n / 100000, w)
  {
    var w := |Padded(n, zeroPadding)|;
    DigitCount(n, w);
    assert Padded(n, w) == Padded(n, zeroPadding);
    PaddedIsFixed(n, w);
    FixedPrefix(n, w, 5);
    assert Pow10(5) == 100000;
    Pow10Split(w - 5);
    assert NameStem(KeyName(prefix, n, zeroPadding)) == prefix + Fixed(n, w)[..w - 5];
  }

  lemma Pow10Split(w: nat)
    ensures Pow10(w + 5) == 100000 * Pow10(w)
  {
    assert Pow10(w + 5) == 100 * Pow10(w + 3);
    assert Pow10(w + 3) == 100 * Pow10(w + 1);
  }
}
