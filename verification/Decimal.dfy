/** Decimal rendering as done by fmt's %d and %0*d and by strconv.FormatUint. */
module Decimal {
  import opened Lexicographic

  function Digit(d: nat): (c: char)
    requires d < 10
    ensures '0' <= c <= '9' && c as int - '0' as int == d
  {
    ('0' as int + d) as char
  }

  function Digits(n: nat): (s: string)
    ensures |s| >= 1
  {
    if n < 10 then [Digit(n)] else Digits(n / 10) + [Digit(n % 10)]
  }

  function Zeros(n: nat): (s: string)
    ensures |s| == n && forall i :: 0 <= i < n ==> s[i] == '0'
  {
    seq(n, _ => '0')
  }

  /** %0*d: at least `width` characters, filled with zeros on the left. */
  function Padded(n: nat, width: nat): (s: string)
    ensures |s| >= width && |s| >= |Digits(n)|
  {
    var s := Digits(n);
    if |s| < width then Zeros(width - |s|) + s else s
  }

  /** The number a string of digits denotes. */
  function Value(s: string): int {
    if s == [] then 0 else Value(s[..|s| - 1]) * 10 + (s[|s| - 1] as int - '0' as int)
  }

  function Pow10(k: nat): (p: nat)
    ensures p >= 1
  {
    if k == 0 then 1 else 10 * Pow10(k - 1)
  }

  lemma {:induction false} ValueOfDigits(n: nat)
    ensures Value(Digits(n)) == n
  {
    if n < 10 {
      assert Digits(n)[..0] == [];
    } else {
      ValueOfDigits(n / 10);
      assert Digits(n)[..|Digits(n)| - 1] == Digits(n / 10);
    }
  }

  lemma {:induction false} ValueSkipsZeros(zeros: nat, s: string)
    ensures Value(Zeros(zeros) + s) == Value(s)
    decreases |s|, zeros
  {
    var t := Zeros(zeros) + s;
    if s != [] {
      ValueSkipsZeros(zeros, s[..|s| - 1]);
      assert t[..|t| - 1] == Zeros(zeros) + s[..|s| - 1];
    } else if zeros > 0 {
      ValueSkipsZeros(zeros - 1, []);
      assert t[..|t| - 1] == Zeros(zeros - 1) + [];
    }
  }

  lemma ValueOfPadded(n: nat, width: nat)
    ensures Value(Padded(n, width)) == n
  {
    ValueOfDigits(n);
    if |Digits(n)| < width {
      ValueSkipsZeros(width - |Digits(n)|, Digits(n));
    }
  }

  /** A number below 10^k has at most k digits, and conversely. */
  lemma {:induction false} DigitCount(n: nat, k: nat)
    requires k >= 1
    ensures |Digits(n)| <= k <==> n < Pow10(k)
  {
    if k == 1 {
      assert Pow10(1) == 10 * Pow10(0);
    } else if n < 10 {
      assert Pow10(k) == 10 * Pow10(k - 1);
    } else {
      DigitCount(n / 10, k - 1);
    }
  }

  /** 10^w is a one and zeros, its predecessor all nines. */
  lemma {:induction false} PowerOfTenDigits(w: nat)
    requires w >= 1
    ensures |Digits(Pow10(w))| == w + 1 && Digits(Pow10(w))[0] == '1'
    ensures |Digits(Pow10(w) - 1)| == w && Digits(Pow10(w) - 1)[0] == '9'
  {
    if w == 1 {
      assert Pow10(1) == 10 * Pow10(0);
      assert Digits(10) == Digits(1) + [Digit(0)];
    } else {
      PowerOfTenDigits(w - 1);
      assert (Pow10(w) - 1) / 10 == Pow10(w - 1) - 1 && Pow10(w) / 10 == Pow10(w - 1);
    }
  }

  /** An unsigned 64-bit number has at most twenty digits. */
  lemma Uint64Digits(n: nat)
    requires n < 0x1_0000_0000_0000_0000
    ensures |Digits(n)| <= 20
  {
    assert Pow10(5) == 100000;
    assert Pow10(10) == 10000000000;
    assert Pow10(15) == 1000000000000000;
    assert Pow10(20) == 100000000000000000000;
    DigitCount(n, 20);
  }

  /** The last `width` digits of n, most significant first. */
  function Fixed(n: nat, width: nat): (s: string)
    ensures |s| == width
  {
    if width == 0 then [] else Fixed(n / 10, width - 1) + [Digit(n % 10)]
  }

  lemma {:induction false} FixedOfZero(width: nat)
    ensures Fixed(0, width) == Zeros(width)
  {
    if width > 0 {
      FixedOfZero(width - 1);
    }
  }

  /** Within the padding width, padding is the fixed-width rendering. */
  lemma {:induction false} PaddedIsFixed(n: nat, width: nat)
    requires width >= 1 && n < Pow10(width)
    ensures Padded(n, width) == Fixed(n, width)
    decreases width
  {
    DigitCount(n, width);
    if n < 10 {
      FixedOfZero(width - 1);
    } else {
      assert width > 1 by {
        assert Pow10(1) == 10 * Pow10(0);
      }
      PaddedIsFixed(n / 10, width - 1);
      DigitCount(n / 10, width - 1);
      assert Padded(n, width) == Padded(n / 10, width - 1) + [Digit(n % 10)];
    }
  }

  /** Appending one more character to equally long strings compares the strings first. */
  lemma {:induction false} LessByFront(a: string, b: string, x: char, y: char)
    requires |a| == |b|
    ensures Less(a + [x], b + [y]) <==> Less(a, b) || (a == b && x < y)
  {
    if a == [] {
      assert a + [x] == [x] && b + [y] == [y];
    } else {
      LessByFront(a[1..], b[1..], x, y);
      assert (a + [x])[1..] == a[1..] + [x] && (b + [y])[1..] == b[1..] + [y];
      assert a == [a[0]] + a[1..] && b == [b[0]] + b[1..];
    }
  }

  /** Fixed-width rendering orders and separates the numbers that fit. */
  lemma {:induction false} FixedOrder(a: nat, b: nat, width: nat)
    requires a < Pow10(width) && b < Pow10(width)
    ensures Less(Fixed(a, width), Fixed(b, width)) <==> a < b
    ensures Fixed(a, width) == Fixed(b, width) <==> a == b
  {
    if width > 0 {
      FixedOrder(a / 10, b / 10, width - 1);
      var x, y := Fixed(a / 10, width - 1), Fixed(b / 10, width - 1);
      LessByFront(x, y, Digit(a % 10), Digit(b % 10));
      assert (x + [Digit(a % 10)])[..width - 1] == x && (y + [Digit(b % 10)])[..width - 1] == y;
      assert (x + [Digit(a % 10)])[width - 1] == Digit(a % 10) && (y + [Digit(b % 10)])[width - 1] == Digit(b % 10);
    }
  }

  /** n without its last k digits. */
  function DropDigits(n: nat, k: nat): (q: nat)
    ensures q == n / Pow10(k)
  {
    if k == 0 then n
    else
      DivDiv(n, Pow10(k - 1));
      DropDigits(n / 10, k - 1)
  }

  /** Dropping the last `k` digits divides by 10^k. */
  lemma {:induction false} FixedPrefix(n: nat, width: nat, k: nat)
    requires k <= width
    ensures Fixed(n, width)[..width - k] == Fixed(DropDigits(n, k), width - k)
  {
    if k == 0 {
      assert Fixed(n, width)[..width] == Fixed(n, width);
    } else {
      FixedPrefix(n / 10, width - 1, k - 1);
      assert Fixed(n, width)[..width - k] == Fixed(n / 10, width - 1)[..width - k];
    }
  }

  lemma DivDiv(n: nat, p: nat)
    requires p >= 1
    ensures n / 10 / p == n / (10 * p)
  {
    var q := n / 10 / p;
    var r := n / 10 - q * p;
    assert n == (q * p + r) * 10 + n % 10;
    assert n == q * (10 * p) + (r * 10 + n % 10);
    DivUnique(n, 10 * p, q, r * 10 + n % 10);
  }

  lemma DivUnique(n: int, d: int, q: int, r: int)
    requires d >= 1 && n == q * d + r && 0 <= r < d
    ensures n / d == q && n % d == r
  {
    var q', r' := n / d, n % d;
    assert n == q' * d + r' && 0 <= r' < d;
    assert (q - q') * d == r' - r;
    assert q - q' >= 1 ==> (q - q') * d >= d;
    assert q - q' <= -1 ==> (q - q') * d <= -d;
  }
}
