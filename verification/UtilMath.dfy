// Machine words and the ALIGN macro (amdgpu/util_math.h).
module UtilMath {

  const TWO_TO_32 := 0x1_0000_0000
  const TWO_TO_64 := 0x1_0000_0000_0000_0000

  function Min(a: int, b: int): (r: int)
    ensures r <= a && r <= b && (r == a || r == b)
  {
    if a < b then a else b
  }

  function Max(a: int, b: int): (r: int)
    ensures a <= r && b <= r && (r == a || r == b)
  {
    if a > b then a else b
  }

  function Pow2(k: nat): (r: nat)
    ensures r > 0
  {
    if k == 0 then 1 else 2 * Pow2(k - 1)
  }

  ghost predicate IsPowerOfTwo(a: int) {
    exists k: nat :: a == Pow2(k)
  }

  // What C's unsigned arithmetic leaves of a result in a word of the given modulus.
  function Wrap(x: int, modulus: int): (r: int)
    requires modulus > 0
    ensures 0 <= r < modulus
    ensures 0 <= x < modulus ==> r == x
  {
    if 0 <= x < modulus then x else x % modulus
  }

  // It differs from the result by a multiple of the modulus.
  lemma WrapIsRemainder(x: int, modulus: int)
    requires modulus > 0
    ensures Wrap(x, modulus) == x % modulus
  {
    if 0 <= x < modulus { DivModUnique(x, modulus, 0, x); }
  }

  // C's bitwise `&`, one bit at a time.
  function BitAnd(x: nat, y: nat): nat
  {
    if x == 0 || y == 0 then 0
    else 2 * BitAnd(x / 2, y / 2) + (if x % 2 == 1 && y % 2 == 1 then 1 else 0)
  }

  // ALIGN(value, alignment) on words of the given modulus: add the mask, clear its bits.
  // The complement of a word m is modulus - 1 - m.
  function Align(value: nat, alignment: nat, modulus: nat): nat
    requires modulus > 0
  {
    var mask := Wrap(alignment - 1, modulus);
    BitAnd(Wrap(value + mask, modulus), modulus - 1 - mask)
  }

  // r is the least multiple of alignment that is not below value.
  ghost predicate IsRoundUp(r: int, value: int, alignment: int)
    requires alignment > 0
  {
    && r % alignment == 0
    && value <= r
    && forall m: int :: m % alignment == 0 && value <= m ==> r <= m
  }

  function RoundUp(value: int, alignment: int): int
    requires alignment > 0
  {
    var waste := value % alignment;
    value + (if waste == 0 then 0 else alignment - waste)
  }

  // A product is either zero or at least one factor away from it.
  lemma ProductStep(k: int, a: int)
    requires a > 0
    ensures k >= 1 ==> k * a >= a
    ensures k <= -1 ==> k * a <= -a
  {
  }

  lemma DivModUnique(x: int, a: int, q: int, r: int)
    requires a > 0 && 0 <= r < a && x == q * a + r
    ensures x / a == q && x % a == r
  {
    var d := x / a;
    assert x == d * a + x % a;
    assert (q - d) * a == q * a - d * a;
    ProductStep(q - d, a);
  }

  lemma MultipleShift(m: int, a: int)
    requires a > 0 && m % a == 0
    ensures (m + a) % a == 0 && (m - a) % a == 0
  {
    var q := m / a;
    assert m == q * a;
    assert (q + 1) * a == q * a + a && (q - 1) * a == q * a - a;
    DivModUnique(m + a, a, q + 1, 0);
    DivModUnique(m - a, a, q - 1, 0);
  }

  lemma MultipleBelow(v: int, a: int)
    requires a > 0
    ensures (v - v % a) % a == 0 && v - a < v - v % a <= v
  {
    assert v == (v / a) * a + v % a;
    DivModUnique(v - v % a, a, v / a, 0);
  }

  // Two multiples of a are equal or at least a apart.
  lemma MultiplesApart(m: int, n: int, a: int)
    requires a > 0 && m % a == 0 && n % a == 0
    ensures m < n ==> m + a <= n
    ensures n < m ==> n + a <= m
  {
    var p, q := m / a, n / a;
    assert m == p * a && n == q * a;
    assert (q - p) * a == q * a - p * a;
    ProductStep(q - p, a);
  }

  lemma RoundUpIsLeast(value: int, alignment: int)
    requires alignment > 0
    ensures IsRoundUp(RoundUp(value, alignment), value, alignment)
    ensures RoundUp(value, alignment) < value + alignment
  {
    var r := RoundUp(value, alignment);
    MultipleBelow(value, alignment);
    MultipleShift(value - value % alignment, alignment);
    forall m: int | m % alignment == 0 && value <= m
      ensures r <= m
    {
      MultiplesApart(m, r, alignment);
    }
  }

  lemma {:induction false} Pow2Monotone(k: nat, w: nat)
    requires k <= w
    ensures Pow2(k) <= Pow2(w)
  {
    if k < w { Pow2Monotone(k, w - 1); }
  }

  lemma {:induction false} BitAndAllOnes(x: nat, w: nat)
    requires x < Pow2(w)
    ensures BitAnd(x, Pow2(w) - 1) == x
  {
    if x > 0 {
      BitAndAllOnes(x / 2, w - 1);
      assert (Pow2(w) - 1) / 2 == Pow2(w - 1) - 1 && (Pow2(w) - 1) % 2 == 1;
    }
  }

  function LowBits(x: nat, k: nat): nat {
    if k == 0 then 0 else 2 * LowBits(x / 2, k - 1) + x % 2
  }

  lemma {:induction false} LowBitsIsRemainder(x: nat, k: nat)
    ensures LowBits(x, k) == x % Pow2(k)
  {
    if k == 0 {
      assert x % 1 == 0;
    } else {
      LowBitsIsRemainder(x / 2, k - 1);
      ModOfHalf(x, Pow2(k - 1));
    }
  }

  lemma BitAndEven(x: nat, half: nat)
    ensures BitAnd(x, 2 * half) == 2 * BitAnd(x / 2, half)
  {
    assert 2 * half / 2 == half;
  }

  // Masking with the complement of 2^k - 1 clears the k low bits of a w-bit word.
  lemma {:induction false} BitAndClearsLow(x: nat, k: nat, w: nat)
    requires k <= w && x < Pow2(w)
    ensures Pow2(k) <= Pow2(w)
    ensures BitAnd(x, Pow2(w) - Pow2(k)) == x - LowBits(x, k)
  {
    Pow2Monotone(k, w);
    if k == 0 {
      BitAndAllOnes(x, w);
    } else {
      BitAndClearsLow(x / 2, k - 1, w - 1);
      BitAndEven(x, Pow2(w - 1) - Pow2(k - 1));
    }
  }

  lemma ModOfHalf(x: nat, p: nat)
    requires p > 0
    ensures x % (2 * p) == 2 * ((x / 2) % p) + x % 2
  {
    var q, r := (x / 2) / p, (x / 2) % p;
    assert x / 2 == q * p + r;
    assert 2 * (q * p) == q * (2 * p);
    DivModUnique(x, 2 * p, q, 2 * r + x % 2);
  }

  lemma {:induction false} Pow2Divides(k: nat, w: nat)
    requires k <= w
    ensures Pow2(w) % Pow2(k) == 0
  {
    if k < w {
      Pow2Divides(k, w - 1);
      var a, half := Pow2(k), Pow2(w - 1);
      assert half == (half / a) * a;
      assert 2 * ((half / a) * a) == (2 * (half / a)) * a;
      DivModUnique(2 * half, a, 2 * (half / a), 0);
    } else {
      DivModUnique(Pow2(k), Pow2(k), 1, 0);
    }
  }

  lemma RoundDownOfSum(value: int, a: int)
    requires a > 0
    ensures var sum := value + a - 1; sum - sum % a == RoundUp(value, a)
  {
    var sum := value + a - 1;
    MultipleBelow(sum, a);
    RoundUpIsLeast(value, a);
    MultiplesApart(sum - sum % a, RoundUp(value, a), a);
  }

  lemma ClearedSum(value: nat, a: nat, m: nat)
    requires 0 < a && a + a <= m && value < m
    ensures var word := Wrap(value + (a - 1), m);
            word - word % a == if value + a - 1 < m then RoundUp(value, a) else 0
  {
    var sum := value + (a - 1);
    if sum < m {
      RoundDownOfSum(value, a);
    } else {
      DivModUnique(sum, m, 1, sum - m);
      DivModUnique(sum - m, a, 0, sum - m);
    }
  }

  lemma AlignUnfolded(value: nat, a: nat, m: nat)
    requires 0 < a <= m
    ensures Align(value, a, m) == BitAnd(Wrap(value + (a - 1), m), m - a)
  {
  }

  lemma AlignClearsLow(value: nat, k: nat, w: nat)
    requires k < w && value < Pow2(w)
    ensures 2 * Pow2(k) <= Pow2(w)
    ensures var word := Wrap(value + (Pow2(k) - 1), Pow2(w));
            Align(value, Pow2(k), Pow2(w)) == word - word % Pow2(k)
  {
    var a, m := Pow2(k), Pow2(w);
    TwiceFits(k, w);
    AlignUnfolded(value, a, m);
    var word := Wrap(value + (a - 1), m);
    assert BitAnd(word, m - a) == word - word % a by { MaskClearsLow(word, k, w); }
  }

  lemma TwiceFits(k: nat, w: nat)
    requires k < w
    ensures 2 * Pow2(k) <= Pow2(w)
  {
    Pow2Monotone(k, w - 1);
  }

  lemma MaskClearsLow(word: nat, k: nat, w: nat)
    requires k <= w && word < Pow2(w)
    ensures Pow2(k) <= Pow2(w)
    ensures BitAnd(word, Pow2(w) - Pow2(k)) == word - word % Pow2(k)
  {
    BitAndClearsLow(word, k, w);
    LowBitsIsRemainder(word, k);
  }

  // ALIGN computes the round-up exactly when adding the mask does not wrap;
  // when it wraps the result is 0.
  lemma AlignIsRoundUp(value: nat, k: nat, w: nat)
    requires k < w && value < Pow2(w)
    ensures Align(value, Pow2(k), Pow2(w)) ==
            if value + Pow2(k) - 1 < Pow2(w) then RoundUp(value, Pow2(k)) else 0
  {
    AlignClearsLow(value, k, w);
    ClearedSum(value, Pow2(k), Pow2(w));
  }

  // ALIGN keeps its promise, the least multiple not below the value, on exactly
  // the values that do not wrap (and on zero).
  lemma AlignCorrectIffNoWrap(value: nat, k: nat, w: nat)
    requires k < w && value < Pow2(w)
    ensures IsRoundUp(Align(value, Pow2(k), Pow2(w)), value, Pow2(k))
            <==> value == 0 || value + Pow2(k) - 1 < Pow2(w)
  {
    AlignIsRoundUp(value, k, w);
    RoundUpIsLeast(value, Pow2(k));
    Pow2Monotone(k, w);
    if value == 0 {
      DivModUnique(0, Pow2(k), 0, 0);
    }
  }

  lemma AlignIdempotent(value: nat, k: nat, w: nat)
    requires k < w && value < Pow2(w)
    ensures var once := Align(value, Pow2(k), Pow2(w));
            once < Pow2(w) && Align(once, Pow2(k), Pow2(w)) == once
  {
    AlignIsRoundUp(value, k, w);
    RoundUpIsLeast(value, Pow2(k));
    var a, m := Pow2(k), Pow2(w);
    Pow2Monotone(k, w);
    Pow2Divides(k, w);
    var once := Align(value, a, m);
    DivModUnique(0, a, 0, 0);
    assert once % a == 0;
    MultiplesApart(once, m, a);
    AlignIsRoundUp(once, k, w);
  }

  lemma TwiceProduct(p: int, q: int)
    ensures 2 * (p * q) == (2 * p) * q
  {
  }

  lemma {:induction false} Pow2Add(a: nat, b: nat)
    ensures Pow2(a + b) == Pow2(a) * Pow2(b)
  {
    if a > 0 {
      Pow2Add(a - 1, b);
      TwiceProduct(Pow2(a - 1), Pow2(b));
    }
  }

  lemma Pow2Square(k: nat, v: int)
    requires Pow2(k) == v
    ensures Pow2(k + k) == v * v
  {
    Pow2Add(k, k);
  }

  lemma Pow2Literals()
    ensures Pow2(32) == TWO_TO_32 && Pow2(64) == TWO_TO_64
  {
    Pow2Square(4, 16);
    Pow2Square(8, 0x100);
    Pow2Square(16, 0x1_0000);
    Pow2Square(32, TWO_TO_32);
  }
}
