/** Machine-word arithmetic: bitwise operations on naturals, defined bit by bit,
    and the facts that turn masks and shifts into division and remainder. */
module Bits {

  /** The number of values of a 64-bit word. */
  const WORD: nat := 0x1_0000_0000_0000_0000

  type Word = x: nat | x < WORD

  function Pow2(n: nat): (r: nat)
    ensures r >= 1
  {
    if n == 0 then 1 else 2 * Pow2(n - 1)
  }

  function And(x: nat, y: nat): nat {
    if x == 0 || y == 0 then 0
    else 2 * And(x / 2, y / 2) + (if x % 2 == 1 && y % 2 == 1 then 1 else 0)
  }

  function Or(x: nat, y: nat): nat
    decreases x + y
  {
    if x == 0 then y else if y == 0 then x
    else 2 * Or(x / 2, y / 2) + (if x % 2 == 1 || y % 2 == 1 then 1 else 0)
  }

  ghost predicate IsPow2(n: nat) {
    exists k: nat :: n == Pow2(k)
  }

  lemma DivModUnique(x: int, q: int, r: int, m: int)
    requires 0 <= r < m && x == q * m + r
    ensures x / m == q && x % m == r
  {
    var q' := x / m;
    assert x == q' * m + x % m;
    if q > q' {
      MulAtLeast(q - q', m);
    } else if q < q' {
      MulAtLeast(q' - q, m);
    }
  }

  lemma MulAtLeast(a: int, m: int)
    requires a >= 1 && m >= 0
    ensures a * m >= m
  {}

  /** The low bit splits off a remainder by an even modulus. */
  lemma HalveMod(x: nat, m: nat)
    requires m > 0
    ensures x % (2 * m) == 2 * ((x / 2) % m) + x % 2
    ensures x / (2 * m) == (x / 2) / m
  {
    var q, r := (x / 2) / m, (x / 2) % m;
    assert x == 2 * (q * m + r) + x % 2;
    assert x == q * (2 * m) + (2 * r + x % 2);
    DivModUnique(x, q, 2 * r + x % 2, 2 * m);
  }

  /** Masking with 2^k - 1 is the remainder by 2^k. */
  lemma {:induction false} AndMask(x: nat, k: nat)
    ensures And(x, Pow2(k) - 1) == x % Pow2(k)
  {
    hide And;
    if k == 0 {
      AndZero(x);
      assert x % Pow2(0) == 0;
    } else {
      var p := Pow2(k - 1);
      HalveMod(x, p);
      AndMask(x / 2, k - 1);
      AndOdd(x, p - 1);
    }
  }

  lemma AndZero(x: nat)
    ensures And(x, 0) == 0
  {}

  lemma AndOdd(x: nat, m: nat)
    ensures And(x, 2 * m + 1) == 2 * And(x / 2, m) + x % 2
  {
    assert (2 * m + 1) / 2 == m && (2 * m + 1) % 2 == 1;
  }

  /** The test `(n - 1) & n == 0` accepts every power of two. */
  lemma {:induction false} AndPred(k: nat)
    ensures And(Pow2(k) - 1, Pow2(k)) == 0
  {
    if k > 0 { AndPred(k - 1); }
  }

  lemma Pow2Test(n: nat)
    requires IsPow2(n)
    ensures n > 0 && And(n - 1, n) == 0
  {
    var k: nat :| n == Pow2(k);
    AndPred(k);
  }

  lemma DoubleIsPow2(n: nat)
    requires IsPow2(n)
    ensures IsPow2(2 * n)
  {
    var k: nat :| n == Pow2(k);
    assert Pow2(k + 1) == 2 * n;
  }

  lemma HalfIsPow2(n: nat)
    requires IsPow2(n) && n > 1
    ensures IsPow2(n / 2) && n == 2 * (n / 2) && (n == 2 || n == 4 * (n / 4))
  {
    var k: nat :| n == Pow2(k);
    assert n / 2 == Pow2(k - 1);
    if n > 2 { assert n / 4 == Pow2(k - 2); }
  }

  lemma {:induction false} Pow2Add(a: nat, b: nat)
    ensures Pow2(a + b) == Pow2(a) * Pow2(b)
  {
    if a > 0 { Pow2Add(a - 1, b); }
  }

  lemma {:induction false} Pow2Monotone(a: nat, b: nat)
    requires a <= b
    ensures Pow2(a) <= Pow2(b)
  {
    if a < b { Pow2Monotone(a, b - 1); }
  }

  lemma Pow2Word()
    ensures Pow2(64) == WORD
  {
    Pow2Square(2, 4);
    Pow2Square(4, 16);
    Pow2Square(8, 0x100);
    Pow2Square(16, 0x1_0000);
    Pow2Square(32, 0x1_0000_0000);
  }

  lemma Pow2Square(k: nat, n: nat)
    requires Pow2(k) == n
    ensures Pow2(2 * k) == n * n
  {
    Pow2Add(k, k);
  }

  lemma AndEven(x: nat, y: nat)
    ensures And(x, 2 * y) == 2 * And(x / 2, y)
  {}

  /** Clearing the low k bits of an m-bit word subtracts the remainder by 2^k. */
  lemma {:induction false} AndNotMask(x: nat, k: nat, m: nat)
    requires k <= m && x < Pow2(m)
    ensures Pow2(k) <= Pow2(m)
    ensures And(x, Pow2(m) - Pow2(k)) == x - x % Pow2(k)
  {
    hide And;
    Pow2Monotone(k, m);
    if k == 0 {
      AndMask(x, m);
      DivModUnique(x, 0, x, Pow2(m));
    } else {
      var a, b := Pow2(m - 1), Pow2(k - 1);
      assert Pow2(m) == 2 * a && Pow2(k) == 2 * b;
      HalveMod(x, b);
      AndNotMask(x / 2, k - 1, m - 1);
      AndEven(x, a - b);
    }
  }

  /** A remainder by 2^k does not see a 64-bit wrap-around. */
  lemma WrapMod(x: nat, k: nat)
    requires k <= 64
    ensures (x % WORD) % Pow2(k) == x % Pow2(k)
  {
    Pow2Word();
    Pow2Add(64 - k, k);
    var a, n := Pow2(64 - k), Pow2(k);
    ModOfMod(x, a, n);
  }

  lemma ModOfMod(x: nat, a: nat, n: nat)
    requires a > 0 && n > 0 && a * n > 0
    ensures (x % (a * n)) % n == x % n
  {
    var q, r := x / (a * n), x % (a * n);
    var u := r / n;
    assert r == u * n + r % n;
    calc {
      x;
      q * (a * n) + r;
      q * (a * n) + u * n + r % n;
      (q * a) * n + u * n + r % n;
      (q * a + u) * n + r % n;
    }
    DivModUnique(x, q * a + u, r % n, n);
  }

  /** Or of a value below 2^k with a multiple of 2^k is their sum. */
  lemma {:induction false} OrDisjoint(x: nat, y: nat, k: nat)
    requires x < Pow2(k)
    ensures Or(x, y * Pow2(k)) == x + y * Pow2(k)
  {
    hide Or;
    if k == 0 {
      OrEven(x, 0);
      OrZero(y);
      assert y * Pow2(0) == y;
    } else {
      var p := Pow2(k - 1);
      OrDisjoint(x / 2, y, k - 1);
      OrEven(x, y * p);
      assert y * (2 * p) == 2 * (y * p);
    }
  }

  lemma OrZero(y: nat)
    ensures Or(0, y) == y
  {}

  lemma OrEven(x: nat, h: nat)
    ensures Or(x, 2 * h) == 2 * Or(x / 2, h) + x % 2
  {
    assert (2 * h) / 2 == h && (2 * h) % 2 == 0;
    if h == 0 { assert Or(x / 2, 0) == x / 2; }
  }

  /** `(n + align - 1) & ~(align - 1)` on 64-bit words. */
  function RoundUp(n: nat, align: nat): nat
    requires 0 < align <= WORD
  {
    And((n + (align - 1)) % WORD, WORD - align)
  }

  lemma RoundUpValue(n: nat, align: nat)
    requires IsPow2(align) && align <= WORD && n + (align - 1) < WORD
    ensures RoundUp(n, align) == n + (align - 1) - (n + (align - 1)) % align
  {
    var k: nat :| align == Pow2(k);
    Pow2Word();
    assert k <= 64 by {
      if k > 64 {
        Pow2Monotone(65, k);
      }
    }
    var x := n + (align - 1);
    hide And;
    DivModUnique(x, 0, x, WORD);
    AndNotMask(x, k, 64);
  }

  lemma SubtractMod(x: nat, m: nat)
    requires m > 0
    ensures (x - x % m) % m == 0
  {
    DivModUnique(x - x % m, x / m, 0, m);
  }

  /** Without wrap-around, rounding up gives the least multiple of the alignment that is at least n. */
  lemma RoundUpLeast(n: nat, align: nat)
    requires IsPow2(align) && align <= WORD && n + (align - 1) < WORD
    ensures n <= RoundUp(n, align) < n + align && RoundUp(n, align) % align == 0
    ensures forall m: nat | m % align == 0 && n <= m :: RoundUp(n, align) <= m
  {
    hide RoundUp;
    RoundUpValue(n, align);
    SubtractMod(n + (align - 1), align);
    forall m: nat | m % align == 0 && n <= m ensures RoundUp(n, align) <= m {
      MultipleAbove(n, m, RoundUp(n, align), align);
    }
  }

  lemma MultipleAbove(n: nat, m: nat, r: nat, align: nat)
    requires align > 0 && m % align == 0 && r % align == 0 && n <= m && r < n + align
    ensures r <= m
  {
    var a, b := m / align, r / align;
    assert m == a * align && r == b * align;
    assert (b - a) * align == b * align - a * align;
    if b > a { MulAtLeast(b - a, align); }
  }

  // ---- Shifts ----

  function ShiftRight(n: nat, k: nat): nat {
    if k == 0 then n else ShiftRight(n / 2, k - 1)
  }

  lemma {:induction false} ShiftFourMore(n: nat, k: nat)
    ensures ShiftRight(n, k + 4) == ShiftRight(n, k) / 16
  {
    if k == 0 {
      assert ShiftRight(n, 4) == ShiftRight(n / 2, 3);
      assert ShiftRight(n / 2, 3) == ShiftRight(n / 2 / 2, 2);
      assert ShiftRight(n / 2 / 2, 2) == ShiftRight(n / 2 / 2 / 2, 1);
      assert ShiftRight(n / 2 / 2 / 2, 1) == n / 2 / 2 / 2 / 2;
    } else {
      ShiftFourMore(n / 2, k - 1);
    }
  }

  lemma {:induction false} ShiftMonotone(a: nat, b: nat, k: nat)
    requires a <= b
    ensures ShiftRight(a, k) <= ShiftRight(b, k)
  {
    if k > 0 { ShiftMonotone(a / 2, b / 2, k - 1); }
  }

  lemma {:induction false} ShiftedOut(n: nat, k: nat)
    requires n < Pow2(k)
    ensures ShiftRight(n, k) == 0
  {
    if k > 0 { ShiftedOut(n / 2, k - 1); }
  }

  lemma EightIsPow2()
    ensures IsPow2(8)
  {
    assert Pow2(3) == 8;
  }

  function Max(a: nat, b: nat): nat {
    if a < b then b else a
  }
}
