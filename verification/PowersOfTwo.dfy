/** Rounding a word up to a power of two by spreading its highest bit to the right. */
module PowersOfTwo {
  import opened Bits

  /** Smallest power of two that is at least n. */
  function LeastPow2(n: nat): (r: nat)
    requires n > 0
    ensures IsPow2(r) && n <= r < 2 * n
    ensures forall k: nat :: n <= Pow2(k) ==> r <= Pow2(k)
  {
    if n == 1 then assert Pow2(0) == 1; 1
    else
      var h := LeastPow2((n + 1) / 2);
      assert IsPow2(2 * h) by { ghost var k: nat :| h == Pow2(k); assert Pow2(k + 1) == 2 * h; }
      assert forall k: nat :: n <= Pow2(k) ==> 2 * h <= Pow2(k) by {
        forall k: nat | n <= Pow2(k) ensures 2 * h <= Pow2(k) {
          assert (n + 1) / 2 <= Pow2(k - 1);
        }
      }
      2 * h
  }

  /** What the rounding of 64-bit words gives: where no power of two fits, the sum wraps to zero. */
  function WrappedPow2(n: Word): Word {
    if 0 < n <= WORD / 2 then HalfWordBound(n); LeastPow2(n) else 0
  }

  lemma HalfWordBound(n: nat)
    requires 0 < n <= WORD / 2
    ensures LeastPow2(n) <= WORD / 2
  {
    hide LeastPow2, Pow2;
    Pow2Half();
  }

  /** The result is a power of two exactly for the words up to 2^63. */
  lemma WrappedIsPow2(n: Word)
    ensures IsPow2(WrappedPow2(n)) <==> 0 < n <= WORD / 2
    ensures 0 < n <= WORD / 2 ==> n <= WrappedPow2(n) < 2 * n
  {
    if 0 < n <= WORD / 2 { assert IsPow2(LeastPow2(n)); } else if IsPow2(0) { Pow2Test(0); }
  }

  // ---- The bits that the loop has set so far ----

  ghost function BitLength(t: nat): nat {
    if t == 0 then 0 else 1 + BitLength(t / 2)
  }

  /** Of a number of k bits the s highest are ones; of fewer bits, all. */
  ghost predicate TopOnes(t: nat, k: nat, s: nat) {
    if k == 0 then t == 0 else (s >= k ==> t % 2 == 1) && TopOnes(t / 2, k - 1, s)
  }

  lemma {:induction false} HighestBit(t: nat)
    ensures TopOnes(t, BitLength(t), 1)
  {
    if t != 0 { HighestBit(t / 2); }
  }

  lemma {:induction false} TopBit(t: nat, k: nat, s: nat, j: nat)
    requires TopOnes(t, k, s) && k <= s + j && j < k
    ensures ShiftRight(t, j) % 2 == 1
  {
    if j > 0 { TopBit(t / 2, k - 1, s, j - 1); }
  }

  lemma OrHalves(x: nat, y: nat)
    ensures Or(x, y) / 2 == Or(x / 2, y / 2)
    ensures Or(x, y) % 2 == 1 <==> x % 2 == 1 || y % 2 == 1
  {}

  lemma {:induction false} ShiftHalves(t: nat, s: nat)
    ensures ShiftRight(t, s) / 2 == ShiftRight(t / 2, s)
  {
    if s > 0 { ShiftHalves(t / 2, s - 1); }
  }

  /** One round of the loop doubles the number of leading ones. */
  lemma {:induction false} SpreadStep(t: nat, k: nat, s: nat)
    requires TopOnes(t, k, s) && s > 0
    ensures TopOnes(Or(t, ShiftRight(t, s)), k, 2 * s)
  {
    hide Or, ShiftRight;
    if k == 0 {
      NothingToSpread(s);
    } else {
      OrHalves(t, ShiftRight(t, s));
      ShiftHalves(t, s);
      SpreadStep(t / 2, k - 1, s);
      if s < k <= 2 * s { TopBit(t, k, s, s); }
    }
  }

  lemma {:induction false} NothingToSpread(s: nat)
    ensures ShiftRight(0, s) == 0 && Or(0, ShiftRight(0, s)) == 0
  {
    if s > 0 { NothingToSpread(s - 1); }
  }

  lemma {:induction false} AllOnes(t: nat, k: nat, s: nat)
    requires TopOnes(t, k, s) && s >= k
    ensures t == Pow2(k) - 1
  {
    if k > 0 { AllOnes(t / 2, k - 1, s); }
  }

  lemma {:induction false} TopOnesBelow(t: nat, k: nat, s: nat)
    requires TopOnes(t, k, s)
    ensures t < Pow2(k)
  {
    if k > 0 { TopOnesBelow(t / 2, k - 1, s); }
  }

  lemma {:induction false} BitLengthLeast(t: nat, k: nat)
    ensures t < Pow2(k) <==> BitLength(t) <= k
  {
    if t != 0 && k > 0 { BitLengthLeast(t / 2, k - 1); }
  }

  lemma BitLengthRounds(n: nat)
    requires n > 0
    ensures Pow2(BitLength(n - 1)) == LeastPow2(n)
  {
    hide LeastPow2;
    var k, r := BitLength(n - 1), LeastPow2(n);
    BitLengthLeast(n - 1, k);
    var m: nat :| r == Pow2(m);
    BitLengthLeast(n - 1, m);
    Pow2Monotone(k, m);
  }

  /** `next_power_of_two` on 64-bit words. */
  method NextPowerOfTwo(n: Word) returns (r: Word)
    ensures r == WrappedPow2(n)
  {
    hide TopOnes, LeastPow2, Or, ShiftRight, Pow2;
    Pow2Word();
    var tmp: nat := (n + (WORD - 1)) % WORD;
    ghost var k := BitLength(tmp);
    HighestBit(tmp);
    BitLengthLeast(tmp, 64);
    var shift := 1;
    while shift <= 32
      invariant shift in {1, 2, 4, 8, 16, 32, 64}
      invariant TopOnes(tmp, k, shift)
    {
      SpreadStep(tmp, k, shift);
      tmp := Or(tmp, ShiftRight(tmp, shift));
      shift := 2 * shift;
    }
    AllOnes(tmp, k, shift);
    Rounded(n, k);
    r := (tmp + 1) % WORD;
  }

  lemma Pow2Half()
    ensures Pow2(63) == WORD / 2 && Pow2(64) == WORD
  {
    Pow2Word();
    assert Pow2(64) == 2 * Pow2(63);
  }

  lemma Rounded(n: Word, k: nat)
    requires k == BitLength((n + (WORD - 1)) % WORD)
    ensures Pow2(k) % WORD == WrappedPow2(n)
  {
    hide LeastPow2, Pow2, BitLength;
    Pow2Half();
    var t := if n == 0 then WORD - 1 else n - 1;
    assert t == (n + (WORD - 1)) % WORD;
    BitLengthLeast(t, 63);
    BitLengthLeast(t, 64);
    if 0 < n <= WORD / 2 {
      BitLengthRounds(n);
      HalfWordBound(n);
    } else {
      assert k == 64;
    }
  }
}
