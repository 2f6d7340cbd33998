/** Reading LEB128 numbers (section 7.6 of DWARF Version 4) from a debug section. */
module Leb128 {
  import opened Bits
  import opened Wrappers

  type Byte = x: nat | x < 256

  /** The number of bytes of the encoding at the start of s, if it ends within s. */
  function EncodingLength(s: seq<Byte>): (n: Option<nat>)
    ensures n.Some? ==> 1 <= n.value <= |s| && s[n.value - 1] < 128 && forall i | 0 <= i < n.value - 1 :: s[i] >= 128
    ensures n.None? ==> forall i | 0 <= i < |s| :: s[i] >= 128
  {
    if s == [] then None
    else if s[0] < 128 then Some(1)
    else
      var n := EncodingLength(s[1..]);
      assert forall i | 0 < i < |s| :: s[i] == s[1..][i - 1];
      if n.None? then None else Some(n.value + 1)
  }

  /** The unsigned number that the low seven bits of the bytes spell, least significant first. */
  function UnsignedValue(s: seq<Byte>): nat {
    if s == [] then 0 else s[0] % 128 + 128 * UnsignedValue(s[1..])
  }

  /** The signed number: bit 6 of the last byte is the sign. */
  function SignedValue(s: seq<Byte>): int {
    if s == [] then 0
    else UnsignedValue(s) - if (s[|s| - 1] / 64) % 2 == 1 then Pow2(7 * |s|) else 0
  }

  lemma {:induction false} UnsignedValueSnoc(s: seq<Byte>, b: Byte)
    ensures UnsignedValue(s + [b]) == UnsignedValue(s) + (b % 128) * Pow2(7 * |s|)
  {
    if s == [] {
      assert s + [b] == [b];
    } else {
      UnsignedValueSnoc(s[1..], b);
      assert (s + [b])[1..] == s[1..] + [b];
      Pow2Add(7, 7 * |s[1..]|);
      assert Pow2(7) == 128;
      var p := Pow2(7 * |s[1..]|);
      assert (b % 128) * (128 * p) == 128 * ((b % 128) * p);
    }
  }

  lemma {:induction false} UnsignedValueBound(s: seq<Byte>)
    ensures UnsignedValue(s) < Pow2(7 * |s|)
  {
    if s != [] {
      UnsignedValueBound(s[1..]);
      Pow2Add(7, 7 * |s[1..]|);
      assert Pow2(7) == 128;
    }
  }

  // ---- Bits of one byte ----

  lemma {:induction false} AndBit(x: nat, k: nat)
    ensures And(x, Pow2(k)) == if ShiftRight(x, k) % 2 == 1 then Pow2(k) else 0
  {
    if k == 0 {
      assert And(x, 1) == x % 2;
    } else {
      AndEven(x, Pow2(k - 1));
      AndBit(x / 2, k - 1);
    }
  }

  lemma {:induction false} ShiftIsDivision(n: nat, k: nat)
    ensures ShiftRight(n, k) == n / Pow2(k)
  {
    if k == 0 {
      assert n / Pow2(0) == n;
    } else {
      HalveMod(n, Pow2(k - 1));
      ShiftIsDivision(n / 2, k - 1);
    }
  }

  lemma ByteBits(b: Byte)
    ensures And(b, 0x7f) == b % 128
    ensures And(b, 0x80) != 0 <==> b >= 128
    ensures And(b, 0x40) != 0 <==> (b / 64) % 2 == 1
  {
    hide And, ShiftRight;
    assert Pow2(6) == 64 && Pow2(7) == 128;
    AndMask(b, 7);
    AndBit(b, 7);
    AndBit(b, 6);
    ShiftIsDivision(b, 7);
    ShiftIsDivision(b, 6);
  }

  // ---- Accumulating one byte ----

  /** What one round of the loop makes of the accumulator: seven more bits, of which those
      beyond the 64th are lost. */
  function Accumulate(acc: nat, b: Byte, shift: nat): nat {
    if shift < 64 then Or(acc, (And(b, 0x7f) * Pow2(shift)) % WORD) else acc
  }

  lemma ShiftMod(x: nat, k: nat)
    requires k <= 64
    ensures (x * Pow2(k)) % WORD == (x % Pow2(64 - k)) * Pow2(k)
  {
    Pow2Word();
    Pow2Add(64 - k, k);
    MulMod(x, Pow2(64 - k), Pow2(k));
  }

  lemma MulMod(x: nat, m: nat, p: nat)
    requires m > 0 && p > 0 && m * p > 0
    ensures (x * p) % (m * p) == (x % m) * p
  {
    var q, r := x / m, x % m;
    assert x == q * m + r;
    Distribute(q, m, r, p);
    MulBelow(r, m, p);
    DivModUnique(x * p, q, r * p, m * p);
  }

  lemma Distribute(q: nat, m: nat, r: nat, p: nat)
    ensures (q * m + r) * p == q * (m * p) + r * p
  {}

  lemma MulBelow(r: nat, m: nat, p: nat)
    requires r < m && p > 0
    ensures r * p + p <= m * p
  {
    MulAtLeast(m - r, p);
  }

  /** An accumulator that is right modulo 2^64 stays right. */
  lemma AccumulateStep(s: seq<Byte>, b: Byte)
    ensures Accumulate(UnsignedValue(s) % WORD, b, 7 * |s|) == UnsignedValue(s + [b]) % WORD
  {
    hide Or, And, Pow2, UnsignedValue;
    var k, x := 7 * |s|, b % 128;
    UnsignedValueSnoc(s, b);
    UnsignedValueBound(s);
    ByteBits(b);
    Pow2Word();
    if k < 64 {
      Pow2Monotone(k, 64);
      DivModUnique(UnsignedValue(s), 0, UnsignedValue(s), WORD);
      LowBits(UnsignedValue(s), x, k);
    } else {
      HighBits(UnsignedValue(s), x, k);
    }
  }

  lemma LowBits(u: nat, x: nat, k: nat)
    requires k < 64 && u < Pow2(k)
    ensures Or(u, (x * Pow2(k)) % WORD) == (u + x * Pow2(k)) % WORD
  {
    Pow2Word();
    ShiftMod(x, k);
    var p, y := Pow2(k), x % Pow2(64 - k);
    OrDisjoint(u, y, k);
    Pow2Add(64 - k, k);
    MulBelow(y, Pow2(64 - k), p);
    hide Or, Pow2;
    var z := x * p;
    assert z == (z / WORD) * WORD + z % WORD;
    DivModUnique(u + z, z / WORD, u + z % WORD, WORD);
  }

  lemma HighBits(u: nat, x: nat, k: nat)
    requires k >= 64
    ensures (u + x * Pow2(k)) % WORD == u % WORD
  {
    hide Pow2;
    Pow2Word();
    var p := Pow2(k - 64);
    Pow2Add(k - 64, 64);
    MulThrough(x, p, WORD);
    AddMultiple(u, x * p);
  }

  lemma MulThrough(x: nat, p: nat, w: nat)
    ensures x * (p * w) == (x * p) * w
  {}

  lemma NothingFolded(s: seq<Byte>)
    requires s == []
    ensures UnsignedValue(s) == 0 && Folded(s) == 0
  {}

  lemma LengthIs(s: seq<Byte>, n: nat)
    requires 1 <= n <= |s| && s[n - 1] < 128 && forall i | 0 <= i < n - 1 :: s[i] >= 128
    ensures EncodingLength(s) == Some(n)
  {}

  // ---- The reader ----

  const UINT_MAX_PLUS_ONE: nat := 0x1_0000_0000

  /** The 32-bit shift counter after i bytes. */
  function ShiftAfter(i: nat): nat {
    7 * i % UINT_MAX_PLUS_ONE
  }

  lemma ShiftStep(i: nat)
    ensures (ShiftAfter(i) + 7) % UINT_MAX_PLUS_ONE == ShiftAfter(i + 1)
    ensures 7 * i < UINT_MAX_PLUS_ONE ==> ShiftAfter(i) == 7 * i
  {}

  /** The accumulator after these bytes, whatever their number. */
  function Folded(s: seq<Byte>): nat {
    if s == [] then 0 else Accumulate(Folded(s[..|s| - 1]), s[|s| - 1], ShiftAfter(|s| - 1))
  }

  /** The accumulator with its sign extended. */
  function FoldedSigned(s: seq<Byte>): nat
    requires s != []
  {
    var shift := ShiftAfter(|s|);
    if And(s[|s| - 1], 0x40) != 0 && shift < 64 then Or(Folded(s), ((WORD - 1) * Pow2(shift)) % WORD) else Folded(s)
  }

  lemma FoldedSnoc(s: seq<Byte>, b: Byte)
    ensures Folded(s + [b]) == Accumulate(Folded(s), b, ShiftAfter(|s|))
  {
    assert (s + [b])[..|s|] == s;
  }

  class DwarfBuf {
    const data: seq<Byte>
    var pos: nat
    var left: nat
    var reportedUnderflow: bool
    var errors: nat

    ghost predicate Valid()
      reads this
    {
      pos + left == |data|
    }

    constructor (data: seq<Byte>)
      ensures Valid() && this.data == data && pos == 0 && errors == 0 && !reportedUnderflow
    {
      this.data, pos, left, reportedUnderflow, errors := data, 0, |data|, false, 0;
    }

    /** An underflow is reported only once. */
    method Advance(count: nat) returns (ok: bool)
      requires Valid()
      modifies this
      ensures Valid() && (ok <==> count <= old(left))
      ensures ok ==> pos == old(pos) + count && errors == old(errors) && reportedUnderflow == old(reportedUnderflow)
      ensures !ok ==> pos == old(pos) && reportedUnderflow
      ensures !ok ==> errors == old(errors) + if old(reportedUnderflow) then 0 else 1
    {
      if left >= count {
        pos, left := pos + count, left - count;
        return true;
      }
      if !reportedUnderflow {
        errors := errors + 1;
        reportedUnderflow := true;
      }
      return false;
    }

    /** The loop shared by both readers: accumulates until a byte without the continuation bit.
        The shift counter is a 32-bit unsigned number. */
    method ReadGroups() returns (acc: nat, shift: nat, last: Byte, ok: bool)
      requires Valid()
      modifies this
      ensures Valid()
      ensures ok <==> EncodingLength(old(data[pos..])).Some?
      ensures ok ==>
        var n := EncodingLength(old(data[pos..])).value;
        && pos == old(pos) + n && last == data[pos - 1] && shift == ShiftAfter(n)
        && errors == old(errors) + (if n > 10 then 1 else 0) && reportedUnderflow == old(reportedUnderflow)
        && acc == Folded(old(data[pos..])[..n])
      ensures !ok ==> left == 0 && reportedUnderflow
    {
      hide Accumulate, Folded, EncodingLength, And, ShiftAfter;
      ShiftStep(0);
      acc, shift, last, ok := 0, 0, 0, true;
      var overflow := false;
      ghost var s, i := data[pos..], 0;
      assert Folded(s[..0]) == 0 by { NothingFolded(s[..0]); }
      while true
        invariant Valid() && i <= |s| && pos == old(pos) + i && left == |s| - i
        invariant forall j | 0 <= j < i :: s[j] >= 128
        invariant shift == ShiftAfter(i) && (overflow <==> i > 10)
        invariant errors == old(errors) + (if overflow then 1 else 0) && reportedUnderflow == old(reportedUnderflow)
        invariant acc == Folded(s[..i])
        decreases |s| - i
      {
        var p := pos;
        var more := Advance(1);
        if !more {
          ok := false;
          return;
        }
        last := data[p];
        assert last == s[i] && s[..i] + [last] == s[..i + 1];
        ByteBits(last);
        ShiftStep(i);
        FoldedSnoc(s[..i], last);
        acc := Accumulate(acc, last, shift);
        if shift >= 64 && !overflow {
          errors := errors + 1;
          overflow := true;
        }
        shift := (shift + 7) % UINT_MAX_PLUS_ONE;
        i := i + 1;
        if And(last, 0x80) == 0 {
          break;
        }
      }
      LengthIs(s, i);
    }

    method ReadUleb128() returns (ret: nat)
      requires Valid()
      modifies this
      ensures Valid()
      ensures match EncodingLength(old(data[pos..]))
        case None => ret == 0 && left == 0 && reportedUnderflow
        case Some(n) =>
          && pos == old(pos) + n && errors == old(errors) + (if n > 10 then 1 else 0)
          && ret == Folded(old(data[pos..])[..n])
          && (7 * (n - 1) < UINT_MAX_PLUS_ONE ==> ret == UnsignedValue(old(data[pos..])[..n]) % WORD)
    {
      hide EncodingLength, UnsignedValue, Folded;
      ghost var s := data[pos..];
      var acc, _, _, ok := ReadGroups();
      if ok && 7 * (EncodingLength(s).value - 1) < UINT_MAX_PLUS_ONE { FoldedRight(s[..EncodingLength(s).value]); }
      ret := if ok then acc else 0;
    }

    /** The result is the signed value wrapped to 64 bits, where neither the shifts nor the
        final shift count wrap. */
    method ReadSleb128() returns (ret: int)
      requires Valid()
      modifies this
      ensures Valid()
      ensures match EncodingLength(old(data[pos..]))
        case None => ret == 0 && left == 0 && reportedUnderflow
        case Some(n) =>
          && pos == old(pos) + n && errors == old(errors) + (if n > 10 then 1 else 0)
          && ret == ToInt64(FoldedSigned(old(data[pos..])[..n]))
          && (7 * n < UINT_MAX_PLUS_ONE ==> ret == ToInt64(SignedValue(old(data[pos..])[..n]) % WORD))
    {
      hide EncodingLength, UnsignedValue, SignedValue, Or, And, Pow2, ToInt64, ShiftAfter, Folded;
      ghost var s := data[pos..];
      var val, shift, last, ok := ReadGroups();
      if !ok {
        return 0;
      }
      ghost var n := EncodingLength(s).value;
      assert s[..n][n - 1] == s[n - 1] == last;
      if And(last, 0x40) != 0 && shift < 64 {
        val := Or(val, ((WORD - 1) * Pow2(shift)) % WORD);
      }
      FoldedSignedRight(s[..n]);
      ret := ToInt64(val);
    }
  }

  /** Conversion of a 64-bit word to a signed number. */
  function ToInt64(x: int): int {
    if x >= WORD / 2 then x - WORD else x
  }

  /** Setting all bits above the last group subtracts its weight. */
  lemma SignExtend(s: seq<Byte>)
    requires s != []
    ensures var u, k, b := UnsignedValue(s) % WORD, 7 * |s|, s[|s| - 1];
      SignedValue(s) % WORD
      == if And(b, 0x40) != 0 && k < 64 then Or(u, ((WORD - 1) * Pow2(k)) % WORD) else u
  {
    hide Or, And, UnsignedValue;
    var u, k := UnsignedValue(s), 7 * |s|;
    ByteBits(s[|s| - 1]);
    UnsignedValueBound(s);
    if (s[|s| - 1] / 64) % 2 == 1 {
      if k < 64 {
        Pow2Word();
        Pow2Monotone(k, 64);
        DivModUnique(u, 0, u, WORD);
        LowBits(u, WORD - 1, k);
        SubtractWeight(u, Pow2(k));
      } else {
        DropWeight(u, k);
      }
    }
  }

  lemma SubtractWeight(u: nat, p: nat)
    ensures (u + (WORD - 1) * p) % WORD == (u - p) % WORD
  {}

  lemma AddMultiple(x: int, q: int)
    ensures (x + q * WORD) % WORD == x % WORD
  {
    DivModUnique(x + q * WORD, x / WORD + q, x % WORD, WORD);
  }

  lemma DropWeight(u: nat, k: nat)
    requires k >= 64
    ensures (u - Pow2(k)) % WORD == u % WORD
  {
    Pow2Word();
    Pow2Add(k - 64, 64);
    AddMultiple(u - Pow2(k), Pow2(k - 64));
  }

  // ---- How far the readers are right ----

  /** Until the shift counter wraps, the accumulator is the value modulo 2^64. */
  lemma {:induction false} FoldedRight(s: seq<Byte>)
    requires s == [] || 7 * (|s| - 1) < UINT_MAX_PLUS_ONE
    ensures Folded(s) == UnsignedValue(s) % WORD
  {
    hide Accumulate, UnsignedValue, ShiftAfter;
    if s == [] {
      NothingFolded(s);
    } else {
      var t, b := s[..|s| - 1], s[|s| - 1];
      assert s == t + [b];
      FoldedRight(t);
      ShiftStep(|t|);
      AccumulateStep(t, b);
    }
  }

  lemma FoldedSignedRight(s: seq<Byte>)
    requires s != []
    ensures 7 * |s| < UINT_MAX_PLUS_ONE ==> FoldedSigned(s) == SignedValue(s) % WORD
  {
    hide Or, And, Pow2, Folded, UnsignedValue, SignedValue, ShiftAfter;
    if 7 * |s| < UINT_MAX_PLUS_ONE {
      FoldedRight(s);
      ShiftStep(|s|);
      SignExtend(s);
    }
  }

  ghost predicate IsEncoding(s: seq<Byte>) {
    s != [] && s[|s| - 1] < 128 && forall i | 0 <= i < |s| - 1 :: s[i] >= 128
  }

  /** The first byte for which the counter has wrapped: it counts three instead of 2^32 + 3. */
  const WRAPPED: nat := 613_566_757

  /** An encoding of n bytes that are zero but for the lowest bit of the one at `WRAPPED`. */
  ghost function LateBit(n: nat): seq<Byte> {
    seq(n, j => (if j == WRAPPED then 1 else 0) + if j < n - 1 then 128 else 0)
  }

  lemma ZeroGroup(acc: nat, b: Byte, shift: nat)
    requires b % 128 == 0
    ensures Accumulate(acc, b, shift) == acc
  {
    hide Pow2, And;
    ByteBits(b);
    assert 0 * Pow2(shift) == 0;
  }

  lemma OneGroup(b: Byte)
    requires b % 128 == 1
    ensures Accumulate(0, b, 3) == 8
  {
    hide And;
    ByteBits(b);
    assert Pow2(3) == 8;
  }

  lemma {:induction false} LateBitFolds(n: nat, k: nat)
    requires WRAPPED < n && k <= n
    ensures Folded(LateBit(n)[..k]) == if k <= WRAPPED then 0 else 8
    ensures UnsignedValue(LateBit(n)[..k]) == if k <= WRAPPED then 0 else Pow2(7 * WRAPPED)
  {
    hide Accumulate, Folded, UnsignedValue, Pow2;
    var s := LateBit(n);
    if k == 0 {
      NothingFolded(s[..0]);
    } else {
      var i, b := k - 1, s[k - 1];
      LateBitFolds(n, i);
      assert s[..k] == s[..i] + [b];
      FoldedSnoc(s[..i], b);
      UnsignedValueSnoc(s[..i], b);
      if i == WRAPPED { OneGroup(b); } else { ZeroGroup(Folded(s[..i]), b, ShiftAfter(i)); }
    }
  }

  lemma LatePower(x: nat, k: nat)
    requires k >= 64
    ensures (x * Pow2(k)) % WORD == 0
  {
    HighBits(0, x, k);
  }

  /** Encodings of n bytes are read right, all of them, exactly where the counter does not wrap
      before the last byte is used. */
  lemma UnsignedExactly(n: nat)
    requires n > 0
    ensures (forall s: seq<Byte> | IsEncoding(s) && |s| == n :: Folded(s) == UnsignedValue(s) % WORD)
       <==> 7 * (n - 1) < UINT_MAX_PLUS_ONE
  {
    hide Folded, UnsignedValue, Pow2;
    if 7 * (n - 1) < UINT_MAX_PLUS_ONE {
      forall s: seq<Byte> | IsEncoding(s) && |s| == n ensures Folded(s) == UnsignedValue(s) % WORD { FoldedRight(s); }
    } else {
      var s := LateBit(n);
      LateBitFolds(n, n);
      assert s[..n] == s;
      LatePower(1, 7 * WRAPPED);
      assert IsEncoding(s) && Folded(s) != UnsignedValue(s) % WORD;
    }
  }

  /** For signed numbers the counter must not wrap at the last byte either. */
  lemma SignedExactly(n: nat)
    requires n > 0
    ensures (forall s: seq<Byte> | IsEncoding(s) && |s| == n ::
               ToInt64(FoldedSigned(s)) == ToInt64(SignedValue(s) % WORD))
       <==> 7 * n < UINT_MAX_PLUS_ONE
  {
    hide FoldedSigned, SignedValue, Pow2;
    if 7 * n < UINT_MAX_PLUS_ONE {
      forall s: seq<Byte> | IsEncoding(s) && |s| == n ensures FoldedSigned(s) == SignedValue(s) % WORD {
        FoldedSignedRight(s);
      }
    } else if n == WRAPPED {
      EarlySign();
      assert IsEncoding(SignBit(WRAPPED));
    } else {
      LateSigned(n);
      assert IsEncoding(LateBit(n));
    }
  }

  lemma LateSigned(n: nat)
    requires WRAPPED < n
    ensures FoldedSigned(LateBit(n)) == 8 && SignedValue(LateBit(n)) % WORD == 0
  {
    hide Folded, UnsignedValue, Pow2, And, Or;
    var s := LateBit(n);
    LateBitFolds(n, n);
    assert s[..n] == s;
    LatePower(1, 7 * WRAPPED);
    ByteBits(s[n - 1]);
  }

  /** An encoding of n bytes that are zero but for the sign. */
  ghost function SignBit(n: nat): seq<Byte> {
    seq(n, j => if j < n - 1 then 128 else 64)
  }

  lemma {:induction false} SignBitFolds(n: nat, k: nat)
    requires k < n
    ensures Folded(SignBit(n)[..k]) == 0 && UnsignedValue(SignBit(n)[..k]) == 0
  {
    hide Accumulate, Folded, UnsignedValue, Pow2;
    var s := SignBit(n);
    if k == 0 {
      NothingFolded(s[..0]);
    } else {
      var i, b := k - 1, s[k - 1];
      SignBitFolds(n, i);
      assert s[..k] == s[..i] + [b];
      FoldedSnoc(s[..i], b);
      UnsignedValueSnoc(s[..i], b);
      ZeroGroup(0, b, ShiftAfter(i));
    }
  }

  lemma EarlySign()
    ensures FoldedSigned(SignBit(WRAPPED)) == WORD - 8 && SignedValue(SignBit(WRAPPED)) % WORD == 0
  {
    hide Folded, UnsignedValue, Pow2, And, Or;
    var n, s := WRAPPED, SignBit(WRAPPED);
    var t := s[..n - 1];
    SignBitFolds(n, n - 1);
    assert s == t + [64];
    FoldedSnoc(t, 64);
    UnsignedValueSnoc(t, 64);
    ByteBits(64);
    EightBelow();
    LatePower(64, 7 * (n - 1));
    DropWeight(UnsignedValue(s), 7 * n);
  }

  lemma EightBelow()
    ensures Or(0, ((WORD - 1) * Pow2(3)) % WORD) == WORD - 8
  {
    assert Pow2(3) == 8;
  }

  // ---- Canonical encoders and round trips ----

  function EncodeUnsigned(x: nat): (s: seq<Byte>) {
    if x < 128 then [x] else [x % 128 + 128] + EncodeUnsigned(x / 128)
  }

  function EncodeSigned(x: int): (s: seq<Byte>)
    decreases if x < 0 then -x else x
  {
    var b, rest := x % 128, x / 128;
    if (rest == 0 && b < 64) || (rest == -1 && b >= 64) then [b]
    else [b + 128] + EncodeSigned(rest)
  }

  lemma {:induction false} EncodeUnsignedValue(x: nat, rest: seq<Byte>)
    ensures UnsignedValue(EncodeUnsigned(x)) == x
    ensures EncodingLength(EncodeUnsigned(x) + rest) == Some(|EncodeUnsigned(x)|)
  {
    if x < 128 {
      OneByte(x, rest);
    } else {
      EncodeUnsignedValue(x / 128, rest);
      OneByteMore(x % 128 + 128, EncodeUnsigned(x / 128), rest);
    }
  }

  lemma OneByte(b: Byte, rest: seq<Byte>)
    requires b < 128
    ensures UnsignedValue([b]) == b && EncodingLength([b] + rest) == Some(1)
  {
    assert [b][1..] == [];
  }

  lemma OneByteMore(b: Byte, s: seq<Byte>, rest: seq<Byte>)
    requires b >= 128
    ensures UnsignedValue([b] + s) == b - 128 + 128 * UnsignedValue(s)
    ensures EncodingLength(s + rest) == Some(|s|) ==> EncodingLength([b] + s + rest) == Some(|[b] + s|)
  {
    assert ([b] + s)[1..] == s;
    assert ([b] + s + rest)[1..] == s + rest;
  }

  lemma SignedValueOne(b: Byte)
    requires b < 128
    ensures SignedValue([b]) == if b >= 64 then b - 128 else b
  {
    var s := [b];
    assert s[1..] == [] && UnsignedValue(s) == b;
    assert Pow2(7 * |s|) == Pow2(7) == 128;
  }

  lemma SignedValueCons(b: Byte, t: seq<Byte>)
    requires t != []
    ensures SignedValue([b] + t) == b % 128 + 128 * SignedValue(t)
  {
    var s := [b] + t;
    assert s[1..] == t && s[|s| - 1] == t[|t| - 1];
    assert Pow2(7) == 128;
    Pow2Add(7, 7 * |t|);
  }

  lemma {:induction false} EncodeSignedValue(x: int)
    ensures EncodeSigned(x) != [] && SignedValue(EncodeSigned(x)) == x
    decreases if x < 0 then -x else x
  {
    hide SignedValue;
    var b, q := x % 128, x / 128;
    if (q == 0 && b < 64) || (q == -1 && b >= 64) {
      SignedValueOne(b);
    } else {
      EncodeSignedValue(q);
      SignedValueCons(b + 128, EncodeSigned(q));
    }
  }

  lemma {:induction false} EncodeSignedLength(x: int, rest: seq<Byte>)
    ensures EncodingLength(EncodeSigned(x) + rest) == Some(|EncodeSigned(x)|)
    decreases if x < 0 then -x else x
  {
    var s, b, q := EncodeSigned(x), x % 128, x / 128;
    if (q == 0 && b < 64) || (q == -1 && b >= 64) {
      assert (s + rest)[0] == b;
    } else {
      EncodeSignedLength(q, rest);
      assert (s + rest)[1..] == EncodeSigned(q) + rest;
    }
  }

  lemma {:induction false} EncodeSignedShort(x: int, n: nat)
    requires n > 0 && 0 - Pow2(7 * n - 1) <= x < Pow2(7 * n - 1)
    ensures |EncodeSigned(x)| <= n
    decreases n
  {
    assert Pow2(7) == 128 && Pow2(6) == 64;
    if n > 1 {
      Pow2Add(7, 7 * (n - 1) - 1);
      EncodeSignedShort(x / 128, n - 1);
    }
  }

  lemma {:induction false} EncodeUnsignedShort(x: nat, n: nat)
    requires x < Pow2(7 * n) && n > 0
    ensures |EncodeUnsigned(x)| <= n
  {
    if x >= 128 {
      assert Pow2(7) == 128;
      Pow2Add(7, 7 * (n - 1));
      EncodeUnsignedShort(x / 128, n - 1);
    }
  }

  /** Reading back a canonical unsigned encoding, whatever follows it. */
  method RoundTripUnsigned(x: nat, rest: seq<Byte>) returns (ret: nat, consumed: nat)
    requires x < WORD
    ensures ret == x && consumed == |EncodeUnsigned(x)|
  {
    hide EncodingLength, UnsignedValue, EncodeUnsigned, Pow2, Folded;
    var s := EncodeUnsigned(x);
    var buf := new DwarfBuf(s + rest);
    EncodeUnsignedValue(x, rest);
    Pow2Word();
    Pow2Monotone(64, 70);
    EncodeUnsignedShort(x, 10);
    assert (s + rest)[0..] == s + rest && (s + rest)[..|s|] == s;
    ret := buf.ReadUleb128();
    consumed := buf.pos;
  }

  /** Reading back a canonical signed encoding, whatever follows it. */
  method RoundTripSigned(x: int, rest: seq<Byte>) returns (ret: int, consumed: nat)
    requires -(WORD / 2) <= x < WORD / 2
    ensures ret == x && consumed == |EncodeSigned(x)|
  {
    hide EncodingLength, UnsignedValue, SignedValue, EncodeSigned, Pow2, FoldedSigned;
    var s := EncodeSigned(x);
    var buf := new DwarfBuf(s + rest);
    EncodeSignedLength(x, rest);
    EncodeSignedValue(x);
    Pow2Word();
    Pow2Monotone(64, 69);
    EncodeSignedShort(x, 10);
    assert (s + rest)[0..] == s + rest && (s + rest)[..|s|] == s;
    DivModUnique(x, if x < 0 then -1 else 0, if x < 0 then x + WORD else x, WORD);
    ret := buf.ReadSleb128();
    consumed := buf.pos;
  }
}
