/** CRC-32C as a division of polynomials over the field of two elements, after section 12.1 of
    RFC 3720: the remainder of the message, its first 32 bits complemented and 32 zeros behind it,
    complemented again. Nothing here mentions registers, tables or reflection but the theorem. */
module CrcDivision {
  import opened Words
  import opened Crc32c

  // ---- Polynomials -----------------------------------------------------------

  function Same(b: bool, n: nat): (s: Bits)
    ensures |s| == n && forall i :: 0 <= i < n ==> s[i] == b
  {
    seq(n, i => b)
  }

  /** Thirty-two coefficients, that of the lowest power first. */
  type Poly = p: Bits | |p| == 32 witness Same(false, 32)

  /** x^32 + x^28 + x^27 + x^26 + x^25 + x^23 + x^22 + x^20 + x^19 + x^18 + x^14 + x^13 + x^11 + x^10
      + x^9 + x^8 + x^6 + 1, without its highest term. */
  const MODULUS: set<int> := {28, 27, 26, 25, 23, 22, 20, 19, 18, 14, 13, 11, 10, 9, 8, 6, 0}

  function Terms(exponents: set<int>): Poly {
    seq(32, i => i in exponents)
  }

  const ZERO: Poly := Same(false, 32)
  const ONES: Poly := Same(true, 32)

  function Sum(p: Poly, q: Poly): (r: Poly)
    ensures forall i :: 0 <= i < 32 ==> r[i] == (p[i] != q[i])
  {
    seq(32, i requires 0 <= i < 32 => p[i] != q[i])
  }

  function Power(n: nat, b: bool): (p: Poly)
    requires n < 32
    ensures forall i :: 0 <= i < 32 ==> p[i] == (i == n && b)
  {
    seq(32, i => i == n && b)
  }

  /** Multiplied by x and reduced: the term x^32, where there is one, is replaced by the rest of the
      modulus. */
  function TimesX(p: Poly): Poly {
    if p[31] then Sum([false] + p[..31], Terms(MODULUS)) else [false] + p[..31]
  }

  /** The remainder of a polynomial given by its coefficients, that of the highest power first. */
  function Remainder(m: Bits): Poly {
    if m == [] then ZERO else Sum(TimesX(Remainder(m[..|m| - 1])), Power(0, m[|m| - 1]))
  }

  /** The low bits of a number, lowest first: the order in which a message byte is sent. */
  function LowFirst(x: nat, n: nat): (s: Bits)
    ensures |s| == n
  {
    if n == 0 then [] else [x % 2 == 1] + LowFirst(x / 2, n - 1)
  }

  function Message(data: seq<byte>): Bits {
    if data == [] then [] else Message(data[..|data| - 1]) + LowFirst(data[|data| - 1], 8)
  }

  /** The first 32 bits complemented. */
  function Flipped(m: Bits): (r: Bits)
    ensures |r| == |m| && forall i :: 0 <= i < |m| ==> r[i] == (m[i] != (i < 32))
  {
    seq(|m|, i requires 0 <= i < |m| => m[i] != (i < 32))
  }

  // ---- Arithmetic of remainders ----------------------------------------------

  lemma TimesXSum(p: Poly, q: Poly)
    ensures TimesX(Sum(p, q)) == Sum(TimesX(p), TimesX(q))
  {
    hide Terms;
    var a, b := TimesX(Sum(p, q)), Sum(TimesX(p), TimesX(q));
    forall i | 0 <= i < 32
      ensures a[i] == b[i]
    {
    }
  }

  /** Multiplied by x, `n` times. */
  function Shifted(p: Poly, n: nat): Poly {
    if n == 0 then p else TimesX(Shifted(p, n - 1))
  }

  lemma {:induction false} ShiftedSum(p: Poly, q: Poly, n: nat)
    ensures Shifted(Sum(p, q), n) == Sum(Shifted(p, n), Shifted(q, n))
  {
    hide TimesX, Sum;
    if n > 0 {
      ShiftedSum(p, q, n - 1);
      TimesXSum(Shifted(p, n - 1), Shifted(q, n - 1));
    }
  }

  lemma {:induction false} ShiftedFirst(p: Poly, n: nat)
    ensures Shifted(TimesX(p), n) == TimesX(Shifted(p, n))
  {
    hide TimesX;
    if n > 0 {
      ShiftedFirst(p, n - 1);
    }
  }

  lemma Regroup(p: Poly, q: Poly, r: Poly, s: Poly)
    ensures Sum(Sum(p, q), Sum(r, s)) == Sum(Sum(p, r), Sum(q, s))
    ensures Sum(p, ZERO) == p && Sum(Sum(p, q), r) == Sum(Sum(p, r), q)
  {
  }

  lemma ShiftedZero(n: nat)
    ensures Shifted(ZERO, n) == ZERO
  {
    hide Terms;
    if n > 0 {
      ShiftedZero(n - 1);
      assert [false] + ZERO[..31] == ZERO;
    }
  }

  lemma RemainderSnoc(m: Bits, b: bool)
    ensures Remainder(m + [b]) == Sum(TimesX(Remainder(m)), Power(0, b))
  {
    assert (m + [b])[..|m|] == m;
  }

  lemma {:induction false} RemainderZeros(m: Bits, n: nat)
    ensures Remainder(m + Same(false, n)) == Shifted(Remainder(m), n)
  {
    hide TimesX, Sum;
    if n == 0 {
      assert m + Same(false, 0) == m;
    } else {
      RemainderZeros(m, n - 1);
      assert m + Same(false, n) == m + Same(false, n - 1) + [false];
      RemainderSnoc(m + Same(false, n - 1), false);
      assert Power(0, false) == ZERO;
      Regroup(TimesX(Shifted(Remainder(m), n - 1)), ZERO, ZERO, ZERO);
    }
  }

  /** Lists of coefficients added one by one. */
  function Added(a: Bits, b: Bits): (r: Bits)
    requires |a| == |b|
    ensures |r| == |a| && forall i :: 0 <= i < |a| ==> r[i] == (a[i] != b[i])
  {
    seq(|a|, i requires 0 <= i < |a| => a[i] != b[i])
  }

  lemma {:induction false} RemainderAdded(a: Bits, b: Bits)
    requires |a| == |b|
    ensures Remainder(Added(a, b)) == Sum(Remainder(a), Remainder(b))
    decreases |a|
  {
    hide TimesX, Sum;
    if a == [] {
      Regroup(ZERO, ZERO, ZERO, ZERO);
    } else {
      var n := |a| - 1;
      RemainderAdded(a[..n], b[..n]);
      assert Added(a, b)[..n] == Added(a[..n], b[..n]);
      var p, q := Remainder(a[..n]), Remainder(b[..n]);
      TimesXSum(p, q);
      PowerAdded(a[n], b[n]);
      Regroup(TimesX(p), TimesX(q), Power(0, a[n]), Power(0, b[n]));
    }
  }

  lemma PowerAdded(a: bool, b: bool)
    ensures Power(0, a != b) == Sum(Power(0, a), Power(0, b))
  {
  }

  /** Up to 32 coefficients are their own remainder. */
  lemma {:induction false} ShortRemainder(m: Bits)
    requires |m| <= 32
    ensures forall i :: 0 <= i < 32 ==> Remainder(m)[i] == (i < |m| && m[|m| - 1 - i])
    decreases |m|
  {
    hide Terms;
    if m != [] {
      var init := m[..|m| - 1];
      ShortRemainder(init);
      var r := Remainder(init);
      assert !r[31] && TimesX(r) == [false] + r[..31];
    }
  }

  // ---- The register as a polynomial ------------------------------------------

  /** The register after some message bits: each is added to the highest coefficient, and the whole
      is multiplied by x. */
  function Fed(p: Poly, m: Bits): Poly {
    if m == [] then p else TimesX(Sum(Fed(p, m[..|m| - 1]), Power(31, m[|m| - 1])))
  }

  lemma {:induction false} PowerShifted(n: nat, b: bool)
    requires n < 32
    ensures Shifted(Power(0, b), n) == Power(n, b)
  {
    hide Terms;
    if n > 0 {
      PowerShifted(n - 1, b);
      var p := Power(n - 1, b);
      assert !p[31] && [false] + p[..31] == Power(n, b);
    }
  }

  /** Feeding a message is dividing it with 32 zeros behind, started from what was there before. */
  lemma {:induction false} FedIsRemainder(p: Poly, m: Bits)
    ensures Fed(p, m) == Sum(Remainder(m + Same(false, 32)), Shifted(p, |m|))
    decreases |m|
  {
    hide TimesX, Sum, Power;
    RemainderZeros(m, 32);
    if m == [] {
      ShiftedZero(32);
      ZeroFirst(p);
    } else {
      var init, b := m[..|m| - 1], m[|m| - 1];
      FedIsRemainder(p, init);
      RemainderZeros(init, 32);
      var r := Remainder(init);
      var top := Power(31, b);
      PowerShifted(31, b);
      ShiftedSum(TimesX(r), Power(0, b), 32);
      ShiftedFirst(r, 32);
      var u, v := Shifted(r, 32), Shifted(p, |init|);
      TimesXSum(Sum(u, v), top);
      TimesXSum(u, v);
      Regroup(TimesX(u), TimesX(v), TimesX(top), ZERO);
    }
  }

  lemma ZeroFirst(p: Poly)
    ensures Sum(ZERO, p) == p
  {
  }

  lemma {:induction false} FedFirst(p: Poly, b: bool, m: Bits)
    ensures Fed(p, [b] + m) == Fed(TimesX(Sum(p, Power(31, b))), m)
    decreases |m|
  {
    hide TimesX, Sum;
    if m == [] {
      assert ([b] + m)[..0] == [];
    } else {
      FedFirst(p, b, m[..|m| - 1]);
      assert ([b] + m)[..|m|] == [b] + m[..|m| - 1];
    }
  }

  lemma {:induction false} FedConcat(p: Poly, a: Bits, b: Bits)
    ensures Fed(p, a + b) == Fed(Fed(p, a), b)
    decreases |b|
  {
    hide TimesX, Sum;
    if b == [] {
      assert a + b == a;
    } else {
      assert (a + b)[..|a + b| - 1] == a + b[..|b| - 1];
      FedConcat(p, a, b[..|b| - 1]);
    }
  }

  // ---- Numbers and polynomials -----------------------------------------------

  /** A register of the reflected form, its lowest bit being the highest coefficient. */
  function Coefficients(c: nat): Poly {
    ToBits(c, 32)
  }

  lemma {:induction false} XorBits(a: nat, b: nat, n: nat)
    ensures forall i :: 0 <= i < n ==> ToBits(Xor(a, b), n)[i] == (ToBits(a, n)[i] != ToBits(b, n)[i])
    decreases n
  {
    if n > 0 {
      XorHalf(a, b);
      XorBits(a / 2, b / 2, n - 1);
    }
  }

  lemma XorIsSum(a: nat, b: nat)
    ensures Coefficients(Xor(a, b)) == Sum(Coefficients(a), Coefficients(b))
  {
    hide ToBits, Xor;
    XorBits(a, b, 32);
  }

  lemma HalfIsShift(c: nat)
    requires c < 0x1_0000_0000
    ensures Coefficients(c / 2) == [false] + Coefficients(c)[..31] && Coefficients(c)[31] == (c % 2 == 1)
  {
    assert ToBits(c, 32) == ToBits(c / 2, 31) + [c % 2 == 1];
    Pow2Values();
    hide ToBits, Shr, Pow2;
    ToBitsSplit(c / 2, 1, 31);
    LowSmall(c / 2, 31);
    ZeroBit();
  }

  lemma ZeroBit()
    ensures ToBits(0, 1) == [false]
  {
    assert ToBits(0, 0) == [];
  }

  lemma OneByteMore(hi: nat, lo: byte, n: nat)
    ensures ToBits(256 * hi + lo, n + 8) == ToBits(hi, n) + ToBits(lo, 8)
  {
    assert Pow2(8) == 256;
    hide ToBits, Scale;
    ScaleMul(hi, 8);
    ToBitsJoin(hi, lo, n, 8);
  }

  lemma TopByte()
    ensures ToBits(0x82, 8) == [true, false, false, false, false, false, true, false]
  {
  }

  lemma SecondByte()
    ensures ToBits(0xF6, 8) == [true, true, true, true, false, true, true, false]
  {
  }

  lemma ThirdByte()
    ensures ToBits(0x3B, 8) == [false, false, true, true, true, false, true, true]
  {
  }

  lemma LastByte()
    ensures ToBits(0x78, 8) == [false, true, true, true, true, false, false, false]
  {
  }

  /** The constant of the source is the modulus, its lowest power in the highest bit. */
  lemma PolynomialIsModulus()
    ensures Coefficients(POLY_REVERSED) == Terms(MODULUS)
  {
    hide ToBits;
    TopByte();
    SecondByte();
    ThirdByte();
    LastByte();
    OneByteMore(0x82, 0xF6, 8);
    OneByteMore(0x82F6, 0x3B, 16);
    OneByteMore(0x82F63B, 0x78, 24);
  }

  lemma StepIsTimesX(c: nat)
    requires c < 0x1_0000_0000
    ensures Coefficients(Step(c)) == TimesX(Coefficients(c))
  {
    hide Coefficients, Terms;
    HalfIsShift(c);
    if c % 2 == 1 {
      XorIsSum(POLY_REVERSED, c / 2);
      PolynomialIsModulus();
      SumComm(Terms(MODULUS), Coefficients(c / 2));
    }
  }

  lemma SumComm(p: Poly, q: Poly)
    ensures Sum(p, q) == Sum(q, p)
  {
  }

  lemma LowestOnly(b: bool)
    ensures Coefficients(Bit(b)) == Power(31, b)
  {
    assert ToBits(Bit(b), 32) == ToBits(0, 31) + [b];
    ZeroBits(31);
    hide ToBits;
  }

  /** A byte is its lowest bit and the rest, one place higher. */
  lemma ByteParts(b: nat)
    ensures Xor(Bit(b % 2 == 1), 2 * (b / 2)) == b
  {
    var low, q := Bit(b % 2 == 1), b / 2;
    assert Scale(q, 1) == 2 * Scale(q, 0) == 2 * q && Pow2(1) == 2;
    hide Xor;
    XorDisjoint(q, 1, low);
    XorComm(low, 2 * q);
  }

  lemma StepOfDouble(y: nat)
    ensures Step(2 * y) == y
  {
  }

  /** One step takes the lowest bit of what is folded in. */
  lemma StepTakesBit(c: nat, b: nat)
    ensures Step(Xor(c, b)) == Xor(Step(Xor(c, Bit(b % 2 == 1))), b / 2)
  {
    hide Step, Xor;
    var low := Bit(b % 2 == 1);
    ByteParts(b);
    XorAssoc(c, low, 2 * (b / 2));
    StepLinear(Xor(c, low), 2 * (b / 2));
    StepOfDouble(b / 2);
  }

  lemma {:induction false} StepsFeed(c: nat, b: nat, n: nat)
    requires c < 0x1_0000_0000 && b < Pow2(n)
    ensures Coefficients(Steps(n, Xor(c, b))) == Fed(Coefficients(c), LowFirst(b, n))
    decreases n
  {
    hide Coefficients, TimesX, Sum, Step, Xor, Power;
    if n == 0 {
      XorZero(c);
    } else {
      var low := Bit(b % 2 == 1);
      StepTakesBit(c, b);
      Pow2Values();
      XorBound32(c, low);
      StepBound(Xor(c, low));
      StepsFeed(Step(Xor(c, low)), b / 2, n - 1);
      StepIsTimesX(Xor(c, low));
      XorIsSum(c, low);
      LowestOnly(b % 2 == 1);
      FedFirst(Coefficients(c), b % 2 == 1, LowFirst(b / 2, n - 1));
    }
  }

  lemma {:induction false} UpdateFeeds(s: nat, data: seq<byte>)
    requires s < 0x1_0000_0000
    ensures Coefficients(Update(s, data)) == Fed(Coefficients(s), Message(data))
    decreases |data|
  {
    hide Coefficients, TimesX, Sum, Steps, Xor, LowFirst, Power;
    if data != [] {
      var init, b := data[..|data| - 1], data[|data| - 1];
      UpdateFeeds(s, init);
      UpdateBound(s, init);
      Pow2Values();
      StepsFeed(Update(s, init), b, 8);
      FedConcat(Coefficients(s), Message(init), LowFirst(b, 8));
    }
  }

  lemma InitIsOnes()
    ensures Coefficients(INIT) == ONES
  {
    Pow2Values();
    hide ToBits;
    AllOnes(32);
  }

  lemma {:induction false} AllOnes(n: nat)
    ensures ToBits(Pow2(n) - 1, n) == Same(true, n)
  {
    if n > 0 {
      AllOnes(n - 1);
      assert (Pow2(n) - 1) / 2 == Pow2(n - 1) - 1 && (Pow2(n) - 1) % 2 == 1;
    }
  }

  lemma FlippedIsAdded(m: Bits)
    ensures Flipped(m + Same(false, 32)) == Added(m + Same(false, 32), Same(true, 32) + Same(false, |m|))
  {
  }

  lemma OnesRemain()
    ensures Remainder(Same(true, 32)) == ONES
  {
    hide Remainder;
    ShortRemainder(Same(true, 32));
  }

  /** The checksum of a byte string is what the division defines. */
  lemma ComputeIsDivision(data: seq<byte>)
    ensures ToBits(Compute(data), 32) == Sum(Remainder(Flipped(Message(data) + Same(false, 32))), ONES)
  {
    hide ToBits, TimesX, Sum, Remainder, Fed, Message, Added, Flipped, Shifted, Xor, Update;
    var m := Message(data);
    UpdateFeeds(INIT, data);
    InitIsOnes();
    FedIsRemainder(ONES, m);
    FlippedIsAdded(m);
    RemainderAdded(m + Same(false, 32), Same(true, 32) + Same(false, |m|));
    RemainderZeros(Same(true, 32), |m|);
    OnesRemain();
    XorIsSum(Update(INIT, data), INIT);
  }
}
