/** Machine words as naturals, their bitwise operators, and bit lists.

    A word is a natural below a power of two. The operators `|`, `&` and `^` are defined
    bit by bit, so that the bodies modelled elsewhere can use the same operators as the
    source; the lemmas relate them to division, remainder and concatenation of bit lists. */
module Words {
  type byte = x: int | 0 <= x < 0x100
  type u32 = x: int | 0 <= x < 0x1_0000_0000
  type u64 = x: int | 0 <= x < 0x1_0000_0000_0000_0000
  type i64 = x: int | -0x8000_0000_0000_0000 <= x < 0x8000_0000_0000_0000

  const TWO64 := 0x1_0000_0000_0000_0000
  const TWO63 := 0x8000_0000_0000_0000
  const TWO32 := 0x1_0000_0000

  /** `static_cast<uint64_t>`: reduction modulo 2^64. */
  function ToU64(x: int): (r: u64) {
    x % TWO64
  }

  /** `static_cast<int64_t>`: two's complement reinterpretation. */
  function ToI64(x: int): (r: i64)
    ensures ToU64(r) == ToU64(x)
  {
    var m := x % TWO64;
    if m < TWO63 then m else m - TWO64
  }

  lemma I64Cast(x: i64)
    ensures ToI64(ToU64(x)) == x
    ensures ToI64(x) == x
  {
  }

  /** Adding back a wrapped difference restores the minuend, whatever the difference. */
  lemma WrapAddBack(a: i64, b: i64)
    ensures ToI64(b + ToI64(ToU64(a - b))) == a
    ensures ToI64(b + ToI64(a - b)) == a
  {
  }

  function Pow2(n: nat): (p: nat)
    ensures p > 0
  {
    if n == 0 then 1 else 2 * Pow2(n - 1)
  }

  lemma Pow2Values()
    ensures Pow2(7) == 128 && Pow2(8) == 256 && Pow2(13) == 8192 && Pow2(14) == 16384
    ensures Pow2(16) == 65536 && Pow2(17) == 131072 && Pow2(20) == 1048576
    ensures Pow2(31) == 0x8000_0000 && Pow2(32) == 0x1_0000_0000
    ensures Pow2(63) == TWO63 && Pow2(64) == TWO64
  {
    assert Pow2(10) == 1024;
    Pow2Add(10, 10);
    Pow2Add(10, 7);
    Pow2Add(16, 16);
    Pow2Add(32, 32);
    Pow2Add(32, 31);
  }

  lemma {:induction false} Pow2Add(a: nat, b: nat)
    ensures Pow2(a + b) == Pow2(a) * Pow2(b)
  {
    if b > 0 {
      Pow2Add(a, b - 1);
      assert Pow2(a + b) == 2 * Pow2(a + (b - 1));
    }
  }

  lemma {:induction false} Pow2Mono(a: nat, b: nat)
    requires a <= b
    ensures Pow2(a) <= Pow2(b)
  {
    if a < b {
      Pow2Mono(a, b - 1);
    }
  }

  // ---- Division facts --------------------------------------------------------

  lemma MulMono(a: nat, b: nat, p: nat)
    requires a <= b
    ensures a * p <= b * p
  {
  }

  lemma ModSmall(x: nat, d: nat)
    requires x < d
    ensures x % d == x
  {
  }

  lemma MulAtLeast(k: int, d: int)
    requires k >= 1 && d > 0
    ensures k * d >= d
  {
  }

  lemma NegMul(k: int, d: int)
    ensures (-k) * d == -(k * d)
  {
  }

  lemma DivUnique(x: int, d: int, q: int, r: int)
    requires d > 0 && x == q * d + r && 0 <= r < d
    ensures x / d == q && x % d == r
  {
    var q', r' := x / d, x % d;
    assert (q - q') * d == r' - r;
    if q' < q {
      MulAtLeast(q - q', d);
    } else if q < q' {
      MulAtLeast(-(q - q'), d);
      NegMul(q - q', d);
      assert false;
    }
  }

  /** x / (a * b) by dividing twice, and the matching remainder. */
  lemma DivDiv(x: nat, a: nat, b: nat)
    requires a > 0 && b > 0
    ensures a * b > 0
    ensures x / (a * b) == x / a / b
    ensures x % (a * b) == (x / a % b) * a + x % a
  {
    var q, r := x / a, x % a;
    var q2, r2 := q / b, q % b;
    Regroup(q2, b, r2, a);
    DivUnique(x, a * b, q2, r2 * a + r);
  }

  lemma Regroup(q: nat, b: nat, r: nat, a: nat)
    requires a > 0 && r < b
    ensures (q * b + r) * a == q * (a * b) + r * a
    ensures 0 <= r * a <= a * b - a
    ensures a * b > 0
  {
    assert q * b * a == q * (a * b);
    MulMono(r, b - 1, a);
  }

  /** `x >> k`. */
  function Shr(x: nat, k: nat): nat {
    if k == 0 then x else Shr(x / 2, k - 1)
  }

  /** `x * 2^k`, doubling one place at a time. */
  function Scale(x: nat, k: nat): nat {
    if k == 0 then x else 2 * Scale(x, k - 1)
  }

  /** The `k` low bits of `x` as a number. */
  function Low(x: nat, k: nat): nat {
    if k == 0 then 0 else 2 * Low(x / 2, k - 1) + x % 2
  }

  lemma {:induction false} ScaleMul(x: nat, k: nat)
    ensures Scale(x, k) == x * Pow2(k)
  {
    if k > 0 {
      ScaleMul(x, k - 1);
    }
  }

  lemma {:induction false} LowSmall(x: nat, k: nat)
    requires x < Pow2(k)
    ensures Low(x, k) == x && Shr(x, k) == 0
  {
    if k > 0 {
      LowSmall(x / 2, k - 1);
    }
  }

  lemma {:induction false} SplitAt(x: nat, k: nat)
    ensures x == Scale(Shr(x, k), k) + Low(x, k)
    ensures Low(x, k) < Pow2(k)
  {
    if k > 0 {
      SplitAt(x / 2, k - 1);
    }
  }

  lemma ShrDiv(x: nat, k: nat)
    ensures Shr(x, k) == x / Pow2(k)
    ensures Low(x, k) == x % Pow2(k)
    ensures Low(x, k) < Pow2(k)
  {
    hide *;
    SplitAt(x, k);
    ScaleMul(Shr(x, k), k);
    DivUnique(x, Pow2(k), Shr(x, k), Low(x, k));
  }

  lemma LowMod(x: nat, k: nat)
    ensures Low(x, k) == x % Pow2(k)
    ensures Low(x, k) < Pow2(k)
  {
    hide *;
    ShrDiv(x, k);
  }

  lemma {:induction false} JoinAt(hi: nat, k: nat, lo: nat)
    requires lo < Pow2(k)
    ensures Shr(Scale(hi, k) + lo, k) == hi
    ensures Low(Scale(hi, k) + lo, k) == lo
    decreases k
  {
    if k > 0 {
      var x := Scale(hi, k) + lo;
      assert x / 2 == Scale(hi, k - 1) + lo / 2 && x % 2 == lo % 2;
      JoinAt(hi, k - 1, lo / 2);
    }
  }

  lemma {:induction false} ScaleAdd(x: nat, y: nat, k: nat)
    ensures Scale(x + y, k) == Scale(x, k) + Scale(y, k)
  {
    if k > 0 {
      ScaleAdd(x, y, k - 1);
    }
  }

  lemma {:induction false} ScaleScale(x: nat, j: nat, k: nat)
    ensures Scale(Scale(x, j), k) == Scale(x, j + k)
    decreases k
  {
    if k > 0 {
      ScaleScale(x, j, k - 1);
      assert j + k - 1 == j + (k - 1);
    }
  }

  lemma {:induction false} ScaleBound(x: nat, k: nat, n: nat)
    requires x < Pow2(n)
    ensures Scale(x, k) + Pow2(k) <= Pow2(n + k)
    decreases k
  {
    if k > 0 {
      ScaleBound(x, k - 1, n);
      assert n + k - 1 == n + (k - 1);
    }
  }

  lemma {:induction false} LowScale(x: nat, k: nat, n: nat)
    requires k <= n
    ensures Low(Scale(x, k), n) == Scale(Low(x, n - k), k)
    ensures Low(Scale(x, k), k) == 0
    decreases k
  {
    if k > 0 {
      LowScale(x, k - 1, n - 1);
    }
  }

  // ---- Bit lists, most significant bit first ---------------------------------

  type Bits = seq<bool>

  function Bit(b: bool): nat {
    if b then 1 else 0
  }

  /** The `n` low bits of `x`. */
  function ToBits(x: nat, n: nat): (s: Bits)
    ensures |s| == n
  {
    if n == 0 then [] else ToBits(x / 2, n - 1) + [x % 2 == 1]
  }

  function FromBits(s: Bits): nat {
    if s == [] then 0 else 2 * FromBits(s[..|s| - 1]) + Bit(s[|s| - 1])
  }

  lemma {:induction false} FromBitsBound(s: Bits)
    ensures FromBits(s) < Pow2(|s|)
  {
    if s != [] {
      FromBitsBound(s[..|s| - 1]);
    }
  }

  lemma {:induction false} ToBitsLow(x: nat, n: nat)
    ensures ToBits(Low(x, n), n) == ToBits(x, n)
  {
    if n > 0 {
      ToBitsLow(x / 2, n - 1);
    }
  }

  lemma {:induction false} FromToBits(x: nat, n: nat)
    ensures FromBits(ToBits(x, n)) == Low(x, n)
  {
    if n > 0 {
      FromToBits(x / 2, n - 1);
      var s := ToBits(x, n);
      assert s[..|s| - 1] == ToBits(x / 2, n - 1);
    }
  }

  lemma {:induction false} ToFromBits(s: Bits)
    ensures ToBits(FromBits(s), |s|) == s
  {
    if s != [] {
      var init, last := s[..|s| - 1], s[|s| - 1];
      ToFromBits(init);
      ToBitsStep(FromBits(init), last, |init|);
      assert s == init + [last];
    }
  }

  lemma ToBitsStep(x: nat, b: bool, n: nat)
    ensures ToBits(2 * x + Bit(b), n + 1) == ToBits(x, n) + [b]
  {
    assert (2 * x + Bit(b)) / 2 == x;
  }

  lemma {:induction false} ToBitsSplit(x: nat, a: nat, b: nat)
    ensures ToBits(x, a + b) == ToBits(Shr(x, b), a) + ToBits(x, b)
    decreases b
  {
    if b > 0 {
      ToBitsSplit(x / 2, a, b - 1);
      assert a + b - 1 == a + (b - 1);
    }
  }

  lemma {:induction false} FromBitsConcat(s: Bits, t: Bits)
    ensures FromBits(s + t) == Scale(FromBits(s), |t|) + FromBits(t)
    decreases |t|
  {
    if t == [] {
      assert s + t == s;
    } else {
      var t' := t[..|t| - 1];
      assert (s + t)[..|s + t| - 1] == s + t';
      FromBitsConcat(s, t');
    }
  }

  /** Bits of a value assembled from a high and a low part. */
  lemma ToBitsJoin(hi: nat, lo: nat, a: nat, b: nat)
    requires lo < Pow2(b)
    ensures ToBits(Scale(hi, b) + lo, a + b) == ToBits(hi, a) + ToBits(lo, b)
  {
    var x := Scale(hi, b) + lo;
    JoinAt(hi, b, lo);
    ToBitsSplit(x, a, b);
    ToBitsLow(x, b);
  }

  lemma {:induction false} ZeroBits(n: nat)
    ensures ToBits(0, n) == seq(n, i => false)
  {
    if n > 0 {
      ZeroBits(n - 1);
    }
  }

  // ---- Bitwise operators -----------------------------------------------------

  function Xor(a: nat, b: nat): (r: nat)
    decreases a + b
  {
    if a == 0 && b == 0 then 0 else 2 * Xor(a / 2, b / 2) + Bit(a % 2 != b % 2)
  }

  function Or(a: nat, b: nat): (r: nat)
    decreases a + b
  {
    if a == 0 && b == 0 then 0 else 2 * Or(a / 2, b / 2) + Bit(a % 2 == 1 || b % 2 == 1)
  }

  function And(a: nat, b: nat): (r: nat)
    decreases a + b
  {
    if a == 0 && b == 0 then 0 else 2 * And(a / 2, b / 2) + Bit(a % 2 == 1 && b % 2 == 1)
  }

  function Shl(x: nat, k: nat, width: nat): (r: nat)
    ensures r < Pow2(width)
  {
    SplitAt(Scale(x, k), width);
    Low(Scale(x, k), width)
  }

  lemma {:induction false} XorComm(a: nat, b: nat)
    ensures Xor(a, b) == Xor(b, a)
    decreases a + b
  {
    if a + b > 0 {
      XorComm(a / 2, b / 2);
    }
  }

  lemma {:induction false} XorZero(a: nat)
    ensures Xor(a, 0) == a && Xor(0, a) == a
  {
    if a > 0 {
      XorZero(a / 2);
    }
  }

  lemma {:induction false} XorSelf(a: nat)
    ensures Xor(a, a) == 0
  {
    if a > 0 {
      XorSelf(a / 2);
    }
  }

  lemma {:induction false} XorAssoc(a: nat, b: nat, c: nat)
    ensures Xor(Xor(a, b), c) == Xor(a, Xor(b, c))
    decreases a + b + c
  {
    if a + b + c > 0 {
      XorAssoc(a / 2, b / 2, c / 2);
      XorHalf(a, b);
      XorHalf(b, c);
      XorHalf(Xor(a, b), c);
      XorHalf(a, Xor(b, c));
    }
  }

  lemma XorHalf(a: nat, b: nat)
    ensures Xor(a, b) / 2 == Xor(a / 2, b / 2)
    ensures Xor(a, b) % 2 == Bit(a % 2 != b % 2)
  {
  }

  /** `^` is undone by the same operand. */
  lemma XorCancel(a: nat, b: nat)
    ensures Xor(a, Xor(a, b)) == b
    ensures Xor(Xor(b, a), a) == b
  {
    XorAssoc(a, a, b);
    XorAssoc(b, a, a);
    XorSelf(a);
    XorZero(b);
  }

  lemma XorEqualsZero(a: nat, b: nat)
    requires Xor(a, b) == 0
    ensures a == b
  {
    XorCancel(a, b);
    XorZero(a);
  }

  lemma {:induction false} XorBound(a: nat, b: nat, n: nat)
    requires a < Pow2(n) && b < Pow2(n)
    ensures Xor(a, b) < Pow2(n)
    decreases n
  {
    if n > 0 && a + b > 0 {
      XorBound(a / 2, b / 2, n - 1);
    }
  }

  lemma OrHalf(a: nat, b: nat)
    ensures Or(a, b) / 2 == Or(a / 2, b / 2)
    ensures Or(a, b) % 2 == Bit(a % 2 == 1 || b % 2 == 1)
  {
  }

  lemma {:induction false} OrDisjoint(a: nat, k: nat, b: nat)
    requires b < Pow2(k)
    ensures Or(Scale(a, k), b) == Scale(a, k) + b
    decreases k
  {
    if k == 0 {
      OrZero(a);
    } else {
      OrDisjoint(a, k - 1, b / 2);
      OrHalf(Scale(a, k), b);
    }
  }

  lemma {:induction false} OrZero(a: nat)
    ensures Or(a, 0) == a && Or(0, a) == a
  {
    if a > 0 {
      OrZero(a / 2);
    }
  }

  lemma {:induction false} OrComm(a: nat, b: nat)
    ensures Or(a, b) == Or(b, a)
    decreases a + b
  {
    if a + b > 0 {
      OrComm(a / 2, b / 2);
    }
  }

  lemma {:induction false} OrAssoc(a: nat, b: nat, c: nat)
    ensures Or(Or(a, b), c) == Or(a, Or(b, c))
    decreases a + b + c
  {
    if a + b + c > 0 {
      OrAssoc(a / 2, b / 2, c / 2);
      OrHalf(a, b);
      OrHalf(b, c);
      OrHalf(Or(a, b), c);
      OrHalf(a, Or(b, c));
    }
  }

  lemma {:induction false} AndMask(x: nat, k: nat)
    ensures And(x, Pow2(k) - 1) == Low(x, k)
    decreases k
  {
    if k == 0 {
      AndZero(x);
    } else {
      var m := Pow2(k) - 1;
      assert m / 2 == Pow2(k - 1) - 1 && m % 2 == 1;
      AndMask(x / 2, k - 1);
    }
  }

  /** A mask above all bits of a value selects none of them. */
  lemma {:induction false} AndAbove(x: nat, k: nat, m: nat)
    requires x < Pow2(k)
    ensures And(x, Scale(m, k)) == 0
    decreases k
  {
    if k == 0 {
      AndComm(x, m);
      AndZero(m);
    } else {
      AndAbove(x / 2, k - 1, m);
    }
  }

  lemma {:induction false} AndComm(a: nat, b: nat)
    ensures And(a, b) == And(b, a)
    decreases a + b
  {
    if a + b > 0 {
      AndComm(a / 2, b / 2);
    }
  }

  lemma {:induction false} AndZero(x: nat)
    ensures And(x, 0) == 0
  {
    if x > 0 {
      AndZero(x / 2);
    }
  }

  /** The parts of a disjoint `^`: a multiple of 2^k and a value below 2^k. */
  lemma {:induction false} XorDisjoint(a: nat, k: nat, b: nat)
    requires b < Pow2(k)
    ensures Xor(Scale(a, k), b) == Scale(a, k) + b
    decreases k
  {
    if k == 0 {
      XorZero(a);
    } else {
      XorDisjoint(a, k - 1, b / 2);
      XorHalf(Scale(a, k), b);
    }
  }

  // ---- Bytes -----------------------------------------------------------------

  /** Bits of a byte string, first byte first, each byte most significant bit first. */
  function BytesBits(bs: seq<byte>): (s: Bits)
    ensures |s| == 8 * |bs|
  {
    if bs == [] then [] else BytesBits(bs[..|bs| - 1]) + ToBits(bs[|bs| - 1], 8)
  }

  lemma {:induction false} BytesBitsConcat(a: seq<byte>, b: seq<byte>)
    ensures BytesBits(a + b) == BytesBits(a) + BytesBits(b)
  {
    if b == [] {
      assert a + b == a;
    } else {
      assert (a + b)[..|a + b| - 1] == a + b[..|b| - 1];
      BytesBitsConcat(a, b[..|b| - 1]);
    }
  }

  lemma BytesBitsOne(b: byte)
    ensures BytesBits([b]) == ToBits(b, 8)
  {
    assert [b][..0] == [];
  }

  /** The unsigned value of a big-endian byte string. */
  function BeValue(bs: seq<byte>): nat {
    if bs == [] then 0 else 256 * BeValue(bs[..|bs| - 1]) + bs[|bs| - 1]
  }

  lemma {:induction false} BeValueBits(bs: seq<byte>)
    ensures ToBits(BeValue(bs), 8 * |bs|) == BytesBits(bs)
    ensures BeValue(bs) < Pow2(8 * |bs|)
  {
    if bs == [] {
      assert Pow2(0) == 1;
    } else {
      var n := |bs| - 1;
      BeValueBits(bs[..n]);
      AppendByte(BeValue(bs[..n]), bs[n], 8 * n);
    }
  }

  lemma AppendByte(x: nat, b: byte, m: nat)
    requires x < Pow2(m)
    ensures ToBits(256 * x + b, m + 8) == ToBits(x, m) + ToBits(b, 8)
    ensures 256 * x + b < Pow2(m + 8)
  {
    ScaleEight(x);
    hide *;
    ToBitsJoin(x, b, m, 8);
    ScaleBound(x, 8, m);
  }

  lemma ScaleEight(x: nat)
    ensures Scale(x, 8) == 256 * x && Pow2(8) == 256
  {
    ScaleMul(x, 8);
  }

  /** `width` big-endian bytes of `x`, as the source's shift-and-push sequences emit them. */
  function ToBe(x: nat, width: nat): (bs: seq<byte>)
    ensures |bs| == width
  {
    if width == 0 then [] else ToBe(x / 256, width - 1) + [x % 256]
  }

  lemma {:induction false} BeRoundTrip(x: nat, width: nat)
    requires x < Pow2(8 * width)
    ensures BeValue(ToBe(x, width)) == x
  {
    if width == 0 {
      assert Pow2(0) == 1;
    } else {
      ByteAbove(x, 8 * (width - 1));
      BeRoundTrip(x / 256, width - 1);
      var s := ToBe(x, width);
      assert s[..|s| - 1] == ToBe(x / 256, width - 1);
    }
  }

  lemma ByteAbove(x: nat, m: nat)
    requires x < Pow2(m + 8)
    ensures x / 256 < Pow2(m)
  {
    Pow2Add(m, 8);
    assert Pow2(8) == 256;
  }

  lemma {:induction false} BeValueInjective(a: seq<byte>, b: seq<byte>)
    requires |a| == |b| && BeValue(a) == BeValue(b)
    ensures a == b
  {
    if a != [] {
      BeValueInjective(a[..|a| - 1], b[..|b| - 1]);
      assert a == a[..|a| - 1] + [a[|a| - 1]];
      assert b == b[..|b| - 1] + [b[|b| - 1]];
    }
  }
}
