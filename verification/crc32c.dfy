/** CRC-32C, the Castagnoli polynomial of section 12.1 of RFC 3720, reflected. */
module Crc32c {
  import opened Words

  const POLY_REVERSED: nat := 0x82F63B78
  const INIT: u32 := 0xFFFF_FFFF

  // ---- Specification: one bit at a time --------------------------------------

  /** One shift of the reflected register. */
  function Step(c: nat): nat {
    if c % 2 == 1 then Xor(POLY_REVERSED, c / 2) else c / 2
  }

  function Steps(n: nat, c: nat): nat {
    if n == 0 then c else Steps(n - 1, Step(c))
  }

  /** The register after a byte string: fold each byte in and shift eight times. */
  function Update(state: nat, data: seq<byte>): nat
    decreases |data|
  {
    if data == [] then state
    else Steps(8, Xor(Update(state, data[..|data| - 1]), data[|data| - 1]))
  }

  function Compute(data: seq<byte>): (c: u32) {
    UpdateBound(INIT, data);
    XorBound32(Update(INIT, data), INIT);
    Xor(Update(INIT, data), INIT)
  }

  // ---- Algebra of a step -----------------------------------------------------

  lemma XorBound32(a: nat, b: nat)
    requires a < 0x1_0000_0000 && b < 0x1_0000_0000
    ensures Xor(a, b) < 0x1_0000_0000
  {
    Pow2Values();
    XorBound(a, b, 32);
  }

  lemma StepBound(c: nat)
    requires c < 0x1_0000_0000
    ensures Step(c) < 0x1_0000_0000
  {
    XorBound32(POLY_REVERSED, c / 2);
  }

  lemma {:induction false} StepsBound(n: nat, c: nat)
    requires c < 0x1_0000_0000
    ensures Steps(n, c) < 0x1_0000_0000
  {
    if n > 0 {
      StepBound(c);
      StepsBound(n - 1, Step(c));
    }
  }

  lemma {:induction false} UpdateBound(state: nat, data: seq<byte>)
    requires state < 0x1_0000_0000
    ensures Update(state, data) < 0x1_0000_0000
    decreases |data|
  {
    if data != [] {
      UpdateBound(state, data[..|data| - 1]);
      XorBound32(Update(state, data[..|data| - 1]), data[|data| - 1]);
      StepsBound(8, Xor(Update(state, data[..|data| - 1]), data[|data| - 1]));
    }
  }

  lemma StepLinear(x: nat, y: nat)
    ensures Step(Xor(x, y)) == Xor(Step(x), Step(y))
  {
    var p, a, b := POLY_REVERSED, x / 2, y / 2;
    XorHalf(x, y);
    XorAssoc(p, a, b);
    if y % 2 == 1 {
      XorComm(p, b);
      XorAssoc(a, b, p);
      XorComm(Xor(a, b), p);
      if x % 2 == 1 {
        XorAssoc(Xor(p, a), b, p);
        assert Xor(Xor(p, a), Xor(b, p)) == Xor(Xor(Xor(p, a), b), p);
        XorComm(Xor(p, Xor(a, b)), p);
        XorCancel(p, Xor(a, b));
      }
    }
  }

  lemma {:induction false} StepsLinear(n: nat, x: nat, y: nat)
    ensures Steps(n, Xor(x, y)) == Xor(Steps(n, x), Steps(n, y))
  {
    if n > 0 {
      StepLinear(x, y);
      StepsLinear(n - 1, Step(x), Step(y));
    }
  }

  lemma {:induction false} StepsAdd(m: nat, n: nat, c: nat)
    ensures Steps(m + n, c) == Steps(n, Steps(m, c))
  {
    if m > 0 {
      StepsAdd(m - 1, n, Step(c));
    }
  }

  /** Shifting out zero bits is plain division. */
  lemma {:induction false} StepsOfMultiple(n: nat, q: nat)
    ensures Steps(n, Scale(q, n)) == q
  {
    if n > 0 {
      StepsOfMultiple(n - 1, q);
    }
  }

  /** A step loses nothing: the polynomial's top bit marks which branch was taken. */
  lemma StepInjective(x: nat, y: nat)
    requires x < 0x1_0000_0000 && y < 0x1_0000_0000 && Step(x) == Step(y)
    ensures x == y
  {
    var p := POLY_REVERSED;
    if x % 2 == 1 && y % 2 == 1 {
      XorCancel(p, x / 2);
      XorCancel(p, y / 2);
    } else if x % 2 == 1 {
      OneTapped(x, y);
    } else if y % 2 == 1 {
      OneTapped(y, x);
    }
  }

  lemma OneTapped(x: nat, y: nat)
    requires x < 0x1_0000_0000 && y < 0x1_0000_0000
    requires x % 2 == 1 && y % 2 == 0
    ensures Step(x) != Step(y)
  {
    var p := POLY_REVERSED;
    if Xor(p, x / 2) == y / 2 {
      XorCancel(x / 2, p);
      Pow2Values();
      XorBound(y / 2, x / 2, 31);
      assert false;
    }
  }

  lemma {:induction false} StepsInjective(n: nat, x: nat, y: nat)
    requires x < 0x1_0000_0000 && y < 0x1_0000_0000 && Steps(n, x) == Steps(n, y)
    ensures x == y
  {
    if n > 0 {
      StepBound(x);
      StepBound(y);
      StepsInjective(n - 1, Step(x), Step(y));
      StepInjective(x, y);
    }
  }

  // ---- The table-driven form -------------------------------------------------

  function Table(): (t: seq<nat>)
    ensures |t| == 256
    ensures forall i :: 0 <= i < 256 ==> t[i] == Steps(8, i)
  {
    seq(256, i => if i >= 0 then Steps(8, i) else 0)
  }

  /** The lookup on the low byte, xored with the shifted rest, is eight steps. */
  lemma TableStep(s: nat, b: byte)
    ensures And(Xor(s, b), 0xFF) < 256
    ensures Xor(Steps(8, And(Xor(s, b), 0xFF)), Shr(s, 8)) == Steps(8, Xor(s, b))
  {
    var x := Xor(s, b);
    var hi, lo := Shr(x, 8), Low(x, 8);
    assert Pow2(8) == 256;
    hide *;
    AndMask(x, 8);
    SplitAt(x, 8);
    XorHigh(s, b);
    XorDisjoint(hi, 8, lo);
    StepsLinear(8, Scale(hi, 8), lo);
    StepsOfMultiple(8, hi);
    XorComm(hi, Steps(8, lo));
  }

  lemma {:induction false} XorShr(a: nat, b: nat, k: nat)
    ensures Shr(Xor(a, b), k) == Xor(Shr(a, k), Shr(b, k))
    decreases k
  {
    if k > 0 {
      XorHalf(a, b);
      XorShr(a / 2, b / 2, k - 1);
    }
  }

  lemma XorHigh(s: nat, b: byte)
    ensures Shr(Xor(s, b), 8) == Shr(s, 8)
  {
    assert Pow2(8) == 256;
    XorShr(s, b, 8);
    LowSmall(b, 8);
    XorZero(Shr(s, 8));
  }

  /** The table, as the source builds it. */
  method BuildTable() returns (t: array<nat>)
    ensures fresh(t) && t.Length == 256
    ensures t[..] == Table()
  {
    t := new nat[256];
    for i := 0 to 256
      invariant forall k :: 0 <= k < i ==> t[k] == Steps(8, k)
    {
      var c: nat := i;
      for j := 0 to 8
        invariant Steps(8 - j, c) == Steps(8, i)
      {
        assert Shr(c, 1) == Shr(c / 2, 0) == c / 2;
        assert Steps(8 - j, c) == Steps(8 - (j + 1), Step(c));
        c := if c % 2 == 1 then Xor(POLY_REVERSED, Shr(c, 1)) else Shr(c, 1);
      }
      t[i] := c;
    }
  }

  /** The source's loop: one table lookup for each byte. */
  method UpdateByTable(t: array<nat>, state: u32, data: seq<byte>) returns (s: nat)
    requires t[..] == Table()
    ensures s == Update(state, data)
  {
    s := state;
    for i := 0 to |data|
      invariant s == Update(state, data[..i])
    {
      TableStep(s, data[i]);
      assert data[..i + 1][..i] == data[..i];
      var k := And(Xor(s, data[i]), 0xFF);
      assert t[k] == t[..][k];
      s := Xor(t[k], Shr(s, 8));
    }
    assert data[..|data|] == data;
  }

  method ComputeByTable(data: seq<byte>) returns (c: u32)
    ensures c == Compute(data)
  {
    var t := BuildTable();
    var s := UpdateByTable(t, INIT, data);
    UpdateBound(INIT, data);
    XorBound32(s, INIT);
    c := Xor(s, INIT);
  }

  // ---- Composition and error detection ---------------------------------------

  lemma {:induction false} UpdateConcat(s: nat, a: seq<byte>, b: seq<byte>)
    ensures Update(s, a + b) == Update(Update(s, a), b)
    decreases |b|
  {
    if b == [] {
      assert a + b == a;
    } else {
      assert (a + b)[..|a + b| - 1] == a + b[..|b| - 1];
      UpdateConcat(s, a, b[..|b| - 1]);
    }
  }

  /** Little-endian value of a byte string. */
  function LeWord(bs: seq<byte>): nat {
    if bs == [] then 0 else LeWord(bs[..|bs| - 1]) + Scale(bs[|bs| - 1], 8 * (|bs| - 1))
  }

  lemma {:induction false} LeWordBound(bs: seq<byte>)
    ensures LeWord(bs) < Pow2(8 * |bs|)
  {
    if bs != [] {
      var n := |bs| - 1;
      LeWordBound(bs[..n]);
      assert Pow2(8) == 256;
      ScaleBound(bs[n], 8 * n, 8);
    }
  }

  lemma {:induction false} LeWordInjective(a: seq<byte>, b: seq<byte>)
    requires |a| == |b| && LeWord(a) == LeWord(b)
    ensures a == b
  {
    if a != [] {
      var n := |a| - 1;
      LeWordBound(a[..n]);
      LeWordBound(b[..n]);
      JoinAt(a[n], 8 * n, LeWord(a[..n]));
      JoinAt(b[n], 8 * n, LeWord(b[..n]));
      LeWordInjective(a[..n], b[..n]);
      assert a == a[..n] + [a[n]] && b == b[..n] + [b[n]];
    }
  }

  /** Up to four bytes are one word folded in at once and shifted through. */
  lemma {:induction false} UpdateWord(s: nat, bs: seq<byte>)
    requires |bs| <= 4
    ensures Update(s, bs) == Steps(8 * |bs|, Xor(s, LeWord(bs)))
    decreases |bs|
  {
    if bs == [] {
      XorZero(s);
    } else {
      var n := |bs| - 1;
      UpdateWord(s, bs[..n]);
      LeWordBound(bs[..n]);
      FoldByte(s, LeWord(bs[..n]), bs[n], 8 * n);
    }
  }

  /** Folding a byte after `m` shifts is folding it `m` places higher before them. */
  lemma FoldByte(s: nat, w: nat, b: byte, m: nat)
    requires w < Pow2(m)
    ensures Steps(8, Xor(Steps(m, Xor(s, w)), b)) == Steps(m + 8, Xor(s, w + Scale(b, m)))
  {
    hide *;
    var top := Scale(b, m);
    XorDisjoint(b, m, w);
    XorComm(top, w);
    XorAssoc(s, w, top);
    StepsLinear(m, Xor(s, w), top);
    StepsOfMultiple(m, b);
    StepsAdd(m, 8, Xor(s, w + top));
  }

  lemma {:induction false} UpdateInjective(s: nat, t: nat, data: seq<byte>)
    requires s < 0x1_0000_0000 && t < 0x1_0000_0000 && s != t
    ensures Update(s, data) != Update(t, data)
    decreases |data|
  {
    if data != [] {
      var d, b := data[..|data| - 1], data[|data| - 1];
      UpdateInjective(s, t, d);
      UpdateBound(s, d);
      UpdateBound(t, d);
      XorBound32(Update(s, d), b);
      XorBound32(Update(t, d), b);
      if Update(s, data) == Update(t, data) {
        StepsInjective(8, Xor(Update(s, d), b), Xor(Update(t, d), b));
        XorCancel(b, Update(s, d));
        XorCancel(b, Update(t, d));
        assert false;
      }
    }
  }

  lemma WindowDetected(s: nat, a: seq<byte>, b: seq<byte>)
    requires s < 0x1_0000_0000 && |a| == |b| <= 4 && a != b
    ensures Update(s, a) != Update(s, b)
  {
    UpdateWord(s, a);
    UpdateWord(s, b);
    LeWordBound(a);
    LeWordBound(b);
    Pow2Values();
    Pow2Mono(8 * |a|, 32);
    XorBound32(s, LeWord(a));
    XorBound32(s, LeWord(b));
    if Update(s, a) == Update(s, b) {
      StepsInjective(8 * |a|, Xor(s, LeWord(a)), Xor(s, LeWord(b)));
      XorCancel(s, LeWord(a));
      XorCancel(s, LeWord(b));
      LeWordInjective(a, b);
    }
  }

  /** Two buffers of one length that differ, but only inside four consecutive bytes starting
      at `k`, never share a checksum. */
  ghost predicate DifferWithinFour(a: seq<byte>, b: seq<byte>, k: nat) {
    && |a| == |b| && a != b
    && forall i :: 0 <= i < |a| && !(k <= i < k + 4) ==> a[i] == b[i]
  }

  lemma BurstDetected(a: seq<byte>, b: seq<byte>, k: nat)
    requires DifferWithinFour(a, b, k)
    ensures Compute(a) != Compute(b)
  {
    var lo := if k < |a| then k else |a|;
    var hi := if k + 4 < |a| then k + 4 else |a|;
    assert a[..lo] == b[..lo] && a[hi..] == b[hi..];
    assert a == a[..lo] + (a[lo..hi] + a[hi..]);
    assert b == b[..lo] + (b[lo..hi] + b[hi..]);
    var s := Update(INIT, a[..lo]);
    UpdateBound(INIT, a[..lo]);
    UpdateConcat(INIT, a[..lo], a[lo..hi] + a[hi..]);
    UpdateConcat(INIT, b[..lo], b[lo..hi] + b[hi..]);
    UpdateConcat(s, a[lo..hi], a[hi..]);
    UpdateConcat(s, b[lo..hi], b[hi..]);
    WindowDetected(s, a[lo..hi], b[lo..hi]);
    UpdateBound(s, a[lo..hi]);
    UpdateBound(s, b[lo..hi]);
    UpdateInjective(Update(s, a[lo..hi]), Update(s, b[lo..hi]), a[hi..]);
    XorCancel(INIT, Update(INIT, a));
    XorCancel(INIT, Update(INIT, b));
  }
}
