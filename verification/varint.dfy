/** Unsigned LEB128 (section 7.6 of DWARF 4) and its zigzag variant. */
module Varint {
  import opened Words
  import opened Wrappers

  const MAX_VARINT_LEN64 := 10

  /** The source's read errors. `Unspecified` is none of them: it marks a read for which the source
      computes a shift that C++ leaves undefined, so that nothing can be said of what it returns. */
  datatype ReadError = EndOfStream | UnexpectedEnd | VarintOverflow | Unspecified

  // ---- Specification ---------------------------------------------------------

  /** The LEB128 code of `x`. */
  function Uvarint(x: nat): (bs: seq<byte>)
    ensures |bs| > 0
  {
    if x < 0x80 then [x] else [x % 0x80 + 0x80] + Uvarint(x / 0x80)
  }

  /** The value carried by the low seven bits of each byte, least significant group first. */
  function GroupValue(bs: seq<byte>): nat {
    if bs == [] then 0 else bs[0] % 0x80 + 0x80 * GroupValue(bs[1..])
  }

  /** Position of the first byte without continuation bit, or the length if there is none. */
  function TermIndex(bs: seq<byte>): (n: nat)
    ensures n <= |bs|
    ensures forall i :: 0 <= i < n ==> bs[i] >= 0x80
    ensures n < |bs| ==> bs[n] < 0x80
  {
    if bs == [] || bs[0] < 0x80 then 0 else 1 + TermIndex(bs[1..])
  }

  /** What a reader must return: value and number of bytes, or the error. */
  function DecodeUvarint(buf: seq<byte>): (r: Result<(nat, nat), ReadError>)
    ensures r.Ok? ==> 0 < r.value.1 <= |buf|
  {
    var n := TermIndex(buf);
    if buf == [] then Err(EndOfStream)
    else if n == |buf| <= MAX_VARINT_LEN64 then Err(UnexpectedEnd)
    else if n >= MAX_VARINT_LEN64 || (n == MAX_VARINT_LEN64 - 1 && buf[n] > 1) then Err(VarintOverflow)
    else Ok((GroupValue(buf[..n + 1]), n + 1))
  }

  function ZigZag(x: i64): (r: u64) {
    if x >= 0 then 2 * x else -2 * x - 1
  }

  function UnZigZag(u: u64): (r: i64)
    ensures ZigZag(r) == u
  {
    if u % 2 == 0 then u / 2 else -(u / 2) - 1
  }

  lemma UnZigZagZigZag(x: i64)
    ensures UnZigZag(ZigZag(x)) == x
  {
  }

  function ZigZagVarint(x: i64): (bs: seq<byte>) {
    Uvarint(ZigZag(x))
  }

  function DecodeVarint(buf: seq<byte>): (r: Result<(i64, nat), ReadError>)
    ensures r.Ok? ==> 0 < r.value.1 <= |buf|
  {
    match DecodeUvarint(buf)
    case Ok((v, n)) => DecodedBound(buf); Ok((UnZigZag(v), n))
    case Err(e) => Err(e)
  }

  // ---- Properties of the specification ---------------------------------------

  lemma {:induction false} GroupValueSnoc(bs: seq<byte>, b: byte)
    ensures GroupValue(bs + [b]) == GroupValue(bs) + Scale(b % 0x80, 7 * |bs|)
    ensures GroupValue(bs) < Pow2(7 * |bs|)
  {
    if bs == [] {
      assert [b][1..] == [];
    } else {
      var m := 7 * |bs[1..]|;
      assert (bs + [b])[1..] == bs[1..] + [b];
      GroupValueSnoc(bs[1..], b);
      Pow2Add(7, m);
      assert Pow2(7) == 0x80;
      ScaleScale(b % 0x80, m, 7);
      ScaleSeven(Scale(b % 0x80, m));
    }
  }

  lemma ScaleSeven(x: nat)
    ensures Scale(x, 7) == 0x80 * x
  {
    ScaleMul(x, 7);
    assert Pow2(7) == 0x80;
  }

  /** Every decoded value fits 64 bits. */
  lemma DecodedBound(buf: seq<byte>)
    requires DecodeUvarint(buf).Ok?
    ensures DecodeUvarint(buf).value.0 < TWO64
  {
    var n := TermIndex(buf);
    var s := buf[..n];
    assert buf[..n + 1] == s + [buf[n]];
    GroupValueSnoc(s, buf[n]);
    GroupFits(GroupValue(s), buf[n] % 0x80, n);
  }

  /** A group at its place, above the groups before it, stays within 64 bits. */
  lemma GroupFits(v: nat, g: nat, i: nat)
    requires i < MAX_VARINT_LEN64 && v < Pow2(7 * i) && g < 0x80
    requires i == MAX_VARINT_LEN64 - 1 ==> g <= 1
    ensures v + Scale(g, 7 * i) < Pow2(64) == TWO64
  {
    Pow2Values();
    if i == MAX_VARINT_LEN64 - 1 {
      assert Pow2(1) == 2;
      ScaleBound(g, 63, 1);
    } else {
      ScaleBound(g, 7 * i, 7);
      Pow2Mono(7 + 7 * i, 63);
    }
  }

  /** The code has no inner terminator and carries its value. */
  lemma {:induction false} UvarintShape(x: nat)
    ensures TermIndex(Uvarint(x)) == |Uvarint(x)| - 1
    ensures GroupValue(Uvarint(x)) == x
  {
    var s := Uvarint(x);
    if x < 0x80 {
      assert s[1..] == [];
    } else {
      UvarintShape(x / 0x80);
      assert s[1..] == Uvarint(x / 0x80);
    }
  }

  /** Length of the code, and the size of its last byte when it has full length. */
  lemma {:induction false} UvarintLength(x: nat, n: nat, k: nat)
    requires n >= 1 && 1 <= k <= 0x80 && x < Pow2(7 * (n - 1)) * k
    ensures |Uvarint(x)| <= n
    ensures |Uvarint(x)| == n ==> Uvarint(x)[n - 1] < k
  {
    if x >= 0x80 {
      if n == 1 {
        assert false;
      }
      Pow2Add(7 * (n - 2), 7);
      Pow2Values();
      assert Pow2(7 * (n - 1)) * k == 0x80 * (Pow2(7 * (n - 2)) * k);
      UvarintLength(x / 0x80, n - 1, k);
    }
  }

  lemma UvarintMaxLength(x: u64)
    ensures |Uvarint(x)| <= MAX_VARINT_LEN64
    ensures |Uvarint(x)| == MAX_VARINT_LEN64 ==> Uvarint(x)[MAX_VARINT_LEN64 - 1] <= 1
  {
    Pow2Values();
    UvarintLength(x, MAX_VARINT_LEN64, 2);
  }

  lemma {:induction false} TermIndexAppend(s: seq<byte>, tail: seq<byte>)
    requires TermIndex(s) < |s|
    ensures TermIndex(s + tail) == TermIndex(s)
  {
    if s[0] >= 0x80 {
      assert (s + tail)[1..] == s[1..] + tail;
      TermIndexAppend(s[1..], tail);
    }
  }

  /** Round trip with any trailing bytes. */
  lemma UvarintRoundTrip(x: u64, tail: seq<byte>)
    ensures DecodeUvarint(Uvarint(x) + tail) == Ok((x, |Uvarint(x)|))
  {
    var s := Uvarint(x);
    UvarintShape(x);
    UvarintMaxLength(x);
    TermIndexAppend(s, tail);
    assert (s + tail)[..|s|] == s;
  }

  lemma VarintRoundTrip(x: i64, tail: seq<byte>)
    ensures DecodeVarint(ZigZagVarint(x) + tail) == Ok((x, |ZigZagVarint(x)|))
  {
    UvarintRoundTrip(ZigZag(x), tail);
    UnZigZagZigZag(x);
  }

  // ---- The operators the source uses -----------------------------------------

  lemma {:induction false} OrSetsBit(x: nat, k: nat)
    requires x < Pow2(k + 1)
    ensures Or(x, Pow2(k)) == x % Pow2(k) + Pow2(k)
    decreases k
  {
    if k == 0 {
      assert x == 0 || x == 1;
      assert Or(0, 0) == 0;
    } else {
      OrSetsBit(x / 2, k - 1);
      OrHalf(x, Pow2(k));
      DivDiv(x, 2, Pow2(k - 1));
    }
  }

  lemma LowSeven(x: nat)
    ensures x % 0x100 % 0x80 == x % 0x80
  {
  }

  /** `byte(x) | 0x80` keeps the low seven bits. */
  lemma OrContinuation(x: nat)
    ensures Or(x % 0x100, 0x80) == x % 0x80 + 0x80
  {
    assert Pow2(7) == 0x80 && Pow2(8) == 0x100;
    OrSetsBit(x % 0x100, 7);
    LowSeven(x);
  }

  lemma {:induction false} XorOnes(a: nat, n: nat)
    requires a < Pow2(n)
    ensures Xor(a, Pow2(n) - 1) == Pow2(n) - 1 - a
  {
    if n > 0 {
      XorOnes(a / 2, n - 1);
      XorHalf(a, Pow2(n) - 1);
    }
  }

  lemma DoubledMod(x: i64)
    ensures 2 * ToU64(x) % TWO64 == if x < 0 then 2 * x + TWO64 else 2 * x
  {
    var d := 2 * ToU64(x);
    assert d == if x < 0 then 2 * x + TWO64 + TWO64 else 2 * x;
  }

  lemma DoubledWord(x: i64) returns (ux: nat)
    ensures ux == Shl(ToU64(x), 1, 64) == (if x < 0 then 2 * x + TWO64 else 2 * x)
    ensures ux < Pow2(64) == TWO64
  {
    Pow2Values();
    var d := 2 * ToU64(x);
    ux := Shl(ToU64(x), 1, 64);
    assert Scale(ToU64(x), 1) == 2 * Scale(ToU64(x), 0) == d;
    LowMod(d, 64);
    DoubledMod(x);
  }

  /** `(u64(x) << 1) ^ u64(x >> 63)`, with the arithmetic shift giving 0 or all ones. */
  lemma ZigZagByShift(x: i64)
    ensures Xor(Shl(ToU64(x), 1, 64), if x < 0 then TWO64 - 1 else 0) == ZigZag(x)
  {
    var ux := DoubledWord(x);
    XorZero(ux);
    XorOnes(ux, 64);
  }

  // ---- The source's loops ----------------------------------------------------

  method PutUvarint(buf: array<byte>, x: u64) returns (n: nat)
    requires buf.Length >= MAX_VARINT_LEN64
    modifies buf
    ensures n <= buf.Length && buf[..n] == Uvarint(x)
    ensures buf[n..] == old(buf[n..])
  {
    hide Or, Uvarint;
    UvarintMaxLength(x);
    var i, y := 0, x;
    while y >= 0x80
      invariant 0 <= y <= x && 0 <= i && i + |Uvarint(y)| == |Uvarint(x)|
      invariant buf[..i] + Uvarint(y) == Uvarint(x)
      invariant forall k :: i <= k < buf.Length ==> buf[k] == old(buf[k])
    {
      PutStep(buf[..i], y);
      ghost var before := buf[..i];
      buf[i] := Or(y % 0x100, 0x80);
      assert buf[..i + 1] == before + [buf[i]];
      i, y := i + 1, y / 0x80;
    }
    ghost var before := buf[..i];
    PutLast(y);
    buf[i] := y;
    assert buf[..i + 1] == before + [y];
    n := i + 1;
    assert buf[..n] == Uvarint(x) && buf[n..] == old(buf[n..]);
  }

  lemma PutLast(y: nat)
    requires y < 0x80
    ensures Uvarint(y) == [y]
  {
  }

  lemma PutStep(before: seq<byte>, y: nat)
    requires y >= 0x80
    ensures Or(y % 0x100, 0x80) < 0x100
    ensures before + [Or(y % 0x100, 0x80)] + Uvarint(y / 0x80) == before + Uvarint(y)
    ensures |Uvarint(y)| == 1 + |Uvarint(y / 0x80)|
  {
    OrContinuation(y);
    assert Uvarint(y) == [y % 0x80 + 0x80] + Uvarint(y / 0x80);
  }

  method PutVarint(buf: array<byte>, x: i64) returns (n: nat)
    requires buf.Length >= MAX_VARINT_LEN64
    modifies buf
    ensures n <= buf.Length && buf[..n] == ZigZagVarint(x)
    ensures buf[n..] == old(buf[n..])
  {
    var ux: nat := Shl(ToU64(x), 1, 64);
    var sign: nat := if x < 0 then TWO64 - 1 else 0;
    ZigZagByShift(x);
    n := PutUvarint(buf, Xor(ux, sign));
  }

  method ReadUvarint(buf: seq<byte>) returns (r: Result<(nat, nat), ReadError>)
    ensures r == DecodeUvarint(buf)
  {
    if buf == [] {
      return Err(EndOfStream);
    }
    var x, s: nat := 0, 0;
    for i := 0 to |buf|
      invariant i <= MAX_VARINT_LEN64 && s == 7 * i
      invariant i <= TermIndex(buf)
      invariant i < MAX_VARINT_LEN64 ==> x == GroupValue(buf[..i])
    {
      var b := buf[i];
      if i == MAX_VARINT_LEN64 {
        return Err(VarintOverflow);
      }
      if b < 0x80 {
        assert TermIndex(buf) == i;
        if i == MAX_VARINT_LEN64 - 1 && b > 1 {
          return Err(VarintOverflow);
        }
        AccumulateGroup(buf, i, x, s, b);
        return Ok((Or(x, Shl(b, s, 64)), i + 1));
      }
      if i < MAX_VARINT_LEN64 - 1 {
        AccumulateGroup(buf, i, x, s, b);
      }
      x := Or(x, Shl(And(b, 0x7F), s, 64));
      s := s + 7;
    }
    return Err(UnexpectedEnd);
  }

  /** One `x |= group << s` step of the reader extends the value by one group. */
  lemma AccumulateGroup(buf: seq<byte>, i: nat, x: nat, s: nat, b: byte)
    requires i < |buf| && i < MAX_VARINT_LEN64
    requires i == MAX_VARINT_LEN64 - 1 ==> buf[i] <= 1
    requires x == GroupValue(buf[..i]) && s == 7 * i && b == buf[i]
    ensures Or(x, Shl(And(b, 0x7F), s, 64)) == GroupValue(buf[..i + 1])
    ensures b < 0x80 ==> And(b, 0x7F) == b
  {
    hide *;
    assert buf[..i + 1] == buf[..i] + [buf[i]];
    GroupValueSnoc(buf[..i], buf[i]);
    ShiftedGroup(x, b, i);
    assert b < 0x80 ==> b % 0x80 == b;
  }

  /** One `x |= group << s` step adds the group at its place. */
  lemma ShiftedGroup(x: nat, b: byte, i: nat)
    requires i < MAX_VARINT_LEN64 && x < Pow2(7 * i)
    requires i == MAX_VARINT_LEN64 - 1 ==> b <= 1
    ensures And(b, 0x7F) == b % 0x80
    ensures Or(x, Shl(b % 0x80, 7 * i, 64)) == x + Scale(b % 0x80, 7 * i)
  {
    hide And, Or, Pow2, Low, Scale;
    SevenBits(b);
    var g := b % 0x80;
    GroupFits(0, g, i);
    LowSmall(Scale(g, 7 * i), 64);
    OrDisjoint(g, 7 * i, x);
    OrComm(x, Scale(g, 7 * i));
  }

  lemma SevenBits(b: byte)
    ensures And(b, 0x7F) == b % 0x80
  {
    hide And, Low;
    assert Pow2(7) == 0x80;
    AndMask(b, 7);
    LowMod(b, 7);
  }

  method ReadVarint(buf: seq<byte>) returns (r: Result<(i64, nat), ReadError>)
    ensures r == DecodeVarint(buf)
  {
    var u := ReadUvarint(buf);
    if u.Err? {
      return Err(u.error);
    }
    DecodedBound(buf);
    var ux := u.value.0;
    var x: int := Shr(ux, 1);
    assert Shr(ux / 2, 0) == ux / 2;
    if ux % 2 != 0 {
      x := -x - 1;
    }
    return Ok((x, u.value.1));
  }
}
