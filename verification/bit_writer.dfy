/** The bit stream of the chunk encodings: bytes are filled from the most significant bit. */
module Bstream {
  import opened Words
  import opened Wrappers
  import opened Varint

  // ---- Bits inside one byte --------------------------------------------------

  lemma {:induction false} ShrBits(x: nat, a: nat, b: nat)
    requires x < Pow2(a + b)
    ensures Shr(x, b) < Pow2(a)
    decreases b
  {
    if b > 0 {
      assert a + b - 1 == a + (b - 1);
      ShrBits(x / 2, a, b - 1);
    }
  }

  /** A byte whose `c` low bits are zero, as its high part. */
  lemma ByteParts(v: byte, c: nat) returns (hi: nat)
    requires c <= 8 && Low(v, c) == 0
    ensures hi == Shr(v, c) < Pow2(8 - c) && v == Scale(hi, c)
    ensures ToBits(v, 8)[..8 - c] == ToBits(hi, 8 - c)
  {
    hi := Shr(v, c);
    SplitAt(v, c);
    assert Pow2(8) == 256;
    ShrBits(v, 8 - c, c);
    ToBitsSplit(v, 8 - c, c);
  }

  /** Writing the `k` bits of `w` right below the bits already used in `v`, whose `c` low
      bits are still free. */
  lemma FillByte(v: byte, c: nat, k: nat, w: nat)
    requires k <= c <= 8 && Low(v, c) == 0 && w < Pow2(k)
    ensures Or(v, Scale(w, c - k)) < 256
    ensures Low(Or(v, Scale(w, c - k)), c - k) == 0
    ensures ToBits(Or(v, Scale(w, c - k)), 8)[..8 - (c - k)] == ToBits(v, 8)[..8 - c] + ToBits(w, k)
  {
    hide *;
    var hi := ByteParts(v, c);
    var m := c - k;
    ScaleBound(w, m, k);
    OrDisjoint(hi, c, Scale(w, m));
    Pow2Values();
    ScaleBound(hi, c, 8 - c);
    ScaleScale(hi, k, m);
    ScaleAdd(Scale(hi, k), w, m);
    var y := Scale(hi, k) + w;
    assert Or(v, Scale(w, m)) == Scale(y, m);
    LowScale(y, m, m);
    assert 8 - m + m == 8;
    ToBitsJoin(y, 0, 8 - m, m);
    PrefixOfConcat(ToBits(y, 8 - m), ToBits(0, m), 0);
    assert 8 - c + k == 8 - m;
    ToBitsJoin(hi, w, 8 - c, k);
  }

  /** Bits of `x << k` in a word of `n` bits. */
  lemma ShlBits(x: nat, k: nat, n: nat)
    requires k <= n
    ensures ToBits(Shl(x, k, n), n) == ToBits(x, n - k) + ToBits(0, k)
    ensures Low(Shl(x, k, n), k) == 0
  {
    var m := Low(x, n - k);
    LowScale(x, k, n);
    LowScale(m, k, k);
    assert n - k + k == n;
    ToBitsJoin(m, 0, n - k, k);
    ToBitsLow(x, n - k);
  }

  lemma {:induction false} AndBit(x: nat, k: nat)
    ensures And(x, Pow2(k)) != 0 <==> Shr(x, k) % 2 == 1
    decreases k
  {
    if k == 0 {
      AndZero(x / 2);
    } else {
      AndBit(x / 2, k - 1);
      AndHalf(x, Pow2(k));
    }
  }

  lemma AndHalf(a: nat, b: nat)
    ensures And(a, b) / 2 == And(a / 2, b / 2)
    ensures And(a, b) % 2 == Bit(a % 2 == 1 && b % 2 == 1)
  {
  }

  // ---- Packing ---------------------------------------------------------------

  /** The bytes a writer holds after exactly these bits: the last byte is padded with zeros. */
  function Pack(bits: Bits): (bs: seq<byte>)
    ensures |bs| == (|bits| + 7) / 8
  {
    if bits == [] then []
    else if |bits| <= 8 then PadBound(bits); [Scale(FromBits(bits), 8 - |bits|)]
    else PadBound(bits[..8]); [FromBits(bits[..8])] + Pack(bits[8..])
  }

  lemma PadBound(last: Bits)
    requires |last| <= 8
    ensures Scale(FromBits(last), 8 - |last|) < 256
  {
    FromBitsBound(last);
    assert Pow2(8) == 256;
    ScaleBound(FromBits(last), 8 - |last|, |last|);
  }

  lemma ZeroBelow(k: nat)
    ensures 0 < Pow2(k)
  {
  }

  lemma PadBits(last: Bits)
    requires |last| <= 8
    ensures ToBits(Scale(FromBits(last), 8 - |last|), 8) == last + ToBits(0, 8 - |last|)
  {
    hide *;
    ToFromBits(last);
    PadZeros(FromBits(last), |last|);
  }

  lemma PadZeros(f: nat, n: nat)
    requires n <= 8
    ensures ToBits(Scale(f, 8 - n), 8) == ToBits(f, n) + ToBits(0, 8 - n)
  {
    ZeroBelow(8 - n);
    hide *;
    assert n + (8 - n) == 8;
    ToBitsJoin(f, 0, n, 8 - n);
  }

  lemma BytesBitsCons(b: byte, rest: seq<byte>)
    ensures BytesBits([b] + rest) == ToBits(b, 8) + BytesBits(rest)
  {
    BytesBitsConcat([b], rest);
    BytesBitsOne(b);
  }

  lemma BytesBitsSnoc(s: seq<byte>, b: byte)
    ensures BytesBits(s + [b]) == BytesBits(s) + ToBits(b, 8)
  {
    assert (s + [b])[..|s|] == s;
  }

  lemma PackShort(bits: Bits)
    requires 0 < |bits| <= 8
    ensures BytesBits(Pack(bits)) == bits + ToBits(0, 8 - |bits|)
  {
    PadBound(bits);
    PadBits(bits);
    BytesBitsOne(Pack(bits)[0]);
  }

  lemma PackLong(bits: Bits, pad: nat)
    requires |bits| > 8
    requires BytesBits(Pack(bits[8..])) == bits[8..] + ToBits(0, pad)
    ensures |Pack(bits)| == 1 + |Pack(bits[8..])|
    ensures BytesBits(Pack(bits)) == bits + ToBits(0, pad)
  {
    hide *;
    var first, rest := bits[..8], bits[8..];
    assert bits == first + rest;
    PackCons(first, rest);
    PadBound(first);
    ToFromBits(first);
    BytesBitsCons(FromBits(first), Pack(rest));
    assert ToBits(FromBits(first), 8) == first;
  }

  lemma PackCons(first: Bits, rest: Bits)
    requires |first| == 8 && rest != []
    ensures FromBits(first) < 256
    ensures Pack(first + rest) == [FromBits(first)] + Pack(rest)
  {
    PadBound(first);
    var bits := first + rest;
    assert bits[..8] == first && bits[8..] == rest;
  }

  /** Packing keeps every bit and adds fewer than eight zeros. */
  lemma {:induction false} PackBits(bits: Bits)
    ensures 0 <= 8 * |Pack(bits)| - |bits| < 8
    ensures BytesBits(Pack(bits)) == bits + ToBits(0, 8 * |Pack(bits)| - |bits|)
    decreases |bits|
  {
    if bits == [] {
    } else if |bits| <= 8 {
      PackShort(bits);
    } else {
      PackBits(bits[8..]);
      PackLong(bits, 8 * |Pack(bits[8..])| - |bits[8..]|);
    }
  }

  lemma PackOne(b: byte, c: nat)
    requires c < 8 && Low(b, c) == 0
    ensures Pack(ToBits(b, 8)[..8 - c]) == [b]
  {
    var hi := ByteParts(b, c);
    FromToBits(hi, 8 - c);
    LowSmall(hi, 8 - c);
  }

  lemma PackMore(b: byte, rest: Bits)
    requires rest != []
    ensures Pack(ToBits(b, 8) + rest) == [b] + Pack(rest)
  {
    var bits := ToBits(b, 8) + rest;
    assert bits[..8] == ToBits(b, 8) && bits[8..] == rest;
    FromToBits(b, 8);
    assert Pow2(8) == 256;
    LowSmall(b, 8);
  }

  /** Bytes whose unused low bits are zero are the packing of their used bits. */
  lemma {:induction false} PackUnique(bs: seq<byte>, c: nat)
    requires c < 8 && (c > 0 ==> |bs| > 0 && Low(bs[|bs| - 1], c) == 0)
    ensures Pack(BytesBits(bs)[..8 * |bs| - c]) == bs
    decreases |bs|
  {
    if bs != [] {
      var b, rest := bs[0], bs[1..];
      assert bs == [b] + rest;
      BytesBitsCons(b, rest);
      if rest == [] {
        PackOne(b, c);
        assert BytesBits(bs) == ToBits(b, 8);
      } else {
        PackUnique(rest, c);
        var tail := BytesBits(rest)[..8 * |rest| - c];
        PackMore(b, tail);
        assert BytesBits(bs)[..8 * |bs| - c] == ToBits(b, 8) + tail;
      }
    }
  }

  lemma PrefixOfPrefix<T>(a: seq<T>, b: seq<T>, k: nat)
    requires k <= |a|
    ensures (a + b)[..k] == a[..k]
  {
  }

  lemma ConcatAssoc<T>(a: seq<T>, b: seq<T>, c: seq<T>)
    ensures (a + b) + c == a + (b + c)
  {
  }

  lemma PrefixOfConcat<T>(a: seq<T>, b: seq<T>, k: nat)
    requires k <= |b|
    ensures (a + b)[..|a| + k] == a + b[..k]
  {
  }

  /** Filling `k` of the `c` free low bits of the last byte appends the `k` bits of `w`. */
  lemma StreamFill(s: seq<byte>, c: nat, k: nat, w: nat)
    requires s != [] && k <= c <= 8 && Low(s[|s| - 1], c) == 0 && w < Pow2(k)
    ensures Or(s[|s| - 1], Scale(w, c - k)) < 256
    ensures Low(Or(s[|s| - 1], Scale(w, c - k)), c - k) == 0
    ensures BytesBits(s[..|s| - 1] + [Or(s[|s| - 1], Scale(w, c - k))])[..8 * |s| - (c - k)]
         == BytesBits(s)[..8 * |s| - c] + ToBits(w, k)
  {
    hide *;
    var n := |s| - 1;
    var v := s[n];
    FillByte(v, c, k, w);
    var v' := Or(v, Scale(w, c - k));
    BytesBitsSnoc(s[..n], v);
    BytesBitsSnoc(s[..n], v');
    assert s == s[..n] + [v];
    PrefixOfConcat(BytesBits(s[..n]), ToBits(v', 8), 8 - (c - k));
    PrefixOfConcat(BytesBits(s[..n]), ToBits(v, 8), 8 - c);
  }

  lemma FreshByte(s: seq<byte>)
    ensures Low(0, 8) == 0
    ensures BytesBits(s + [0])[..8 * |s + [0]| - 8] == BytesBits(s)
  {
    BytesBitsSnoc(s, 0);
    LowZero(8);
  }

  /** What `back |= 1 << (c - 1)` appends. */
  lemma WriteOneEffect(s: seq<byte>, c: nat)
    requires s != [] && 0 < c <= 8 && Low(s[|s| - 1], c) == 0
    ensures Or(s[|s| - 1], Shl(1, c - 1, 8)) < 256
    ensures Low(Or(s[|s| - 1], Shl(1, c - 1, 8)), c - 1) == 0
    ensures BytesBits(s[..|s| - 1] + [Or(s[|s| - 1], Shl(1, c - 1, 8))])[..8 * |s| - (c - 1)]
         == BytesBits(s)[..8 * |s| - c] + [true]
  {
    MaskValue(c - 1);
    StreamFill(s, c, 1, 1);
    TopBit(1);
  }

  /** Leaving the bit clear appends a zero. */
  lemma WriteZeroEffect(s: seq<byte>, c: nat)
    requires s != [] && 0 < c <= 8 && Low(s[|s| - 1], c) == 0
    ensures Low(s[|s| - 1], c - 1) == 0
    ensures BytesBits(s)[..8 * |s| - (c - 1)] == BytesBits(s)[..8 * |s| - c] + [false]
  {
    StreamFill(s, c, 1, 0);
    OrZero(s[|s| - 1]);
    ScaleZero(c - 1);
    assert s == s[..|s| - 1] + [s[|s| - 1]];
    TopBit(0);
  }

  /** What filling the free bits with the high part of a byte, and starting a new byte with
      the rest, appends. */
  lemma WriteByteEffect(s: seq<byte>, c: nat, byt: byte)
    requires s != [] && 0 < c < 8 && Low(s[|s| - 1], c) == 0
    ensures Or(s[|s| - 1], Shr(byt, 8 - c)) < 256
    ensures Shl(byt, c, 8) < 256 && Low(Shl(byt, c, 8), c) == 0
    ensures BytesBits(s[..|s| - 1] + [Or(s[|s| - 1], Shr(byt, 8 - c))] + [Shl(byt, c, 8)])[..8 * |s| + (8 - c)]
         == BytesBits(s)[..8 * |s| - c] + ToBits(byt, 8)
  {
    hide *;
    SplitByte(byt, c);
    FillAll(s, c, Shr(byt, 8 - c));
    NewByte(s, c, byt, Shr(byt, 8 - c), Shl(byt, c, 8), s[..|s| - 1] + [Or(s[|s| - 1], Shr(byt, 8 - c))]);
  }

  lemma NewByte(s: seq<byte>, c: nat, byt: byte, hi: nat, lo: byte, filled: seq<byte>)
    requires 0 < c < 8 && |filled| == |s| > 0
    requires ToBits(byt, 8) == ToBits(hi, c) + ToBits(lo, 8)[..8 - c]
    requires BytesBits(filled) == BytesBits(s)[..8 * |s| - c] + ToBits(hi, c)
    ensures BytesBits(filled + [lo])[..8 * |s| + (8 - c)] == BytesBits(s)[..8 * |s| - c] + ToBits(byt, 8)
  {
    hide *;
    BytesBitsSnoc(filled, lo);
    PrefixOfConcat(BytesBits(filled), ToBits(lo, 8), 8 - c);
    ConcatAssoc(BytesBits(s)[..8 * |s| - c], ToBits(hi, c), ToBits(lo, 8)[..8 - c]);
  }

  lemma TakeAll<T>(a: seq<T>, n: nat)
    requires n == |a|
    ensures a[..n] == a
  {
  }

  lemma FillAll(s: seq<byte>, c: nat, hi: nat)
    requires s != [] && 0 < c < 8 && Low(s[|s| - 1], c) == 0 && hi < Pow2(c)
    ensures Or(s[|s| - 1], hi) < 256
    ensures BytesBits(s[..|s| - 1] + [Or(s[|s| - 1], hi)]) == BytesBits(s)[..8 * |s| - c] + ToBits(hi, c)
  {
    ScaleNone(hi, c - c);
    hide *;
    StreamFill(s, c, c, hi);
    TakeAll(BytesBits(s[..|s| - 1] + [Or(s[|s| - 1], hi)]), 8 * |s| - (c - c));
  }

  // ---- BitWriter -------------------------------------------------------------

  class BitWriter {
    var stream: seq<byte>
    /** Number of right-most bits still free in the last byte. */
    var count: nat

    ghost predicate Valid()
      reads this
    {
      count < 8 && (count > 0 ==> |stream| > 0 && Low(stream[|stream| - 1], count) == 0)
    }

    /** Everything written so far. */
    ghost function Contents(): (s: Bits)
      requires Valid()
      reads this
      ensures |s| == 8 * |stream| - count
    {
      BytesBits(stream)[..8 * |stream| - count]
    }

    /** Adopts `initial` as whole bytes: the next bit opens a fresh byte. */
    constructor (initial: seq<byte>)
      ensures Valid() && stream == initial && count == 0
    {
      stream, count := initial, 0;
    }

    method Reset(initial: seq<byte>)
      modifies this
      ensures Valid() && stream == initial && count == 0
    {
      stream, count := initial, 0;
    }

    method WriteBit(b: bool)
      requires Valid()
      modifies this
      ensures Valid()
      ensures Contents() == old(Contents()) + [b]
    {
      hide Or, Shl, BytesBits, Low, Bit, Scale, Pow2;
      if count == 0 {
        FreshByte(stream);
        stream := stream + [0];
        count := 8;
      }
      var n := |stream| - 1;
      if b {
        WriteOneEffect(stream, count);
        stream := stream[..n] + [Or(stream[n], Shl(1, count - 1, 8))];
      } else {
        WriteZeroEffect(stream, count);
      }
      count := count - 1;
    }

    method WriteByte(byt: byte)
      requires Valid()
      modifies this
      ensures Valid() && count == old(count)
      ensures Contents() == old(Contents()) + ToBits(byt, 8)
    {
      hide Or, Shl, Shr, BytesBits, Low, ToBits, Pow2, Scale;
      if count == 0 {
        BytesBitsSnoc(stream, byt);
        stream := stream + [byt];
        return;
      }
      var n := |stream| - 1;
      WriteByteEffect(stream, count, byt);
      stream := stream[..n] + [Or(stream[n], Shr(byt, 8 - count))] + [Shl(byt, count, 8)];
    }

    /** Writes the `nbits` right-most bits of `u`, most significant first. */
    method WriteBits(u: u64, nbits: nat)
      requires Valid() && nbits <= 64
      modifies this
      ensures Valid()
      ensures Contents() == old(Contents()) + ToBits(u, nbits)
    {
      hide Shl, Shr, ToBits, BytesBits, Low, Pow2, Or, Scale;
      if nbits == 0 {
        WriteNothing(u);
        return;
      }
      LeftAligned(u, nbits);
      var w: nat, n: nat := Shl(u, 64 - nbits, 64), nbits;
      while n >= 8
        invariant Valid() && n <= 64 && w < TWO64
        invariant Contents() + ToBits(w, 64)[..n] == old(Contents()) + ToBits(u, nbits)
      {
        ShiftOut(Contents(), w, n, 8);
        WriteByte(Shr(w, 56));
        w := Shl(w, 8, 64);
        n := n - 8;
      }
      while n > 0
        invariant Valid() && n <= 64 && w < TWO64
        invariant Contents() + ToBits(w, 64)[..n] == old(Contents()) + ToBits(u, nbits)
      {
        ShiftOut(Contents(), w, n, 1);
        TopBit(Shr(w, 63));
        WriteBit(Shr(w, 63) != 0);
        w := Shl(w, 1, 64);
        n := n - 1;
      }
    }

    /** The header rewrite of a chunk: replaces the first two bytes in place. */
    method PatchHeader(a: byte, b: byte)
      requires Valid() && (|stream| > 2 || (|stream| == 2 && count == 0))
      modifies this
      ensures Valid() && count == old(count)
      ensures stream == [a, b] + old(stream)[2..]
      ensures Contents()[16..] == old(Contents()[16..])
    {
      HeaderBits(stream, [a, b]);
      stream := stream[0 := a][1 := b];
      assert stream == [a, b] + old(stream)[2..];
      HeaderBits(stream, [a, b]);
    }
  }

  lemma HeaderBits(s: seq<byte>, h: seq<byte>)
    requires |s| >= 2 && |h| == 2
    ensures BytesBits(s)[16..] == BytesBits(s[2..])
    ensures BytesBits(h + s[2..])[16..] == BytesBits(s[2..])
  {
    assert s == s[..2] + s[2..];
    BytesBitsConcat(s[..2], s[2..]);
    BytesBitsConcat(h, s[2..]);
  }

  lemma {:induction false} LowZero(k: nat)
    ensures Low(0, k) == 0
  {
    if k > 0 {
      LowZero(k - 1);
    }
  }

  lemma ScaleNone(x: nat, k: nat)
    requires k == 0
    ensures Scale(x, k) == x
  {
  }

  lemma {:induction false} ScaleZero(k: nat)
    ensures Scale(0, k) == 0
  {
    if k > 0 {
      ScaleZero(k - 1);
    }
  }

  lemma SplitByte(byt: byte, c: nat)
    requires 0 < c < 8
    ensures Shr(byt, 8 - c) < Pow2(c) && Shl(byt, c, 8) < 256 && Low(Shl(byt, c, 8), c) == 0
    ensures ToBits(byt, 8) == ToBits(Shr(byt, 8 - c), c) + ToBits(Shl(byt, c, 8), 8)[..8 - c]
  {
    assert Pow2(8) == 256;
    assert c + (8 - c) == 8;
    ShrBits(byt, c, 8 - c);
    ShlBits(byt, c, 8);
    ToBitsSplit(byt, c, 8 - c);
  }

  lemma WriteNothing(u: nat)
    ensures ToBits(u, 0) == []
  {
  }

  lemma LeftAligned(u: u64, n: nat)
    requires n <= 64
    ensures Shl(u, 64 - n, 64) < TWO64
    ensures ToBits(Shl(u, 64 - n, 64), 64)[..n] == ToBits(u, n)
  {
    Pow2Values();
    ShlBits(u, 64 - n, 64);
  }

  /** The top `k` of the `n` pending bits of a word, and the word shifted past them. */
  lemma ShiftOut(done: Bits, w: u64, n: nat, k: nat)
    requires k <= n <= 64
    ensures Shr(w, 64 - k) < Pow2(k) && Shl(w, k, 64) < TWO64
    ensures done + ToBits(w, 64)[..n] == done + ToBits(Shr(w, 64 - k), k) + ToBits(Shl(w, k, 64), 64)[..n - k]
    ensures k == 8 ==> Shr(w, 56) < 256
    ensures k == 1 ==> Shr(w, 63) < 2
  {
    Pow2Values();
    assert Pow2(1) == 2;
    hide *;
    assert k + (64 - k) == 64;
    ToBitsSplit(w, k, 64 - k);
    ShrBits(w, k, 64 - k);
    ShlBits(w, k, 64);
    var top := ToBits(Shr(w, 64 - k), k);
    PrefixOfConcat(top, ToBits(w, 64 - k), n - k);
    PrefixOfPrefix(ToBits(w, 64 - k), ToBits(0, k), n - k);
    ConcatAssoc(done, top, ToBits(w, 64 - k)[..n - k]);
  }

  lemma TopBit(x: nat)
    requires x < 2
    ensures ToBits(x, 1) == [x != 0]
  {
    assert ToBits(x / 2, 0) == [];
  }

  lemma MaskValue(k: nat)
    requires k < 8
    ensures Shl(1, k, 8) == Scale(1, k)
  {
    assert Pow2(1) == 2 && Pow2(8) == 256;
    ScaleBound(1, k, 1);
    Pow2Mono(k + 1, 8);
    LowSmall(Scale(1, k), 8);
  }
}
